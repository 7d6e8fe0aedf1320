/** Requests as clients write them, with names repeated, and what the parser makes of them. */
module WrittenRequests {
  import opened Strings
  import opened Fields
  import opened Framing
  import opened Messages
  import opened Scanning
  import opened Requests
  import opened RoundTrip
  import opened Repetition
  import opened Wire
  import opened Chunked
  import opened StandardCoding
  import opened WrittenTrailers

  predicate Target(url: string) {
    url != "" && ' ' !in url && LF !in url
  }

  function RequestLineText(verb: string, url: string): string {
    verb + " " + url + " HTTP/1.1"
  }

  function RequestText(verb: string, url: string, xs: seq<Field>, body: string): string {
    HeadText(RequestLineText(verb, url), xs) + body
  }

  lemma RequestLineClean(verb: string, url: string)
    requires verb in METHODS && Target(url)
    ensures LF !in RequestLineText(verb, url)
    ensures ReadRequestLine(RequestLineText(verb, url) + [CR]) == Some(RequestLine(verb, url))
  {
    assert RequestLineText(verb, url) + [CR] == verb + " " + url + " " + HTTP_1_1 + [CR];
    RequestLineReadBack(verb, url);
  }

  /** The request is found at the front of its text. */
  lemma RequestStarts(verb: string, url: string, xs: seq<Field>, t: string)
    requires verb in METHODS && HeadText(RequestLineText(verb, url), xs) <= t
    ensures WordStart(METHODS, t) == Some(0)
  {
    assert t[..|verb|] == verb;
    assert WordAt(METHODS, t, 0);
    WordStartIs(METHODS, t, 0);
  }

  /** The head is refused: a name is no token, one that is no list field is repeated, or there is no Host. */
  ghost predicate BadHead(xs: seq<Field>) {
    SomeUnnamed(xs) || Repeats(map[], xs) || HOST !in NamesOf(xs)
  }

  lemma WrittenHead(g: Grammar<Request>, style: LengthStyle, verb: string, url: string, xs: seq<Field>, t: string,
                    n: nat)
    requires IsRequestGrammar(g, style) && verb in METHODS && Target(url) && AllWritten(xs)
    requires HeadText(RequestLineText(verb, url), xs) <= t && n == |HeadText(RequestLineText(verb, url), xs)|
    ensures ReadHead(g, t) ==
            if BadHead(xs) then Bad
            else Ok(Head(RequestLine(verb, url), Section(Merged(map[], xs), Announces(xs))), n)
  {
    var first := RequestLineText(verb, url);
    RequestLineClean(verb, url);
    if xs == [] {
      EmptyHeadRefused(g, first, t);
      return;
    }
    assert g.startLine(first + [CR]) == ReadRequestLine(first + [CR]);
    HeadRead(g, true, first, RequestLine(verb, url), xs, t);
    assert g.accept(Merged(map[], xs)) == (HOST in Merged(map[], xs));
  }

  // ------------------------------------------------------------------ verdicts

  /** A message at the front of the buffer, from its head and its body. */
  lemma VerdictFromParts(g: Grammar<Request>, style: LengthStyle, t: string, n: nat, start: StartLine, f: Section,
                         body: Scan<Content>)
    requires g == RequestGrammar(style) && WordStart(METHODS, t) == Some(0) && Find(t, CRLFCRLF, 0).Some?
    requires n <= |t| && ReadHead(g, t) == Ok(Head(start, f), n) && ReadBody(g.rules, t, n, f) == body
    requires start.RequestLine? && HOST in f.headers && (body.Ok? || body.Bad?)
    ensures ParseRequest(style, t) ==
            match body
            case Ok(c, next) => Ok(Request(start.verb, start.url, f.headers[HOST], c.headers, c.body), next)
            case _ => Bad
  {
    RequestGrammarIs(style);
    assert t[0..] == t;
    assert RequestScanner(style).message(t) == ReadMessage(g, t);
    if body.Ok? {
      MessageFromParts(g, style, t, n, start, f, body.value, body.next);
    }
  }

  lemma VerdictOfBadHead(g: Grammar<Request>, style: LengthStyle, t: string)
    requires g == RequestGrammar(style) && WordStart(METHODS, t) == Some(0) && Find(t, CRLFCRLF, 0).Some?
    requires ReadHead(g, t).Bad?
    ensures ParseRequest(style, t).Bad?
  {
    assert t[0..] == t;
    assert RequestScanner(style).message(t) == ReadMessage(g, t);
  }

  lemma WrittenFront(verb: string, url: string, xs: seq<Field>, t: string)
    requires verb in METHODS && Target(url) && AllWritten(xs) && HeadText(RequestLineText(verb, url), xs) <= t
    ensures WordStart(METHODS, t) == Some(0) && Find(t, CRLFCRLF, 0).Some?
  {
    var first := RequestLineText(verb, url);
    RequestLineClean(verb, url);
    if xs == [] {
      EmptyHeadRefused(RequestGrammar(OneChar), first, t);
    } else {
      HeadStands(first, xs, t, |HeadText(first, xs)|);
    }
    RequestStarts(verb, url, xs, t);
  }

  lemma BadHeadRefused(style: LengthStyle, verb: string, url: string, xs: seq<Field>, t: string)
    requires verb in METHODS && Target(url) && AllWritten(xs) && BadHead(xs)
    requires HeadText(RequestLineText(verb, url), xs) <= t
    ensures ParseRequest(style, t).Bad?
  {
    RequestGrammarIs(style);
    WrittenFront(verb, url, xs, t);
    WrittenHead(RequestGrammar(style), style, verb, url, xs, t, |HeadText(RequestLineText(verb, url), xs)|);
    VerdictOfBadHead(RequestGrammar(style), style, t);
  }

  /** The head of `t` has been read as `start` and `f`, up to `n`. */
  ghost predicate HeadIsRead(g: Grammar<Request>, t: string, start: StartLine, f: Section, n: nat) {
    && WordStart(METHODS, t) == Some(0) && Find(t, CRLFCRLF, 0).Some? && n <= |t|
    && ReadHead(g, t) == Ok(Head(start, f), n) && start.RequestLine? && HOST in f.headers
  }

  /** The head of a request stands at the front of `t`, with fields that can be merged. */
  ghost predicate HeadFront(verb: string, url: string, xs: seq<Field>, t: string, n: nat, f: Section) {
    && HeadText(RequestLineText(verb, url), xs) <= t && n == |HeadText(RequestLineText(verb, url), xs)|
    && !BadHead(xs) && f == Section(Merged(map[], xs), Announces(xs))
  }

  lemma FrontOf(verb: string, url: string, xs: seq<Field>, body: string, x: string, h: Headers)
    requires !BadHead(xs) && h == Merged(map[], xs)
    ensures var text, n := RequestText(verb, url, xs, body), |HeadText(RequestLineText(verb, url), xs)|;
            && HeadFront(verb, url, xs, text + x, n, Section(h, Announces(xs)))
            && OccursAt(text + x, body, n) && |text| == n + |body|
  {
    var text := RequestText(verb, url, xs, body);
    BodyStands(HeadText(RequestLineText(verb, url), xs), body, x, text + x);
  }

  lemma GoodHeadRead(g: Grammar<Request>, style: LengthStyle, verb: string, url: string, xs: seq<Field>, t: string,
                     n: nat, f: Section)
    requires IsRequestGrammar(g, style) && verb in METHODS && Target(url) && AllWritten(xs)
    requires HeadText(RequestLineText(verb, url), xs) <= t && n == |HeadText(RequestLineText(verb, url), xs)|
    requires !BadHead(xs) && f == Section(Merged(map[], xs), Announces(xs))
    ensures HeadIsRead(g, t, RequestLine(verb, url), f, n)
  {
    WrittenFront(verb, url, xs, t);
    WrittenHead(g, style, verb, url, xs, t, n);
  }

  lemma PlainVerdict(g: Grammar<Request>, style: LengthStyle, t: string, start: StartLine, f: Section, n: nat,
                     body: string)
    requires g == RequestGrammar(style) && HeadIsRead(g, t, start, f, n)
    requires TRANSFER_ENCODING !in f.headers && FramedBy(f.headers, body) && OccursAt(t, body, n)
    ensures ParseRequest(style, t) ==
            Ok(Request(start.verb, start.url, f.headers[HOST], f.headers, body), n + |body|)
  {
    RequestGrammarIs(style);
    FramedBodyRead(g.rules, true, t, n, f, f.headers, body);
    VerdictFromParts(g, style, t, n, start, f, Ok(Content(f.headers, body), n + |body|));
  }

  lemma BodyStands(head: string, body: string, x: string, t: string)
    requires t == head + body + x
    ensures head <= t && OccursAt(t, body, |head|)
  {
    assert t[|head|..|head| + |body|] == body;
  }

  /** A request without a coding, as it is written and followed by any bytes. It is refused if and only if a name is no
      token, one that is no list field is repeated, or there is no Host; otherwise it is read with its fields merged,
      and exactly its bytes are consumed. */
  lemma WrittenRequestRead(style: LengthStyle, verb: string, url: string, xs: seq<Field>, body: string, x: string)
    requires verb in METHODS && Target(url) && AllWritten(xs) && TRANSFER_ENCODING !in NamesOf(xs)
    requires FramedBy(Merged(map[], xs), body)
    ensures var text, h := RequestText(verb, url, xs, body), Merged(map[], xs);
            ParseRequest(style, text + x) ==
            if BadHead(xs) then Bad else Ok(Request(verb, url, h[HOST], h, body), |text|)
  {
    var t, head := RequestText(verb, url, xs, body) + x, HeadText(RequestLineText(verb, url), xs);
    BodyStands(head, body, x, t);
    if BadHead(xs) {
      BadHeadRefused(style, verb, url, xs, t);
    } else {
      PlainBehindHead(RequestGrammar(style), style, verb, url, xs, t, |head|,
                      Section(Merged(map[], xs), Announces(xs)), body);
    }
  }

  lemma PlainBehindHead(g: Grammar<Request>, style: LengthStyle, verb: string, url: string, xs: seq<Field>, t: string,
                        n: nat, f: Section, body: string)
    requires g == RequestGrammar(style) && verb in METHODS && Target(url) && AllWritten(xs)
    requires HeadText(RequestLineText(verb, url), xs) <= t && n == |HeadText(RequestLineText(verb, url), xs)|
    requires !BadHead(xs) && f == Section(Merged(map[], xs), Announces(xs))
    requires TRANSFER_ENCODING !in f.headers && FramedBy(f.headers, body) && OccursAt(t, body, n)
    ensures ParseRequest(style, t) == Ok(Request(verb, url, f.headers[HOST], f.headers, body), n + |body|)
  {
    RequestGrammarIs(style);
    GoodHeadRead(g, style, verb, url, xs, t, n, f);
    PlainVerdict(g, style, t, RequestLine(verb, url), f, n, body);
  }

  // ------------------------------------------------------------------ coded requests

  /** The fields of a decoded message: trailers merged with the header, Content-Length set, Transfer-Encoding and
      Trailer removed. */
  function DecodedFields(style: LengthStyle, h: Headers, k: Coding): Headers {
    Merged(h, FieldsOf(k.trailers))[CONTENT_LENGTH := LengthText(style, |Payload(k)|)] - {TRANSFER_ENCODING, TRAILER}
  }

  lemma CodedBodyRead(rules: Rules, strict: bool, style: LengthStyle, t: string, n: nat, f: Section, k: Coding)
    requires ReadAs(rules, strict) && f.chunked && TRANSFER_ENCODING in f.headers && n <= |t|
    requires forall i: nat {:trigger rules.lengthText(i)} :: rules.lengthText(i) == LengthText(style, i)
    requires LegalChunks(k) && AllNamed(k.trailers) && OccursAt(t, CodingText(k), n)
    ensures ReadBody(rules, t, n, f) ==
            if BadTrailers(strict, DropLength(f.headers), k.trailers) then Bad
            else Ok(Content(DecodedFields(style, DropLength(f.headers), k), Payload(k)), n + |CodingText(k)|)
  {
    CodedExactly(rules, strict, t, n, DropLength(f.headers), k);
    assert rules.lengthText(|Payload(k)|) == LengthText(style, |Payload(k)|);
  }

  lemma AnnouncedNamed(xs: seq<Field>)
    requires Announces(xs)
    ensures TRANSFER_ENCODING in NamesOf(xs)
  {
    var i :| 0 <= i < |xs| && xs[i].name == TRANSFER_ENCODING && xs[i].value == "chunked";
    assert ValuesOf(xs, TRANSFER_ENCODING) != [];
  }

  lemma CodedVerdict(g: Grammar<Request>, style: LengthStyle, t: string, start: StartLine, f: Section, n: nat,
                     k: Coding)
    requires g == RequestGrammar(style) && HeadIsRead(g, t, start, f, n)
    requires f.chunked && TRANSFER_ENCODING in f.headers
    requires LegalChunks(k) && AllNamed(k.trailers) && OccursAt(t, CodingText(k), n)
    ensures var h := DropLength(f.headers);
            ParseRequest(style, t) ==
            if BadTrailers(true, h, k.trailers) then Bad
            else Ok(Request(start.verb, start.url, f.headers[HOST], DecodedFields(style, h, k), Payload(k)),
                    n + |CodingText(k)|)
  {
    RequestGrammarIs(style);
    CodedBodyRead(g.rules, true, style, t, n, f, k);
    VerdictFromParts(g, style, t, n, start, f, ReadBody(g.rules, t, n, f));
  }

  lemma CodedBehindHead(style: LengthStyle, verb: string, url: string, xs: seq<Field>, t: string, n: nat, f: Section,
                        k: Coding)
    requires verb in METHODS && Target(url) && AllWritten(xs) && Announces(xs)
    requires LegalChunks(k) && AllNamed(k.trailers)
    ensures HeadFront(verb, url, xs, t, n, f) && OccursAt(t, CodingText(k), n) ==>
              ParseRequest(style, t) == CodedOutcome(style, verb, url, f.headers, k, n + |CodingText(k)|)
  {
    if HeadFront(verb, url, xs, t, n, f) && OccursAt(t, CodingText(k), n) {
      RequestGrammarIs(style);
      AnnouncedNamed(xs);
      GoodHeadRead(RequestGrammar(style), style, verb, url, xs, t, n, f);
      CodedVerdict(RequestGrammar(style), style, t, RequestLine(verb, url), f, n, k);
    }
  }

  /** The verdict on a coded request of `next` bytes behind the header fields `h`. */
  ghost function CodedOutcome(style: LengthStyle, verb: string, url: string, h: Headers, k: Coding,
                              next: nat): Scan<Request>
    requires HOST in h
  {
    if BadTrailers(true, DropLength(h), k.trailers) then Bad
    else Ok(Request(verb, url, h[HOST], DecodedFields(style, DropLength(h), k), Payload(k)), next)
  }

  /** A request in the chunked coding of the standard. Beside that it is refused if and only if one of its trailers
      frames or routes the message or has no token for a name, or a name that is no list field is given twice by header
      and trailers together. */
  lemma WrittenCodedRead(style: LengthStyle, verb: string, url: string, xs: seq<Field>, k: Coding, x: string)
    requires verb in METHODS && Target(url) && AllWritten(xs) && Announces(xs)
    requires LegalChunks(k) && AllNamed(k.trailers)
    ensures var text, h := RequestText(verb, url, xs, CodingText(k)), Merged(map[], xs);
            ParseRequest(style, text + x) ==
            if BadHead(xs) || BadTrailers(true, DropLength(h), k.trailers) then Bad
            else Ok(Request(verb, url, h[HOST], DecodedFields(style, DropLength(h), k), Payload(k)), |text|)
  {
    if BadHead(xs) {
      var t := RequestText(verb, url, xs, CodingText(k)) + x;
      BodyStands(HeadText(RequestLineText(verb, url), xs), CodingText(k), x, t);
      BadHeadRefused(style, verb, url, xs, t);
    } else {
      CodedText(style, verb, url, xs, k, x, Merged(map[], xs));
    }
  }

  lemma CodedText(style: LengthStyle, verb: string, url: string, xs: seq<Field>, k: Coding, x: string, h: Headers)
    requires verb in METHODS && Target(url) && AllWritten(xs) && Announces(xs)
    requires LegalChunks(k) && AllNamed(k.trailers) && !BadHead(xs) && h == Merged(map[], xs)
    ensures var text := RequestText(verb, url, xs, CodingText(k));
            ParseRequest(style, text + x) == CodedOutcome(style, verb, url, h, k, |text|)
  {
    FrontOf(verb, url, xs, CodingText(k), x, h);
    CodedBehindHead(style, verb, url, xs, RequestText(verb, url, xs, CodingText(k)) + x,
                    |HeadText(RequestLineText(verb, url), xs)|, Section(h, Announces(xs)), k);
  }

  lemma RefusedBodyVerdict(g: Grammar<Request>, style: LengthStyle, t: string, start: StartLine, f: Section, n: nat)
    requires g == RequestGrammar(style) && HeadIsRead(g, t, start, f, n)
    requires ReadBody(g.rules, t, n, f).Bad?
    ensures ParseRequest(style, t).Bad?
  {
    VerdictFromParts(g, style, t, n, start, f, Bad);
  }

  lemma NoLengthBad(rules: Rules, strict: bool, t: string, n: nat, f: Section)
    requires ReadAs(rules, strict) && n <= |t| && TRANSFER_ENCODING !in f.headers && CONTENT_LENGTH in f.headers
    requires BodyLength(f.headers[CONTENT_LENGTH]).None?
    ensures ReadBody(rules, t, n, f).Bad?
  {
    assert rules.bodyLength(f.headers[CONTENT_LENGTH]) == BodyLength(f.headers[CONTENT_LENGTH]);
  }

  /** A Content-Length that is no number is refused. */
  lemma NoLengthRefused(style: LengthStyle, verb: string, url: string, xs: seq<Field>, x: string)
    requires verb in METHODS && Target(url) && AllWritten(xs) && TRANSFER_ENCODING !in NamesOf(xs)
    requires CONTENT_LENGTH in NamesOf(xs) && BodyLength(Merged(map[], xs)[CONTENT_LENGTH]).None?
    ensures ParseRequest(style, RequestText(verb, url, xs, x)).Bad?
  {
    var t, head := RequestText(verb, url, xs, x), HeadText(RequestLineText(verb, url), xs);
    if BadHead(xs) {
      BadHeadRefused(style, verb, url, xs, t);
    } else {
      var f := Section(Merged(map[], xs), Announces(xs));
      RequestGrammarIs(style);
      GoodHeadRead(RequestGrammar(style), style, verb, url, xs, t, |head|, f);
      NoLengthBad(RequestGrammar(style).rules, true, t, |head|, f);
      RefusedBodyVerdict(RequestGrammar(style), style, t, RequestLine(verb, url), f, |head|);
    }
  }

  lemma OtherCodingVerdict(g: Grammar<Request>, style: LengthStyle, t: string, start: StartLine, f: Section, n: nat)
    requires g == RequestGrammar(style) && HeadIsRead(g, t, start, f, n)
    requires !f.chunked && TRANSFER_ENCODING in f.headers
    ensures ParseRequest(style, t).Bad?
  {
    RequestGrammarIs(style);
    VerdictFromParts(g, style, t, n, start, f, Bad);
  }

  /** A Transfer-Encoding that does not announce the chunked coding is refused. */
  lemma OtherCodingRefused(style: LengthStyle, verb: string, url: string, xs: seq<Field>, x: string)
    requires verb in METHODS && Target(url) && AllWritten(xs)
    requires TRANSFER_ENCODING in NamesOf(xs) && !Announces(xs)
    ensures ParseRequest(style, RequestText(verb, url, xs, x)).Bad?
  {
    var t, head := RequestText(verb, url, xs, x), HeadText(RequestLineText(verb, url), xs);
    if BadHead(xs) {
      BadHeadRefused(style, verb, url, xs, t);
    } else {
      var f := Section(Merged(map[], xs), Announces(xs));
      RequestGrammarIs(style);
      GoodHeadRead(RequestGrammar(style), style, verb, url, xs, t, |head|, f);
      OtherCodingVerdict(RequestGrammar(style), style, t, RequestLine(verb, url), f, |head|);
    }
  }
}
