/** Responses as origins write them, and what the parser makes of them. */
module WrittenResponses {
  import opened Strings
  import opened Numbers
  import opened Fields
  import opened Framing
  import opened Messages
  import opened Scanning
  import opened Responses
  import opened RoundTrip
  import opened Repetition
  import opened Wire
  import opened StandardCoding
  import opened WrittenTrailers
  import opened WrittenRequests

  // ------------------------------------------------------------------ the status line

  /** A run of characters without white space. */
  predicate Word(s: string) {
    s != "" && forall c :: c in s ==> c != ' ' && !(9 <= c as int <= 13)
  }

  /** Version, code and reason; the reason may be empty and may hold spaces, but not in front. */
  predicate StatusParts(version: string, code: string, reason: string) {
    Word(version) && HTTP <= version && Word(code) && LF !in reason && (reason == "" || reason[0] != ' ')
  }

  function StatusText(version: string, code: string, reason: string): string {
    version + " " + code + " " + reason
  }

  lemma {:induction false} WordEnds(w: string, rest: string)
    requires (forall c :: c in w ==> c != ' ' && !(9 <= c as int <= 13)) && rest != "" && rest[0] == ' '
    ensures WordLength(w + rest) == |w|
    decreases |w|
  {
    if w == "" {
      assert w + rest == rest;
    } else {
      assert w[0] in w && forall c :: c in w[1..] ==> c in w;
      assert (w + rest)[1..] == w[1..] + rest;
      WordEnds(w[1..], rest);
    }
  }

  lemma WordInFront(w: string, rest: string, s: string)
    requires Word(w) && rest != "" && rest[0] == ' ' && s == w + rest
    ensures SkipSpace(s) == s && SkipSpace(" " + s) == s
    ensures WordLength(s) == |w| && s[..|w|] == w && s[|w|..] == rest
  {
    assert w[0] in w && s[0] == w[0];
    assert (" " + s)[1..] == s;
    WordEnds(w, rest);
  }

  lemma ReasonInFront(reason: string)
    requires reason == "" || reason[0] != ' '
    ensures SkipSpaces(" " + reason + [CR]) == reason + [CR]
  {
    var s := " " + reason + [CR];
    assert s[1..] == reason + [CR];
  }

  /** `StatusOf` from its parts. */
  lemma StatusFromParts(line: string, a: string, b: string, m: nat, n: nat, message: string)
    requires a == SkipSpace(line) && m == WordLength(a) && b == SkipSpace(a[m..]) && n == WordLength(b)
    requires message == SkipSpaces(b[n..])
    ensures StatusOf(line) == DropCr(a[..m] + " " + b[..n] + " " + message)
  {
  }

  lemma StatusWords(line: string, version: string, rest: string, code: string, tail: string, message: string)
    requires Word(version) && Word(code) && tail != "" && tail[0] == ' '
    requires line == version + (" " + rest) && rest == code + tail && message == SkipSpaces(tail)
    ensures StatusOf(line) == DropCr(version + " " + code + " " + message)
  {
    WordInFront(version, " " + rest, line);
    WordInFront(code, tail, rest);
    StatusFromParts(line, line, rest, |version|, |code|, message);
  }

  /** The status line is read as it is written. */
  lemma StatusRead(version: string, code: string, reason: string, line: string)
    requires StatusParts(version, code, reason) && line == StatusText(version, code, reason) + [CR]
    ensures StatusOf(line) == StatusText(version, code, reason)
  {
    var tail := " " + reason + [CR];
    assert line == version + (" " + (code + tail));
    ReasonInFront(reason);
    StatusWords(line, version, code + tail, code, tail, reason + [CR]);
    LineOfParts(version, code, reason, line);
  }

  lemma LineOfParts(version: string, code: string, reason: string, line: string)
    requires line == StatusText(version, code, reason) + [CR]
    ensures version + " " + code + " " + (reason + [CR]) == line
    ensures line != "" && line[|line| - 1] == CR && line[..|line| - 1] == StatusText(version, code, reason)
  {
  }

  lemma StatusClean(version: string, code: string, reason: string)
    requires StatusParts(version, code, reason)
    ensures LF !in StatusText(version, code, reason)
  {
  }

  // ------------------------------------------------------------------ heads

  lemma ResponseFront(status: string, xs: seq<Field>, t: string)
    requires HTTP <= status && HeadText(status, xs) <= t
    ensures WordStart(RESPONSE_WORDS, t) == Some(0)
  {
    assert t[..4] == HTTP;
    assert HTTP in RESPONSE_WORDS && OccursAt(t, HTTP, 0);
    assert WordAt(RESPONSE_WORDS, t, 0);
    WordStartIs(RESPONSE_WORDS, t, 0);
  }

  /** The head of `t` has been read as the status line and `f`, up to `n`. */
  ghost predicate StatusIsRead(g: Grammar<Response>, t: string, status: string, f: Section, n: nat) {
    n <= |t| && ReadHead(g, t) == Ok(Head(StatusLine(status), f), n)
  }

  lemma ResponseHead(g: Grammar<Response>, style: LengthStyle, version: string, code: string, reason: string,
                     xs: seq<Field>, t: string, n: nat)
    requires IsResponseGrammar(g, style) && StatusParts(version, code, reason) && AllWritten(xs)
    requires HeadText(StatusText(version, code, reason), xs) <= t
    requires n == |HeadText(StatusText(version, code, reason), xs)|
    ensures Find(t, CRLFCRLF, 0).Some?
    ensures if xs == [] || Repeats(map[], xs) then ReadHead(g, t).Bad?
            else StatusIsRead(g, t, StatusText(version, code, reason), Section(Merged(map[], xs), Announces(xs)), n)
  {
    var status := StatusText(version, code, reason);
    StatusClean(version, code, reason);
    StatusRead(version, code, reason, status + [CR]);
    assert g.startLine(status + [CR]) == Some(StatusLine(StatusOf(status + [CR])));
    if xs == [] {
      EmptyHeadRefused(g, status, t);
    } else {
      HeadStands(status, xs, t, n);
      HeadRead(g, false, status, StatusLine(status), xs, t);
      assert g.accept(Merged(map[], xs));
    }
  }

  // ------------------------------------------------------------------ verdicts

  ghost function ParseResponse(style: LengthStyle, b: string): Scan<Response> {
    Verdict(ResponseScanner(style), b)
  }

  lemma ResponseVerdict(g: Grammar<Response>, style: LengthStyle, t: string)
    requires g == ResponseGrammar(style) && WordStart(RESPONSE_WORDS, t) == Some(0) && Find(t, CRLFCRLF, 0).Some?
    ensures ParseResponse(style, t) == ReadMessage(g, t)
  {
    assert t[0..] == t;
    assert ResponseScanner(style).message(t) == ReadMessage(g, t);
  }

  /** A response, unless its max-age cannot be read. */
  ghost function Judged(status: string, h: Headers, body: string, next: nat): Scan<Response> {
    if MaxAgeRaises(h) then Raise else Ok(Response(status, h, body), next)
  }

  lemma ResponseFromParts(g: Grammar<Response>, style: LengthStyle, t: string, status: string, f: Section, n: nat,
                          body: Scan<Content>)
    requires IsResponseGrammar(g, style) && StatusIsRead(g, t, status, f, n)
    requires ReadBody(g.rules, t, n, f) == body && (body.Ok? || body.Bad?)
    ensures ReadMessage(g, t) ==
            match body case Ok(c, next) => Judged(status, c.headers, c.body, next) case _ => Bad
  {
    if body.Ok? {
      assert g.finish(StatusLine(status), f.headers, body.value) == FinishResponse(StatusLine(status), body.value);
    }
  }

  lemma PlainResponse(g: Grammar<Response>, style: LengthStyle, t: string, status: string, f: Section, n: nat,
                      body: string)
    requires IsResponseGrammar(g, style) && StatusIsRead(g, t, status, f, n)
    requires TRANSFER_ENCODING !in f.headers && FramedBy(f.headers, body) && OccursAt(t, body, n)
    ensures ReadMessage(g, t) == Judged(status, f.headers, body, n + |body|)
  {
    FramedBodyRead(g.rules, false, t, n, f, f.headers, body);
    ResponseFromParts(g, style, t, status, f, n, Ok(Content(f.headers, body), n + |body|));
  }

  lemma CodedResponse(g: Grammar<Response>, style: LengthStyle, t: string, status: string, f: Section, n: nat,
                      k: Coding)
    requires IsResponseGrammar(g, style) && StatusIsRead(g, t, status, f, n)
    requires f.chunked && TRANSFER_ENCODING in f.headers
    requires LegalChunks(k) && AllNamed(k.trailers) && OccursAt(t, CodingText(k), n)
    ensures var h := DropLength(f.headers);
            ReadMessage(g, t) ==
            if BadTrailers(false, h, k.trailers) then Bad
            else Judged(status, DecodedFields(style, h, k), Payload(k), n + |CodingText(k)|)
  {
    CodedBodyRead(g.rules, false, style, t, n, f, k);
    ResponseFromParts(g, style, t, status, f, n, ReadBody(g.rules, t, n, f));
  }

  // ------------------------------------------------------------------ the theorems

  function ResponseText(version: string, code: string, reason: string, xs: seq<Field>, body: string): string {
    HeadText(StatusText(version, code, reason), xs) + body
  }

  /** The head is refused: there is no field at all, or a name that is no list field is repeated. */
  ghost predicate BadFields(xs: seq<Field>) {
    xs == [] || Repeats(map[], xs)
  }

  lemma BadFieldsRefused(style: LengthStyle, version: string, code: string, reason: string, xs: seq<Field>, t: string)
    requires StatusParts(version, code, reason) && AllWritten(xs) && BadFields(xs)
    requires HeadText(StatusText(version, code, reason), xs) <= t
    ensures ParseResponse(style, t).Bad?
  {
    var n := |HeadText(StatusText(version, code, reason), xs)|;
    ResponseGrammarIs(style);
    ResponseHead(ResponseGrammar(style), style, version, code, reason, xs, t, n);
    ResponseFront(StatusText(version, code, reason), xs, t);
    ResponseVerdict(ResponseGrammar(style), style, t);
  }

  /** The head of a response stands at the front of `t`, with fields that can be merged. */
  ghost predicate StatusFront(version: string, code: string, reason: string, xs: seq<Field>, t: string, n: nat,
                              f: Section) {
    && HeadText(StatusText(version, code, reason), xs) <= t && n == |HeadText(StatusText(version, code, reason), xs)|
    && !BadFields(xs) && f == Section(Merged(map[], xs), Announces(xs))
  }

  lemma StatusFrontOf(version: string, code: string, reason: string, xs: seq<Field>, body: string, x: string,
                      h: Headers)
    requires !BadFields(xs) && h == Merged(map[], xs)
    ensures var text, n := ResponseText(version, code, reason, xs, body),
                           |HeadText(StatusText(version, code, reason), xs)|;
            && StatusFront(version, code, reason, xs, text + x, n, Section(h, Announces(xs)))
            && OccursAt(text + x, body, n) && |text| == n + |body|
  {
    var text := ResponseText(version, code, reason, xs, body);
    BodyStands(HeadText(StatusText(version, code, reason), xs), body, x, text + x);
  }

  /** What such a head is read as. */
  lemma GoodFieldsRead(style: LengthStyle, version: string, code: string, reason: string, xs: seq<Field>, t: string,
                       n: nat, f: Section)
    requires StatusParts(version, code, reason) && AllWritten(xs) && StatusFront(version, code, reason, xs, t, n, f)
    ensures IsResponseGrammar(ResponseGrammar(style), style)
    ensures StatusIsRead(ResponseGrammar(style), t, StatusText(version, code, reason), f, n)
    ensures ParseResponse(style, t) == ReadMessage(ResponseGrammar(style), t)
  {
    ResponseGrammarIs(style);
    ResponseHead(ResponseGrammar(style), style, version, code, reason, xs, t, n);
    ResponseFront(StatusText(version, code, reason), xs, t);
    ResponseVerdict(ResponseGrammar(style), style, t);
  }

  lemma PlainBehindStatus(style: LengthStyle, version: string, code: string, reason: string, xs: seq<Field>,
                          t: string, n: nat, h: Headers, body: string, next: nat)
    requires StatusParts(version, code, reason) && AllWritten(xs)
    requires TRANSFER_ENCODING !in h && FramedBy(h, body)
    ensures StatusFront(version, code, reason, xs, t, n, Section(h, Announces(xs)))
            && OccursAt(t, body, n) && next == n + |body| ==>
              ParseResponse(style, t) == Judged(StatusText(version, code, reason), h, body, next)
  {
    var f := Section(h, Announces(xs));
    if StatusFront(version, code, reason, xs, t, n, f) && OccursAt(t, body, n) {
      GoodFieldsRead(style, version, code, reason, xs, t, n, f);
      PlainResponse(ResponseGrammar(style), style, t, StatusText(version, code, reason), f, n, body);
    }
  }

  /** The verdict on a coded response of `next` bytes behind the header fields `h`. */
  ghost function CodedReply(style: LengthStyle, status: string, h: Headers, k: Coding, next: nat): Scan<Response> {
    if BadTrailers(false, DropLength(h), k.trailers) then Bad
    else Judged(status, DecodedFields(style, DropLength(h), k), Payload(k), next)
  }

  /** `coding` is the text of a legal coding that the fields announce. */
  ghost predicate CodedAs(xs: seq<Field>, k: Coding, coding: string) {
    Announces(xs) && LegalChunks(k) && AllNamed(k.trailers) && coding == CodingText(k)
  }

  lemma CodedBehindStatus(style: LengthStyle, version: string, code: string, reason: string, xs: seq<Field>,
                          t: string, n: nat, h: Headers, k: Coding, coding: string, next: nat)
    requires StatusParts(version, code, reason) && AllWritten(xs)
    ensures StatusFront(version, code, reason, xs, t, n, Section(h, Announces(xs)))
            && CodedAs(xs, k, coding) && OccursAt(t, coding, n) && next == n + |coding| ==>
              ParseResponse(style, t) == CodedReply(style, StatusText(version, code, reason), h, k, next)
  {
    var f := Section(h, Announces(xs));
    if StatusFront(version, code, reason, xs, t, n, f) && CodedAs(xs, k, coding) && OccursAt(t, coding, n) {
      AnnouncedNamed(xs);
      GoodFieldsRead(style, version, code, reason, xs, t, n, f);
      CodedResponse(ResponseGrammar(style), style, t, StatusText(version, code, reason), f, n, k);
    }
  }

  lemma BadResponseText(style: LengthStyle, version: string, code: string, reason: string, xs: seq<Field>,
                        body: string, x: string)
    requires StatusParts(version, code, reason) && AllWritten(xs) && BadFields(xs)
    ensures ParseResponse(style, ResponseText(version, code, reason, xs, body) + x).Bad?
  {
    var t := ResponseText(version, code, reason, xs, body) + x;
    BodyStands(HeadText(StatusText(version, code, reason), xs), body, x, t);
    BadFieldsRefused(style, version, code, reason, xs, t);
  }

  lemma PlainResponseText(style: LengthStyle, version: string, code: string, reason: string, xs: seq<Field>,
                          body: string, x: string, h: Headers, t: string, next: nat)
    requires StatusParts(version, code, reason) && AllWritten(xs) && !BadFields(xs) && h == Merged(map[], xs)
    requires TRANSFER_ENCODING !in h && FramedBy(h, body)
    requires t == ResponseText(version, code, reason, xs, body) + x
    requires next == |ResponseText(version, code, reason, xs, body)|
    ensures ParseResponse(style, t) == Judged(StatusText(version, code, reason), h, body, next)
  {
    StatusFrontOf(version, code, reason, xs, body, x, h);
    PlainBehindStatus(style, version, code, reason, xs, t, |HeadText(StatusText(version, code, reason), xs)|, h, body,
                      next);
  }

  lemma CodedResponseText(style: LengthStyle, version: string, code: string, reason: string, xs: seq<Field>,
                          k: Coding, coding: string, x: string, h: Headers, t: string, next: nat)
    requires StatusParts(version, code, reason) && AllWritten(xs) && !BadFields(xs) && h == Merged(map[], xs)
    requires t == ResponseText(version, code, reason, xs, coding) + x
    requires next == |ResponseText(version, code, reason, xs, coding)|
    ensures CodedAs(xs, k, coding) ==>
              ParseResponse(style, t) == CodedReply(style, StatusText(version, code, reason), h, k, next)
  {
    StatusFrontOf(version, code, reason, xs, coding, x, h);
    CodedBehindStatus(style, version, code, reason, xs, t, |HeadText(StatusText(version, code, reason), xs)|, h, k,
                      coding, next);
  }

  /** A response without a coding, as it is written and followed by any bytes: status line, merged fields and body are
      read as they stand there, and exactly its bytes are consumed. */
  lemma WrittenResponseRead(style: LengthStyle, version: string, code: string, reason: string, xs: seq<Field>,
                            body: string, x: string)
    requires StatusParts(version, code, reason) && AllWritten(xs) && TRANSFER_ENCODING !in NamesOf(xs)
    requires FramedBy(Merged(map[], xs), body)
    ensures var text := ResponseText(version, code, reason, xs, body);
            ParseResponse(style, text + x) ==
            if BadFields(xs) then Bad
            else Judged(version + " " + code + " " + reason, Merged(map[], xs), body, |text|)
  {
    if BadFields(xs) {
      BadResponseText(style, version, code, reason, xs, body, x);
    } else {
      var text := ResponseText(version, code, reason, xs, body);
      PlainResponseText(style, version, code, reason, xs, body, x, Merged(map[], xs), text + x, |text|);
    }
  }

  /** A response in the chunked coding of the standard: its payload, and its trailers merged with its fields. */
  lemma WrittenCodedResponseRead(style: LengthStyle, version: string, code: string, reason: string, xs: seq<Field>,
                                 k: Coding, x: string)
    requires StatusParts(version, code, reason) && AllWritten(xs) && Announces(xs)
    requires LegalChunks(k) && AllNamed(k.trailers)
    ensures var text, h := ResponseText(version, code, reason, xs, CodingText(k)), DropLength(Merged(map[], xs));
            ParseResponse(style, text + x) ==
            if BadFields(xs) || BadTrailers(false, h, k.trailers) then Bad
            else Judged(version + " " + code + " " + reason, DecodedFields(style, h, k), Payload(k), |text|)
  {
    if BadFields(xs) {
      BadResponseText(style, version, code, reason, xs, CodingText(k), x);
    } else {
      var text := ResponseText(version, code, reason, xs, CodingText(k));
      CodedResponseText(style, version, code, reason, xs, k, CodingText(k), x, Merged(map[], xs), text + x, |text|);
    }
  }

  // ------------------------------------------------------------------ serialised responses

  function SerializeResponse(r: Response, order: seq<string>): string
    requires forall k :: k in order ==> k in r.headers
  {
    r.statusLine + CRLF + FieldLines(r.headers, order) + CRLF + r.body
  }

  /** The fields of `h` as `serialize` writes them. */
  function InOrder(h: Headers, order: seq<string>): (xs: seq<Field>)
    requires forall k :: k in order ==> k in h
    ensures |xs| == |order| && forall i :: 0 <= i < |order| ==> xs[i] == Field(order[i], " ", h[order[i]], "")
  {
    seq(|order|, i requires 0 <= i < |order| => Field(order[i], " ", h[order[i]], ""))
  }

  lemma {:induction false} InOrderText(h: Headers, order: seq<string>)
    requires forall k :: k in order ==> k in h
    ensures FieldsText(InOrder(h, order)) == FieldLines(h, order)
    decreases |order|
  {
    if order == [] { return; }
    InOrderText(h, order[1..]);
    assert InOrder(h, order)[1..] == InOrder(h, order[1..]);
    assert LineText(InOrder(h, order)[0]) + CRLF == FieldLine(order[0], h[order[0]]);
  }

  lemma {:induction false} InOrderValues(h: Headers, order: seq<string>, name: string)
    requires forall k :: k in order ==> k in h
    requires forall i, j :: 0 <= i < j < |order| ==> order[i] != order[j]
    ensures ValuesOf(InOrder(h, order), name) == if name in order then [h[name]] else []
    decreases |order|
  {
    if order == [] { return; }
    InOrderValues(h, order[1..], name);
    assert InOrder(h, order)[1..] == InOrder(h, order[1..]);
    assert name in order <==> name == order[0] || name in order[1..];
  }

  lemma InOrderMerged(h: Headers, order: seq<string>)
    requires OrderOf(order, h)
    ensures Merged(map[], InOrder(h, order)) == h && NamesOf(InOrder(h, order)) == h.Keys
    ensures !Repeats(map[], InOrder(h, order))
  {
    forall name
      ensures ValuesOf(InOrder(h, order), name) == if name in h then [h[name]] else []
    {
      InOrderValues(h, order, name);
    }
    assert GivesOnce(InOrder(h, order), h);
    MergedOnce(map[], InOrder(h, order), h);
  }

  /** Names have no colon, values are trimmed, and neither has a line end. */
  ghost predicate PlainFields(h: Headers) {
    forall k :: k in h ==> LineName(k) && LF !in h[k] && IsTrimmed(h[k])
  }

  lemma InOrderWritten(h: Headers, order: seq<string>)
    requires PlainFields(h) && OrderOf(order, h)
    ensures AllWritten(InOrder(h, order))
  {
    forall i | 0 <= i < |order|
      ensures WellWritten(InOrder(h, order)[i])
    {
      var v := h[order[i]];
      assert order[i] in order;
      if v != "" {
        assert v[0] in v[..1] && v[|v| - 1] in v[|v| - 1..];
      }
    }
  }

  /** Responses survive being written and read: the verdict on the text, whatever the order of the fields and whatever
      follows it, is that response, and exactly the text is consumed. Without any field it is refused, and a max-age
      that cannot be read makes the parser throw. */
  lemma SerializedResponseRead(style: LengthStyle, version: string, code: string, reason: string, r: Response,
                               order: seq<string>, x: string)
    requires StatusParts(version, code, reason) && r.statusLine == version + " " + code + " " + reason
    requires PlainFields(r.headers) && OrderOf(order, r.headers) && TRANSFER_ENCODING !in r.headers
    requires FramedBy(r.headers, r.body)
    ensures ParseResponse(style, SerializeResponse(r, order) + x) ==
            if r.headers == map[] then Bad
            else if MaxAgeRaises(r.headers) then Raise
            else Ok(r, |SerializeResponse(r, order)|)
  {
    var xs := InOrder(r.headers, order);
    InOrderText(r.headers, order);
    InOrderMerged(r.headers, order);
    InOrderWritten(r.headers, order);
    WrittenResponseRead(style, version, code, reason, xs, r.body, x);
    assert xs == [] <==> r.headers == map[] by {
      assert order == [] ==> r.headers.Keys == {};
      assert order != [] ==> order[0] in order;
    }
  }
}
