/** Messages at which laws of the parsers fail: requests that do not survive normalisation, and a response that two cuts
    of one stream do not answer alike. */
module Examples {
  import opened Strings
  import opened Numbers
  import opened Fields
  import opened Framing
  import opened Messages
  import opened Scanning
  import opened Requests
  import opened Responses
  import opened RoundTrip
  import opened Normalisation
  import opened Chunked
  import opened StandardCoding
  import opened ClientStream
  import opened Upstream

  /** A GET of "/" with one more field than Host. */
  function GetWith(field: string, value: string, body: string): Request {
    Request(GET, "/", "a", map[HOST := "a", field := value], body)
  }

  function GetText(field: string, value: string, body: string): string {
    "GET / HTTP/1.1\r\n" + "Host: a\r\n" + (field + ": " + value + CRLF) + CRLF + body
  }

  lemma GetWithShaped(field: string, value: string, body: string, r: Request, order: seq<string>)
    requires ValidName(field) && field != HOST && NoCrlf(value) && LF !in value && IsTrimmed(value)
    requires r == GetWith(field, value, body) && order == [HOST, field]
    ensures ShapedHead(r) && NoLineFeed(r.headers) && AllTrimmed(r.headers) && OrderOf(order, r.headers)
  {
    assert ShapedFields(r.headers);
    assert Trim("a") == "a";
  }

  lemma GetWithText(field: string, value: string, body: string, r: Request, order: seq<string>)
    requires field != HOST && r == GetWith(field, value, body) && order == [HOST, field]
    ensures Serialize(r, order) == GetText(field, value, body) && HeadLength(r, order) == 31 + |field| + |value|
  {
    assert StartText(r) == "GET / HTTP/1.1\r\n";
    assert FieldLine(HOST, "a") == "Host: a\r\n";
    TwoFields(r.headers, order);
  }

  lemma TwoFields(h: Headers, order: seq<string>)
    requires |order| == 2 && order[0] in h && order[1] in h
    ensures FieldLines(h, order) == FieldLine(order[0], h[order[0]]) + FieldLine(order[1], h[order[1]])
  {
    assert order[1..][1..] == [] && order[1..][0] == order[1];
    assert FieldLines(h, order[1..]) == FieldLine(order[1], h[order[1]]) + FieldLines(h, order[1..][1..]);
  }

  // ------------------------------------------------------------------ normalisation

  /** As the code stores the length, no request with a coding of the standard survives. */
  lemma CodedIsLost(r: Request, order: seq<string>, k: Coding, x: string, again: seq<string>)
    requires Carries(r, k) && OrderOf(order, r.headers) && OrderOf(again, Decoded(OneChar, r, k).headers)
    ensures ParseRequest(OneChar, Serialize(r, order) + x) == Ok(Decoded(OneChar, r, k), |Serialize(r, order)|)
    ensures !Idempotent(OneChar, Decoded(OneChar, r, k), again)
  {
    StandardRequestRead(OneChar, r, order, k, x);
    StoredLength(OneChar, |Payload(k)|);
    NormalisationExact(OneChar, Serialize(r, order) + x, again);
  }

  /** Neither does one with a bare LF in a trailer, whatever the length style. */
  lemma LineFeedIsLost(style: LengthStyle, r: Request, order: seq<string>, k: Coding, name: string, again: seq<string>)
    requires Carries(r, k) && OrderOf(order, r.headers) && OrderOf(again, Decoded(style, r, k).headers)
    requires name in Decoded(style, r, k).headers && LF in Decoded(style, r, k).headers[name]
    ensures ParseRequest(style, Serialize(r, order)) == Ok(Decoded(style, r, k), |Serialize(r, order)|)
    ensures !Idempotent(style, Decoded(style, r, k), again)
  {
    StandardRequestRead(style, r, order, k, "");
    assert Serialize(r, order) + "" == Serialize(r, order);
    NormalisationExact(style, Serialize(r, order), again);
  }

  /** A coding without data and with one trailer. */
  function OneTrailer(name: string, raw: string): Coding {
    Coding([], "0", "", [Trailer(name, raw)])
  }

  lemma OneTrailerText(name: string, raw: string, k: Coding)
    requires k == OneTrailer(name, raw)
    ensures CodingText(k) == "0\r\n" + (name + ":" + raw + "\r\n\r\n")
  {
    assert Chunks(k.pieces) == [];
    assert k.trailers[1..] == [];
    assert Text([]) == "" && TrailersText([]) == "";
    assert TrailersText(k.trailers) == TrailerText(k.trailers[0]) + TrailersText(k.trailers[1..]);
  }

  lemma OneTrailerLegal(h: Headers, name: string, raw: string, k: Coding)
    requires ValidName(name) && !ForbiddenInTrailer(name) && name !in h && NoCrlf(raw) && k == OneTrailer(name, raw)
    ensures Legal(h, k) && JoinAll(h, k.trailers) == h[name := Trim(raw)] && Payload(k) == ""
  {
    ValueOfOneDigit('0', 16);
    assert k.trailers[1..] == [] && Chunks(k.pieces) == [];
    assert LegalTrailer(h, k.trailers[0]);
    assert Joined(h, k.trailers[0]) == h[name := Trim(raw)];
  }

  /** A GET with that coding, and what it is accepted as. */
  function SentWith(name: string, raw: string): string {
    GetText(TRANSFER_ENCODING, "chunked", "0\r\n" + (name + ":" + raw + "\r\n\r\n"))
  }

  function GotWith(style: LengthStyle, name: string, raw: string): Request {
    Request(GET, "/", "a", map[HOST := "a", CONTENT_LENGTH := LengthText(style, 0), name := raw], "")
  }

  lemma SaysIt(coding: string, r: Request)
    requires coding == "chunked" && r == GetWith(TRANSFER_ENCODING, coding, r.body)
    ensures SaysChunked(r.headers) && DropLength(r.headers) == r.headers
  {
    TrimTrimmed(coding);
  }

  lemma CarriesTrailer(coding: string, name: string, raw: string, k: Coding, r: Request, order: seq<string>)
    requires coding == "chunked" && ValidName(name) && !ForbiddenInTrailer(name) && NoCrlf(raw) && IsTrimmed(raw)
    requires k == OneTrailer(name, raw) && order == [HOST, TRANSFER_ENCODING]
    requires r == GetWith(TRANSFER_ENCODING, coding, r.body) && r.body == CodingText(k)
    requires name !in r.headers
    ensures Carries(r, k) && OrderOf(order, r.headers)
    ensures JoinAll(r.headers, k.trailers) == r.headers[name := raw] && Payload(k) == ""
  {
    SaysIt(coding, r);
    GetWithShaped(TRANSFER_ENCODING, coding, r.body, r, order);
    TrimTrimmed(raw);
    OneTrailerLegal(r.headers, name, raw, k);
  }

  lemma SentText(name: string, raw: string, k: Coding, r: Request, order: seq<string>)
    requires k == OneTrailer(name, raw) && order == [HOST, TRANSFER_ENCODING]
    requires r == GetWith(TRANSFER_ENCODING, "chunked", CodingText(k))
    ensures Serialize(r, order) == SentWith(name, raw)
  {
    OneTrailerText(name, raw, k);
    GetWithText(TRANSFER_ENCODING, "chunked", CodingText(k), r, order);
  }

  lemma TrailerLost(style: LengthStyle, name: string, raw: string, again: seq<string>)
    requires ValidName(name) && !ForbiddenInTrailer(name) && NoCrlf(raw) && IsTrimmed(raw) && LF in raw
    requires OrderOf(again, GotWith(style, name, raw).headers)
    ensures ParseRequest(style, SentWith(name, raw)) == Ok(GotWith(style, name, raw), |SentWith(name, raw)|)
    ensures !Idempotent(style, GotWith(style, name, raw), again)
  {
    var k, order := OneTrailer(name, raw), [HOST, TRANSFER_ENCODING];
    var r := GetWith(TRANSFER_ENCODING, "chunked", CodingText(k));
    CarriesTrailer("chunked", name, raw, k, r, order);
    SentText(name, raw, k, r, order);
    OneTrailerDecoded(style, r, k, name, raw);
    LineFeedIsLost(style, r, order, k, name, again);
  }

  /** A GET whose only trailer holds a bare LF is accepted with it and does not survive, even with the decimal
      length. */
  lemma BareLineFeed(style: LengthStyle, raw: string, again: seq<string>)
    requires raw == "a\nb" && OrderOf(again, GotWith(style, "X", raw).headers)
    ensures ParseRequest(style, SentWith("X", raw)) == Ok(GotWith(style, "X", raw), |SentWith("X", raw)|)
    ensures !Idempotent(style, GotWith(style, "X", raw), again)
  {
    assert raw[1] == LF;
    TrailerLost(style, "X", raw, again);
  }

  lemma OneTrailerDecoded(style: LengthStyle, r: Request, k: Coding, name: string, raw: string)
    requires name != HOST && !ForbiddenInTrailer(name)
    requires r.headers == map[HOST := "a", TRANSFER_ENCODING := "chunked"] && Payload(k) == ""
    requires JoinAll(r.headers, k.trailers) == r.headers[name := raw]
    ensures Decoded(style, r, k).headers == map[HOST := "a", CONTENT_LENGTH := LengthText(style, 0), name := raw]
  {
    assert DropLength(r.headers) == r.headers;
    HeadersWithTrailer("chunked", LengthText(style, 0), name, raw);
  }

  lemma HeadersWithTrailer(coding: string, length: string, name: string, raw: string)
    requires name != HOST && !ForbiddenInTrailer(name)
    ensures var h := map[HOST := "a", TRANSFER_ENCODING := coding];
            h[name := raw][CONTENT_LENGTH := length] - {TRANSFER_ENCODING, TRAILER} ==
            map[HOST := "a", CONTENT_LENGTH := length, name := raw]
  {
  }

  // ------------------------------------------------------------------ the receive loop of the upstream

  const OK_LINE: string := "HTTP/1.1 200 OK"

  /** A response with one field and no body. */
  function OkText(name: string, value: string): string {
    OK_LINE + CRLF + FieldLine(name, value) + CRLF
  }

  lemma OkLineIs(first: string)
    requires first == OK_LINE + CRLF
    ensures Tight(first) && |first| == 17 && first[15] == CR && first[16] == LF && OccursAt(first, HTTP, 0)
    ensures forall j :: 0 <= j < 16 ==> first[j] != LF
  {
    assert forall j :: 0 <= j < 15 ==> first[j] != CR && first[j] != LF;
  }

  lemma OkTight(first: string, line: string, name: string, value: string)
    requires ValidName(name) && NoCrlf(value) && first == OK_LINE + CRLF && line == FieldLine(name, value)
    ensures Tight(first + line) && |first + line| == 17 + |line| && |line| > 2
    ensures line[|line| - 2] == CR && line[|line| - 1] == LF
  {
    OkLineIs(first);
    FieldLineTight(name, value);
    TightConcat(first, line);
  }

  lemma OkLaidOut(name: string, value: string, t: string)
    requires ValidName(name) && NoCrlf(value) && t == OkText(name, value)
    ensures Find(t, [LF], 0) == Some(16) && Find(t, CRLFCRLF, 0) == Some(|t| - 4)
    ensures OccursAt(t, FieldLine(name, value), 17) && |t| == 19 + |FieldLine(name, value)| && t[|t| - 3] == LF
  {
    var first, line := OK_LINE + CRLF, FieldLine(name, value);
    var head := first + line;
    OkTight(first, line, name, value);
    assert t == head + CRLF + "";
    PartsOccur(t, first, line, "");
    OkLineIs(first);
    FirstLfOf(t, first);
    assert head[|head| - 2] == line[|line| - 2] && head[|head| - 1] == line[|line| - 1];
    assert t[|t| - 3] == head[|head| - 1];
    BlankLineBehind(t, head);
  }

  lemma OkStarts(name: string, value: string, t: string)
    requires t == OkText(name, value)
    ensures WordStart(RESPONSE_WORDS, t) == Some(0)
  {
    assert t[..4] == HTTP;
    assert HTTP in RESPONSE_WORDS && OccursAt(t, HTTP, 0);
    WordStartIs(RESPONSE_WORDS, t, 0);
  }

  lemma LooseLine(f: Section, line: string)
    requires AddLine(true, f, line).Some?
    ensures AddLine(false, f, line) == AddLine(true, f, line)
  {
  }

  lemma OkFields(rules: Rules, name: string, value: string, t: string)
    requires ReadAs(rules, false) && ValidName(name) && NoCrlf(value) && LF !in value && t == OkText(name, value)
    ensures 17 < |t| - 2 && t[|t| - 3] == LF
    ensures AddLines(rules, EMPTY_SECTION, Lines(t, 17, |t| - 2)) == Some(WithField(EMPTY_SECTION, name, value))
  {
    OkLaidOut(name, value, t);
    AddLinesStep(rules, EMPTY_SECTION, t, 17, |t| - 2);
    FirstLineOfField(t, 17, name, value, |t| - 2);
    var line := name + ": " + value + [CR];
    LineReadBack(EMPTY_SECTION, name, value);
    LooseLine(EMPTY_SECTION, line);
    assert rules.addLine(EMPTY_SECTION, line) == AddLine(false, EMPTY_SECTION, line);
  }

  lemma OkHead(g: Grammar<Response>, style: LengthStyle, name: string, value: string, t: string)
    requires IsResponseGrammar(g, style) && ValidName(name) && NoCrlf(value) && LF !in value
    requires t == OkText(name, value) && |t| >= 16
    ensures ReadHead(g, t) == Ok(Head(StatusLine(StatusOf(t[..16])), WithField(EMPTY_SECTION, name, value)), |t|)
  {
    OkLaidOut(name, value, t);
    OkFields(g.rules, name, value, t);
    ReadHeadIs(g, t, |t| - 4, 16);
    assert g.startLine(t[..16]) == Some(StatusLine(StatusOf(t[..16])));
    assert g.accept(WithField(EMPTY_SECTION, name, value).headers);
  }

  /** What is read of such a text. */
  ghost function OkResponse(name: string, value: string): Response {
    Response(StatusOf(OK_LINE + [CR]), map[name := Trim(value)], "")
  }

  lemma OkRead(g: Grammar<Response>, style: LengthStyle, name: string, value: string, t: string)
    requires IsResponseGrammar(g, style) && ValidName(name) && NoCrlf(value) && LF !in value
    requires name !in {CONTENT_LENGTH, TRANSFER_ENCODING, CACHE_CONTROL} && t == OkText(name, value)
    ensures ReadMessage(g, t) == Ok(OkResponse(name, value), |t|)
  {
    assert |t| >= 16 && t[..16] == OK_LINE + [CR];
    OkHead(g, style, name, value, t);
    var h := WithField(EMPTY_SECTION, name, value).headers;
    assert h == map[name := Trim(value)];
    var content := Content(h, "");
    var start := StatusLine(StatusOf(t[..16]));
    assert g.finish(start, h, content) == FinishResponse(start, content);
  }

  lemma WordBehindBlankLine(text: string, b: string)
    requires WordStart(RESPONSE_WORDS, text) == Some(0) && b == CRLFCRLF + text
    ensures WordStart(RESPONSE_WORDS, b) == Some(4) && b[4..] == text && Find(b, CRLFCRLF, 0) == Some(0)
  {
    assert OccursAt(text, HTTP, 0);
    assert b[4..4 + |HTTP|] == text[..|HTTP|];
    assert HTTP in RESPONSE_WORDS && OccursAt(b, HTTP, 4);
    forall j | 0 <= j < 4
      ensures !WordAt(RESPONSE_WORDS, b, j)
    {
      assert b[j] == CRLFCRLF[j];
      if OccursAt(b, HTTP, j) { OccursIndex(b, HTTP, j, 0); }
    }
    WordStartIs(RESPONSE_WORDS, b, 4);
    OccursCrlfCrlf(b, 0);
    FindIs(b, CRLFCRLF, 0, 0);
  }

  lemma NoWordAlone(b: string)
    requires b == CRLFCRLF
    ensures Find(b, CRLFCRLF, 0).Some? && WordStart(RESPONSE_WORDS, b).None?
  {
    OccursCrlfCrlf(b, 0);
    forall j
      ensures !WordAt(RESPONSE_WORDS, b, j)
    {
      if OccursAt(b, HTTP, j) { OccursIndex(b, HTTP, j, 0); }
    }
  }

  /** Two cuts of one stream of an origin that do not give the same reply: a blank line by itself is answered with 502;
      together with the response behind it, that response is passed on. */
  lemma BlankLineTwoReplies(style: LengthStyle, name: string, value: string, text: string)
    requires name == "Age" && value == "0" && text == OkText(name, value)
    ensures Join([CRLFCRLF, text]) == Join([CRLFCRLF + text])
    ensures Await(ResponseScanner(style), "", [CRLFCRLF, text]) == BadGateway
    ensures Await(ResponseScanner(style), "", [CRLFCRLF + text]) == Got(OkResponse(name, value))
  {
    ResponseGrammarIs(style);
    OkStarts(name, value, text);
    OkRead(ResponseGrammar(style), style, name, value, text);
    RepliesBehindBlankLine(ResponseScanner(style), text, OkResponse(name, value), |text|);
  }

  lemma RepliesBehindBlankLine(sc: Scanner<Response>, text: string, r: Response, n: nat)
    requires sc.words == RESPONSE_WORDS && WordStart(RESPONSE_WORDS, text) == Some(0) && sc.message(text) == Ok(r, n)
    ensures Join([CRLFCRLF, text]) == Join([CRLFCRLF + text])
    ensures Await(sc, "", [CRLFCRLF, text]) == BadGateway && Await(sc, "", [CRLFCRLF + text]) == Got(r)
  {
    var b := CRLFCRLF + text;
    WordBehindBlankLine(text, b);
    AwaitOnce(sc, b);
    NoWordAlone(CRLFCRLF);
    AwaitRefused(sc, CRLFCRLF, text);
    JoinTwo(CRLFCRLF, text);
    assert OccursAt(text, HTTP, 0) && text != "";
  }
}
