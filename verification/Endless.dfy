/** Requests on which the code does not come to an end: sums of a cursor and a declared length that wrap around 2^32. */
module Endless {
  import opened Strings
  import opened Numbers
  import opened Fields
  import opened Framing
  import opened Messages
  import opened Scanning
  import opened Requests
  import opened RoundTrip
  import opened Examples
  import opened Bounds
  import opened Words
  import opened WordStream

  // ------------------------------------------------------------------ a body that ends at 2^32

  /** The Content-Length and a head of `n` bytes add up to 2^32. */
  ghost predicate LengthEndsAtZero(h: Headers, n: nat) {
    && AllTrimmed(h) && TRANSFER_ENCODING !in h && CONTENT_LENGTH in h
    && BodyLength(h[CONTENT_LENGTH]) == Some(TWO_32 - n)
  }

  lemma HeadAtFront(g: Grammar<Request>, style: LengthStyle, r: Request, order: seq<string>, b: string)
    requires IsRequestGrammar(g, style) && ShapedHead(r) && NoLineFeed(r.headers) && OrderOf(order, r.headers)
    requires Serialize(r, order) <= b
    ensures Find(b, CRLFCRLF, 0) == Some(HeadLength(r, order) - 4) && WordStart(METHODS, b) == Some(0)
    ensures ReadHead(g, b) == Ok(Head(RequestLine(r.verb, r.url), TrimmedSection(r.headers)), HeadLength(r, order))
    ensures OccursAt(b, r.body, HeadLength(r, order))
  {
    SerializedStartsWithMethod(r, order, b);
    SerializedParts(r, order, b);
    SerializedHead(g, style, r, order, b, |StartText(r)|, HeadLength(r, order));
  }

  /** The head of `r`, read off the front of the buffer. */
  ghost predicate Heads(g: Grammar<Request>, r: Request, b: string, n: nat) {
    && Find(b, CRLFCRLF, 0).Some? && WordStart(METHODS, b) == Some(0)
    && ReadHead(g, b) == Ok(Head(RequestLine(r.verb, r.url), TrimmedSection(r.headers)), n)
  }

  lemma ZeroAtFront(g: Grammar<Request>, r: Request, b: string, n: nat)
    requires ReadAs(g.rules, true) && Heads(g, r, b, n) && LengthEndsAtZero(r.headers, n)
    ensures EndsAtZero(g, METHODS, b) && StartVerb(ReadHead(g, b).value.start) == r.verb
  {
    SameFields(r.headers);
    LengthRead(g.rules, r.headers[CONTENT_LENGTH]);
    EndsAtZeroFrom(g, b, Head(RequestLine(r.verb, r.url), TrimmedSection(r.headers)), r.headers, n);
  }

  lemma LengthRead(rules: Rules, text: string)
    requires ReadAs(rules, true)
    ensures rules.bodyLength(text) == BodyLength(text)
  {
  }

  lemma EndsAtZeroFrom(g: Grammar<Request>, b: string, head: Head, h: Headers, n: nat)
    requires Find(b, CRLFCRLF, 0).Some? && WordStart(METHODS, b) == Some(0) && ReadHead(g, b) == Ok(head, n)
    requires head.fields.headers == h && TRANSFER_ENCODING !in h && CONTENT_LENGTH in h
    requires g.rules.bodyLength(h[CONTENT_LENGTH]) == Some(TWO_32 - n)
    ensures EndsAtZero(g, METHODS, b) && ReadHead(g, b).value.start == head.start
  {
  }

  /** A request whose body ends at 2^32 is dispatched again and again, whatever follows its head. */
  lemma DispatchedForEver(style: LengthStyle, r: Request, order: seq<string>, x: string)
    requires ShapedHead(r) && NoLineFeed(r.headers) && OrderOf(order, r.headers) && r.verb != CONNECT
    requires LengthEndsAtZero(r.headers, HeadLength(r, order)) && |Serialize(r, order) + x| < TWO_31
    ensures !Ends(RequestParse(style), Serialize(r, order) + x)
  {
    var b, g := Serialize(r, order) + x, RequestGrammar(style);
    RequestGrammarIs(style);
    HeadAtFront(g, style, r, order, b);
    ZeroAtFront(g, r, b, HeadLength(r, order));
    StuckAtOnce(style, b);
  }

  /** The loop does not get over a request it is stuck at. */
  lemma StuckAtOnce(style: LengthStyle, b: string)
    requires |b| < TWO_31 && Stuck(RequestGrammar(style), b)
    ensures !Ends(RequestParse(style), b)
  {
    assert Boundary(RequestParse(style), b, 0) == Some(b);
    assert StopsAt(RequestParse(style), StuckOf(style), b, 0);
    InnerLoopEndsExactly(style, b);
  }

  // ------------------------------------------------------------------ a chunk that ends at its own header

  const FULL_TURN: string := "FFFFFFF4"

  /** The number of `k` digits F. */
  function Fs(k: nat): nat {
    if k == 0 then 0 else 16 * Fs(k - 1) + 15
  }

  lemma {:induction false} ValueOfFs(s: string)
    requires forall i :: 0 <= i < |s| ==> s[i] == 'F'
    ensures AllDigits(s, 16) && ValueOf(s, 16) == Fs(|s|)
    decreases |s|
  {
    if s != "" {
      ValueOfFs(s[..|s| - 1]);
    }
  }

  lemma FullTurnSize(line: string)
    requires |line| == 8 && (forall i :: 0 <= i < 7 ==> line[i] == 'F') && line[7] == '4'
    ensures ChunkSize(line) == Some(TWO_32 - 12)
  {
    FindChar(line, ';', 0);
    ValueOfFs(line[..7]);
    assert Fs(7) == 0xFFF_FFFF;
    assert ValueOf(line, 16) == 16 * ValueOf(line[..7], 16) + 4;
    StoulReadsDigits(line, 16);
  }

  /** Behind a CRLF, a chunk of 2^32 - 12 bytes ends where its header starts. */
  lemma StandsStill(rules: Rules, t: string, c: nat)
    requires ReadAs(rules, true) && 2 <= c && |t| < TWO_31
    requires OccursAt(t, CRLF, c - 2) && OccursAt(t, FULL_TURN + CRLF, c)
    ensures TurnInWords(rules, t, c).OneChunk? && TurnInWords(rules, t, c).next == c
  {
    var line := t[c..c + 8];
    FullTurnLine(t, c, line);
    FullTurnSize(line);
    assert rules.chunkSize(line) == ChunkSize(line);
    var n := TWO_32 - 12;
    assert TurnInWords(rules, t, c) == DataInWords(t, c + 10, n);
    Wraps(c + 10 + n);
    assert U32(c + 10 + n) == c - 2;
  }

  lemma FullTurnLine(t: string, c: nat, line: string)
    requires OccursAt(t, FULL_TURN + CRLF, c) && c + 8 <= |t| && line == t[c..c + 8]
    ensures c + 10 <= |t| && Find(t, CRLF, c) == Some(c + 8)
    ensures (forall i :: 0 <= i < 7 ==> line[i] == 'F') && line[7] == '4'
  {
    var s := FULL_TURN + CRLF;
    assert forall i :: 0 <= i < 10 ==> t[c..c + 10][i] == t[c + i] == s[i];
    forall j | c <= j < c + 8
      ensures !OccursAt(t, CRLF, j)
    {
      assert t[j] == s[j - c];
      OccursCrlf(t, j);
    }
    OccursCrlf(t, c + 8);
    assert t[c + 8] == s[8] && t[c + 9] == s[9];
    FindIs(t, CRLF, c, c + 8);
    assert forall i :: 0 <= i < 8 ==> line[i] == t[c + i] == s[i];
  }

  lemma OccursFront(t: string, s: string, front: string, c: nat)
    requires OccursAt(t, s, c) && front <= s
    ensures OccursAt(t, front, c)
  {
    assert t[c..c + |front|] == t[c..c + |s|][..|front|];
  }

  lemma RoundAtFront(g: Grammar<Request>, b: string, head: Head, c: nat)
    requires Find(b, CRLFCRLF, 0).Some? && WordStart(METHODS, b) == Some(0) && ReadHead(g, b) == Ok(head, c)
    requires TRANSFER_ENCODING in head.fields.headers && head.fields.chunked && Revisits(g.rules, b, c)
    ensures GoesRound(g, b) && CodeVerdict(g, METHODS, b).None?
  {
    assert b[0..] == b;
    assert EntersChunks(g, METHODS, b, b, c);
    ReturnsExactly(g, METHODS, b);
  }

  lemma RoundBehind(g: Grammar<Request>, r: Request, b: string, c: nat)
    requires ReadAs(g.rules, true) && |b| < TWO_31 && Heads(g, r, b, c) && SaysChunked(r.headers)
    requires OccursAt(b, r.body, c) && FULL_TURN + CRLF <= r.body
    ensures GoesRound(g, b) && CodeVerdict(g, METHODS, b).None?
  {
    assert OccursAt(b, CRLFCRLF, c - 4);
    OccursCrlfCrlf(b, c - 4);
    OccursCrlf(b, c - 2);
    OccursFront(b, r.body, FULL_TURN + CRLF, c);
    StandsStill(g.rules, b, c);
    StandingTurn(g.rules, b, c);
    RoundAtFront(g, b, Head(RequestLine(r.verb, r.url), TrimmedSection(r.headers)), c);
  }

  /** A chunked request whose body starts with that chunk header is never answered: its parser goes round for ever. */
  lemma ParsedForEver(style: LengthStyle, r: Request, order: seq<string>, x: string)
    requires ShapedHead(r) && NoLineFeed(r.headers) && SaysChunked(r.headers) && OrderOf(order, r.headers)
    requires FULL_TURN + CRLF <= r.body && |Serialize(r, order) + x| < TWO_31
    ensures RequestParse(style)(Serialize(r, order) + x).None? && !Ends(RequestParse(style), Serialize(r, order) + x)
  {
    var b, g := Serialize(r, order) + x, RequestGrammar(style);
    RequestGrammarIs(style);
    HeadAtFront(g, style, r, order, b);
    RoundBehind(g, r, b, HeadLength(r, order));
    StuckAtOnce(style, b);
  }

  // ------------------------------------------------------------------ two such requests

  lemma LastDigit(n: nat, d: nat, s: string)
    requires 0 < n && d < 10 && Decimal(n) == s
    ensures Decimal(10 * n + d) == s + ['0' + d as char]
  {
  }

  lemma LengthText55(n: nat)
    requires n == TWO_32 - 55
    ensures Decimal(n) == "4294967241"
  {
    LastDigit(4, 2, "4");
    LastDigit(42, 9, "42");
    LastDigit(429, 4, "429");
    LastDigit(4294, 9, "4294");
    LastDigit(42949, 6, "42949");
    LastDigit(429496, 7, "429496");
    LastDigit(4294967, 2, "4294967");
    LastDigit(42949672, 4, "42949672");
    LastDigit(429496724, 1, "429496724");
  }

  lemma GetAgain(style: LengthStyle, length: string)
    requires |length| == 10 && NoCrlf(length) && LF !in length && IsTrimmed(length)
    requires BodyLength(length) == Some(TWO_32 - 55)
    ensures |GetText(CONTENT_LENGTH, length, "")| == 55
    ensures !Ends(RequestParse(style), GetText(CONTENT_LENGTH, length, ""))
  {
    var r, order := GetWith(CONTENT_LENGTH, length, ""), [HOST, CONTENT_LENGTH];
    GetWithShaped(CONTENT_LENGTH, length, "", r, order);
    GetWithText(CONTENT_LENGTH, length, "", r, order);
    assert Serialize(r, order) + "" == Serialize(r, order);
    DispatchedForEver(style, r, order, "");
  }

  /** These 55 bytes are dispatched again and again. */
  lemma GetForEver(style: LengthStyle, length: string)
    requires length == "4294967241"
    ensures |GetText(CONTENT_LENGTH, length, "")| == 55
    ensures !Ends(RequestParse(style), GetText(CONTENT_LENGTH, length, ""))
  {
    LengthText55(TWO_32 - 55);
    LengthIsCut(TWO_32 - 55);
    GetAgain(style, length);
  }

  /** The parser never returns from these 65 bytes. */
  lemma ChunkForEver(style: LengthStyle, coding: string, body: string)
    requires coding == "chunked" && body == FULL_TURN + CRLF
    ensures |GetText(TRANSFER_ENCODING, coding, body)| == 65
    ensures !Ends(RequestParse(style), GetText(TRANSFER_ENCODING, coding, body))
  {
    var r, order := GetWith(TRANSFER_ENCODING, coding, body), [HOST, TRANSFER_ENCODING];
    GetWithShaped(TRANSFER_ENCODING, coding, body, r, order);
    GetWithText(TRANSFER_ENCODING, coding, body, r, order);
    TrimTrimmed(coding);
    assert Serialize(r, order) + "" == Serialize(r, order);
    ParsedForEver(style, r, order, "");
  }
}
