/** The chunked coding as section 4.1 of RFC 7230 defines it, from single chunks up to whole requests, and where the
    parser accepts more than that. */
module StandardCoding {
  import opened Strings
  import opened Numbers
  import opened Fields
  import opened Framing
  import opened Messages
  import opened Scanning
  import opened Requests
  import opened RoundTrip
  import opened Chunked

  /** A chunk: its size in hexadecimal digits, its extensions, its data. */
  datatype Piece = Piece(digits: string, ext: string, data: string)

  /** `zeros` and `ext` make the header line of the last chunk. */
  datatype Coding = Coding(pieces: seq<Piece>, zeros: string, ext: string, trailers: seq<Trailer>)

  /** Its chunks are those of the standard. */
  ghost predicate LegalChunks(k: Coding) {
    && (forall p :: p in k.pieces ==> p.data != "" && LegalHeader(p.digits, p.ext, |p.data|))
    && LegalHeader(k.zeros, k.ext, 0)
  }

  /** The coding is one of the standard, behind the header fields `h`. */
  ghost predicate Legal(h: Headers, k: Coding) {
    LegalChunks(k) && LegalTrailers(h, k.trailers)
  }

  function Chunks(pieces: seq<Piece>): (xs: seq<Chunk>)
    ensures |xs| == |pieces|
    ensures forall i :: 0 <= i < |xs| ==> xs[i] == Chunk(pieces[i].digits + pieces[i].ext, pieces[i].data)
  {
    seq(|pieces|, i requires 0 <= i < |pieces| => Chunk(pieces[i].digits + pieces[i].ext, pieces[i].data))
  }

  /** The data of all chunks. */
  function Payload(k: Coding): string {
    Data(Chunks(k.pieces))
  }

  function CodingText(k: Coding): string {
    EncodeBody(Chunks(k.pieces), k.zeros + k.ext, k.trailers)
  }

  // ------------------------------------------------------------------ bodies

  lemma PiecesAreChunks(rules: Rules, strict: bool, k: Coding)
    requires ReadAs(rules, strict) && LegalChunks(k)
    ensures AllChunks(rules, Chunks(k.pieces)) && IsLast(rules, k.zeros + k.ext)
  {
    forall i | 0 <= i < |k.pieces|
      ensures IsChunk(rules, Chunks(k.pieces)[i])
    {
      var p := k.pieces[i];
      assert p in k.pieces;
      LegalHeaderRead(rules, strict, p.digits, p.ext, |p.data|);
    }
    LegalHeaderRead(rules, strict, k.zeros, k.ext, 0);
  }

  /** Every coding of the standard is read back: its payload, the fields its decoding algorithm asks for, and exactly
      its bytes. */
  lemma StandardRead(rules: Rules, t: string, c: nat, h: Headers, k: Coding)
    requires ReadAs(rules, true) && Legal(h, k) && OccursAt(t, CodingText(k), c)
    ensures ReadChunked(rules, t, c, h) ==
            Ok(Content(Normalised(rules, JoinAll(h, k.trailers), |Payload(k)|), Payload(k)), c + |CodingText(k)|)
  {
    PiecesAreChunks(rules, true, k);
    var content := Content(Normalised(rules, JoinAll(h, k.trailers), |Payload(k)|), Payload(k));
    ChunkedRead(rules, t, c, h, Chunks(k.pieces), k.zeros + k.ext, k.trailers, content, c + |CodingText(k)|);
  }

  // ------------------------------------------------------------------ requests

  /** What a request with that coding for a body becomes: the payload, the trailers among the fields, Content-Length
      set, Transfer-Encoding and Trailer removed. */
  function Decoded(style: LengthStyle, r: Request, k: Coding): Request {
    var h := JoinAll(DropLength(r.headers), k.trailers);
    Request(r.verb, r.url, r.host,
            h[CONTENT_LENGTH := LengthText(style, |Payload(k)|)] - {TRANSFER_ENCODING, TRAILER}, Payload(k))
  }

  /** A request that announces the chunked coding and carries one of the standard. */
  ghost predicate Carries(r: Request, k: Coding) {
    && ShapedHead(r) && NoLineFeed(r.headers) && AllTrimmed(r.headers) && SaysChunked(r.headers)
    && Legal(DropLength(r.headers), k) && r.body == CodingText(k)
  }

  lemma CodedBody(g: Grammar<Request>, style: LengthStyle, r: Request, k: Coding, t: string, n: nat)
    requires IsRequestGrammar(g, style) && Carries(r, k) && OccursAt(t, r.body, n)
    ensures ReadBody(g.rules, t, n, TrimmedSection(r.headers)) ==
            Ok(Content(Decoded(style, r, k).headers, Payload(k)), n + |r.body|)
  {
    TrimValuesSame(r.headers);
    StandardRead(g.rules, t, n, DropLength(r.headers), k);
    assert g.rules.lengthText(|Payload(k)|) == LengthText(style, |Payload(k)|);
  }

  lemma MessageFromParts(g: Grammar<Request>, style: LengthStyle, t: string, n: nat, start: StartLine, f: Section,
                         content: Content, next: nat)
    requires IsRequestGrammar(g, style) && n <= |t| && ReadHead(g, t) == Ok(Head(start, f), n)
    requires ReadBody(g.rules, t, n, f) == Ok(content, next) && start.RequestLine? && HOST in f.headers
    ensures ReadMessage(g, t) ==
            Ok(Request(start.verb, start.url, f.headers[HOST], content.headers, content.body), next)
  {
    assert g.finish(start, f.headers, content) == FinishRequest(start, f.headers, content);
  }

  /** A message whose head has been read as that of `r`. */
  lemma CodedBehind(g: Grammar<Request>, style: LengthStyle, r: Request, k: Coding, t: string, n: nat)
    requires IsRequestGrammar(g, style) && Carries(r, k) && OccursAt(t, r.body, n)
    requires ReadHead(g, t) == Ok(Head(RequestLine(r.verb, r.url), TrimmedSection(r.headers)), n)
    ensures ReadMessage(g, t) == Ok(Decoded(style, r, k), n + |r.body|)
  {
    CodedBody(g, style, r, k, t, n);
    SameFields(r.headers);
    MessageFromParts(g, style, t, n, RequestLine(r.verb, r.url), TrimmedSection(r.headers),
                     Content(Decoded(style, r, k).headers, Payload(k)), n + |r.body|);
  }

  lemma CodedMessage(g: Grammar<Request>, style: LengthStyle, r: Request, order: seq<string>, k: Coding, t: string)
    requires IsRequestGrammar(g, style) && Carries(r, k) && OrderOf(order, r.headers) && Serialize(r, order) <= t
    ensures ReadMessage(g, t) == Ok(Decoded(style, r, k), |Serialize(r, order)|)
  {
    SerializedParts(r, order, t);
    SerializedHead(g, style, r, order, t, |StartText(r)|, HeadLength(r, order));
    CodedBehind(g, style, r, k, t, HeadLength(r, order));
  }

  /** Every request with a chunked body of the standard, written in any order of its header fields, is accepted with its
      payload, its trailers among the fields, and Content-Length stored as `style` says; with the decimal length that is
      the request the decoding algorithm of section 4.1.3 makes of it. Exactly its bytes are consumed. */
  lemma StandardRequestRead(style: LengthStyle, r: Request, order: seq<string>, k: Coding, x: string)
    requires Carries(r, k) && OrderOf(order, r.headers)
    ensures ParseRequest(style, Serialize(r, order) + x) == Ok(Decoded(style, r, k), |Serialize(r, order)|)
  {
    var t := Serialize(r, order) + x;
    SerializedStartsWithMethod(r, order, t);
    RequestGrammarIs(style);
    CodedMessage(RequestGrammar(style), style, r, order, k, t);
    WholeParsed(style, t, Decoded(style, r, k), |Serialize(r, order)|);
  }

  lemma WholeParsed(style: LengthStyle, t: string, r: Request, n: nat)
    requires WordStart(METHODS, t) == Some(0) && Find(t, CRLFCRLF, 0).Some?
    requires ReadMessage(RequestGrammar(style), t) == Ok(r, n)
    ensures ParseRequest(style, t) == Ok(r, n)
  {
    assert t[0..] == t;
    ParsedMessage(style, t, 0, t, r, n);
  }

  // ------------------------------------------------------------------ what is accepted beyond the standard

  /** A hexadecimal number as the library reads it: blanks, a sign and `0x` in front, anything that is no digit
      behind. */
  datatype Numeral = Numeral(blanks: string, sign: string, mark: string, digits: string, junk: string)

  predicate AllSpace(s: string) {
    forall i :: 0 <= i < |s| ==> IsSpace(s[i])
  }

  predicate IsMark(s: string) {
    s == "0x" || s == "0X"
  }

  predicate IsNumeral(x: Numeral) {
    && AllSpace(x.blanks)
    && (x.sign == "" || x.sign == "+" || x.sign == "-")
    && (x.mark == "" || IsMark(x.mark))
    && x.digits != "" && AllDigits(x.digits, 16)
    && (x.junk == "" || !IsDigit(x.junk[0], 16))
    && !(x.mark == "" && Marked(x.digits + x.junk))
  }

  function Unsigned(x: Numeral): string {
    x.mark + (x.digits + x.junk)
  }

  function NumeralText(x: Numeral): string {
    x.blanks + (x.sign + Unsigned(x))
  }

  /** The number stored in a `uint32_t`; `None` if it is out of range for `unsigned long`. */
  function NumeralValue(x: Numeral): Option<nat>
    requires AllDigits(x.digits, 16)
  {
    var v := ValueOf(x.digits, 16);
    if v >= TWO_64 then None
    else if x.sign == "-" && v > 0 then Some((TWO_64 - v) % TWO_32)
    else Some(v % TWO_32)
  }

  lemma {:induction false} SkipSpaceOver(blanks: string, rest: string)
    requires AllSpace(blanks) && (rest == "" || !IsSpace(rest[0]))
    ensures SkipSpace(blanks + rest) == rest
    decreases |blanks|
  {
    if blanks == "" {
      assert blanks + rest == rest;
    } else {
      assert (blanks + rest)[1..] == blanks[1..] + rest;
      SkipSpaceOver(blanks[1..], rest);
    }
  }

  lemma {:induction false} SkippedSpace(s: string) returns (blanks: string)
    ensures AllSpace(blanks) && s == blanks + SkipSpace(s) && (SkipSpace(s) == "" || !IsSpace(SkipSpace(s)[0]))
    decreases |s|
  {
    if s != "" && IsSpace(s[0]) {
      var rest := SkippedSpace(s[1..]);
      blanks := [s[0]] + rest;
      assert s == [s[0]] + s[1..];
    } else {
      blanks := "";
    }
  }

  lemma {:induction false} DigitPrefixOf(digits: string, junk: string, base: nat)
    requires AllDigits(digits, base) && (junk == "" || !IsDigit(junk[0], base))
    ensures DigitPrefix(digits + junk, base) == |digits|
    decreases |digits|
  {
    if digits == "" {
      assert digits + junk == junk;
    } else {
      assert (digits + junk)[1..] == digits[1..] + junk;
      DigitPrefixOf(digits[1..], junk, base);
    }
  }

  /** `u` starts with a mark the library reads over. */
  predicate Marked(u: string) {
    |u| >= 3 && u[0] == '0' && (u[1] == 'x' || u[1] == 'X') && IsDigit(u[2], 16)
  }

  lemma UnsignedMarked(x: Numeral)
    requires IsNumeral(x)
    ensures var u := Unsigned(x);
            && u != "" && IsDigit(u[0], 16)
            && (Marked(u) <==> x.mark != "")
            && (if Marked(u) then u[2..] else u) == x.digits + x.junk
  {
    var u := Unsigned(x);
    assert IsDigit(x.digits[0], 16);
    if x.mark == "" {
      assert u == x.digits + x.junk;
    } else {
      MarkedRest(x.mark, x.digits + x.junk);
    }
  }

  lemma MarkedRest(mark: string, rest: string)
    requires IsMark(mark) && rest != "" && IsDigit(rest[0], 16)
    ensures Marked(mark + rest) && (mark + rest)[2..] == rest && IsDigit((mark + rest)[0], 16)
  {
  }

  /** `Magnitude` from its parts. */
  lemma MagnitudeIs(s: string, base: nat, t: string, u: string, w: string, n: nat)
    requires base == 16 && t == SkipSpace(s) && t != ""
    requires u == (if t[0] == '-' || t[0] == '+' then t[1..] else t) && w == (if Marked(u) then u[2..] else u)
    requires n == DigitPrefix(w, base)
    ensures Magnitude(s, base) == if n == 0 then None else Some((t[0] == '-', ValueOf(w[..n], base)))
  {
  }

  lemma MagnitudeOfNumeral(x: Numeral, base: nat)
    requires base == 16 && IsNumeral(x)
    ensures Magnitude(NumeralText(x), base) == Some((x.sign == "-", ValueOf(x.digits, base)))
  {
    UnsignedMarked(x);
    var u, w := Unsigned(x), x.digits + x.junk;
    var t := x.sign + u;
    SkipSpaceOver(x.blanks, t);
    assert x.sign == "" ==> t == u;
    DigitPrefixOf(x.digits, x.junk, 16);
    assert w[..|x.digits|] == x.digits;
    MagnitudeIs(NumeralText(x), base, t, u, w, |x.digits|);
  }

  lemma NumeralOf(s: string, base: nat) returns (x: Numeral)
    requires base == 16 && Magnitude(s, base).Some?
    ensures IsNumeral(x) && NumeralText(x) == s
  {
    var blanks := SkippedSpace(s);
    var t := SkipSpace(s);
    var u := if t[0] == '-' || t[0] == '+' then t[1..] else t;
    var w := if Marked(u) then u[2..] else u;
    var n := DigitPrefix(w, base);
    MagnitudeIs(s, base, t, u, w, n);
    x := Split(blanks, t, u, w, n, base);
  }

  lemma SplitSign(t: string) returns (sign: string)
    requires t != ""
    ensures t == sign + (if t[0] == '-' || t[0] == '+' then t[1..] else t)
    ensures sign == "" || sign == "+" || sign == "-"
  {
    if t[0] == '-' || t[0] == '+' {
      sign := t[..1];
      assert sign == [t[0]];
    } else {
      sign := "";
    }
  }

  lemma SplitMark(u: string) returns (mark: string)
    ensures u == mark + (if Marked(u) then u[2..] else u) && (if Marked(u) then IsMark(mark) else mark == "")
  {
    if Marked(u) {
      mark := u[..2];
      assert mark == [u[0], u[1]];
    } else {
      mark := "";
    }
  }

  lemma TextOfParts(blanks: string, sign: string, mark: string, w: string, n: nat)
    requires n <= |w|
    ensures NumeralText(Numeral(blanks, sign, mark, w[..n], w[n..])) == blanks + (sign + (mark + w))
  {
    assert w[..n] + w[n..] == w;
  }

  lemma PartsAreNumeral(blanks: string, sign: string, mark: string, w: string, n: nat, base: nat)
    requires base == 16 && AllSpace(blanks) && (sign == "" || sign == "+" || sign == "-")
    requires (mark == "" && !Marked(w)) || IsMark(mark)
    requires n == DigitPrefix(w, base) && 0 < n
    ensures IsNumeral(Numeral(blanks, sign, mark, w[..n], w[n..]))
  {
    assert w[..n] + w[n..] == w;
  }

  lemma Split(blanks: string, t: string, u: string, w: string, n: nat, base: nat) returns (x: Numeral)
    requires base == 16 && AllSpace(blanks) && t != ""
    requires u == (if t[0] == '-' || t[0] == '+' then t[1..] else t) && w == (if Marked(u) then u[2..] else u)
    requires n == DigitPrefix(w, base) && 0 < n
    ensures IsNumeral(x) && NumeralText(x) == blanks + t
  {
    var sign := SplitSign(t);
    var mark := SplitMark(u);
    x := Numeral(blanks, sign, mark, w[..n], w[n..]);
    TextOfParts(blanks, sign, mark, w, n);
    PartsAreNumeral(blanks, sign, mark, w, n, base);
  }

  /** Exactly which lines are accepted as chunk headers, and as what sizes. */
  lemma ChunkSizeExactly(line: string, n: nat)
    ensures ChunkSize(line) == Some(n) <==>
            exists x :: IsNumeral(x) && NumeralText(x) == ChunkSizeText(line) && NumeralValue(x) == Some(n)
  {
    var s := ChunkSizeText(line);
    if ChunkSize(line) == Some(n) {
      var x := NumeralOf(s, 16);
      MagnitudeOfNumeral(x, 16);
      assert NumeralValue(x) == Some(n);
    }
    if x :| IsNumeral(x) && NumeralText(x) == s && NumeralValue(x) == Some(n) {
      MagnitudeOfNumeral(x, 16);
    }
  }

  /** A header line of the standard has no mark behind its first digit. */
  lemma NoLegalMark(digits: string, ext: string, n: nat)
    requires LegalHeader(digits, ext, n)
    ensures |digits + ext| >= 2 ==> (digits + ext)[1] != 'x'
  {
    var line := digits + ext;
    if |digits| >= 2 {
      assert line[1] == digits[1] && IsDigit(digits[1], 16);
    } else if |line| >= 2 {
      assert line[1] == ext[0];
    }
  }

  lemma MarkedHeaderRead(line: string)
    requires line == "0x5"
    ensures ChunkSize(line) == Some(5) && NoCrlf(line)
  {
    var x := Numeral("", "", "0x", "5", "");
    ValueOfOneDigit('5', 16);
    FindChar(line, ';', 0);
    assert NumeralText(x) == line && IsNumeral(x) && NumeralValue(x) == Some(5);
    ChunkSizeExactly(line, 5);
  }

  /** So a chunk is accepted whose header line no chunk of the standard has. */
  lemma NotOfTheStandard(rules: Rules, line: string)
    requires ReadAs(rules, true) && line == "0x5"
    ensures IsChunk(rules, Chunk(line, "hello"))
    ensures !exists digits, ext, n :: LegalHeader(digits, ext, n) && digits + ext == line
  {
    MarkedHeaderRead(line);
    assert rules.chunkSize(line) == ChunkSize(line);
    forall digits, ext, n | LegalHeader(digits, ext, n)
      ensures digits + ext != line
    {
      NoLegalMark(digits, ext, n);
    }
  }
}
