/** Message bodies: Content-Length, chunked coding and trailers (sections 3.3.3 and 4.1 of RFC 7230).

    A scan works on a fixed buffer from a cursor. `More` asks for more bytes, `Bad` is a message to be refused,
    `Raise` is the exception that a chunk size without digits raises, and `Ok` carries the cursor behind
    the part that was read.

    What a single line means is a parameter (`Rules`), so that everything about where lines, chunks and
    bodies begin and end is proved once, for both parsers and for any reading of the lines. */
module Framing {
  import opened Strings
  import opened Numbers
  import opened Fields

  datatype Scan<+T> = More | Bad | Raise | Ok(value: T, next: nat)

  /** What the code stores as the Content-Length of a decoded chunked body: assigning an integer to a
      string keeps one character of it; the comment above that line asks for the decimal length. */
  datatype LengthStyle = OneChar | InDecimal

  function LengthText(style: LengthStyle, n: nat): string {
    match style
    case OneChar => [(n % 256) as char]
    case InDecimal => Decimal(n)
  }

  /** What is left of a number stored in a `uint32_t`. */
  function Word(n: Option<nat>): (r: Option<nat>)
    ensures r.Some? ==> r.value < TWO_32
  {
    match n
    case None => None
    case Some(v) => Some(v % TWO_32)
  }

  /** A chunk header without its extensions. */
  ghost function ChunkSizeText(line: string): string {
    match Find(line, ";", 0)
    case None => line
    case Some(p) => line[..p]
  }

  ghost function ChunkSize(line: string): Option<nat> {
    Word(Stoul(ChunkSizeText(line), 16))
  }

  function BodyLength(text: string): Option<nat> {
    Word(Stoul(text, 10))
  }

  /** How single lines and length texts are read, and how a decoded length is written back. */
  datatype Rules = Rules(
    addLine: (Section, string) -> Option<Section>,
    addTrailer: (Headers, string) -> Option<Headers>,
    chunkSize: string -> Option<nat>,
    bodyLength: string -> Option<nat>,
    lengthText: nat -> string)

  /** The rules of the two parsers: requests are `strict`. */
  ghost function RulesOf(strict: bool, style: LengthStyle): Rules {
    Rules(
      (f, line) => AddLine(strict, f, line),
      (h, line) => AddTrailer(strict, h, line),
      ChunkSize,
      BodyLength,
      (n: nat) => LengthText(style, n))
  }

  /** `rules` read lines and lengths as the parsers do. */
  ghost predicate ReadAs(rules: Rules, strict: bool) {
    && (forall f, line {:trigger AddLine(strict, f, line)} :: rules.addLine(f, line) == AddLine(strict, f, line))
    && (forall h, line {:trigger AddTrailer(strict, h, line)} ::
          rules.addTrailer(h, line) == AddTrailer(strict, h, line))
    && (forall line {:trigger ChunkSize(line)} :: rules.chunkSize(line) == ChunkSize(line))
    && (forall text {:trigger BodyLength(text)} :: rules.bodyLength(text) == BodyLength(text))
  }

  lemma RulesReadAs(strict: bool, style: LengthStyle)
    ensures ReadAs(RulesOf(strict, style), strict)
  {
  }

  /** The header loop: one line after the other, until one is refused. */
  ghost function AddLines(rules: Rules, f: Section, lines: seq<string>): Option<Section>
    decreases |lines|
  {
    if lines == [] then Some(f)
    else
      match rules.addLine(f, lines[0])
      case None => None
      case Some(f') => AddLines(rules, f', lines[1..])
  }

  /** The first of several header lines. */
  lemma AddLinesStep(rules: Rules, f: Section, t: string, c: nat, stop: nat)
    requires c < stop <= |t| && t[stop - 1] == LF
    ensures var e := LineEnd(t, c, stop);
            AddLines(rules, f, Lines(t, c, stop)) ==
            match rules.addLine(f, t[c..e])
            case None => None
            case Some(f') => if e + 1 == stop then Some(f') else AddLines(rules, f', Lines(t, e + 1, stop))
  {
    var e := LineEnd(t, c, stop);
    var lines := Lines(t, c, stop);
    if e + 1 == stop {
      assert lines[1..] == [];
    } else {
      assert lines[1..] == Lines(t, e + 1, stop);
    }
  }

  // ------------------------------------------------------------------ chunks

  /** One turn of the chunk loop: chunk data and the cursor behind the chunk, no data for the last one. */
  ghost function ReadChunk(rules: Rules, t: string, c: nat): (r: Scan<string>)
    ensures r.Ok? ==> c + |r.value| < r.next <= |t|
  {
    match Find(t, CRLF, c)
    case None => More
    case Some(e) =>
      match rules.chunkSize(t[c..e])
      case None => Raise
      case Some(n) =>
        var d := e + 2;
        if n == 0 then Ok("", d)
        else if d + n + 2 > |t| then More
        else if !OccursAt(t, CRLF, d + n) then Bad
        else Ok(t[d..d + n], d + n + 2)
  }

  /** The chunk loop from cursor `c`, with `acc` decoded so far. */
  ghost function ReadChunks(rules: Rules, t: string, c: nat, acc: string): (r: Scan<string>)
    ensures r.Ok? ==> c < r.next <= |t|
    decreases |t| - c
  {
    match ReadChunk(rules, t, c)
    case More => More
    case Bad => Bad
    case Raise => Raise
    case Ok(data, d) => if data == "" then Ok(acc, d) else ReadChunks(rules, t, d, acc + data)
  }

  /** A turn that still waits in a piece from the front of a buffer ends behind that piece. */
  lemma ChunkWaitsBeyond(rules: Rules, t: string, u: string, c: nat)
    requires u <= t && ReadChunk(rules, u, c).More? && ReadChunk(rules, t, c).Ok?
    ensures ReadChunk(rules, t, c).next > |u|
  {
    var e := Find(t, CRLF, c).value;
    if e + 2 <= |u| {
      FindInFront(t, u, CRLF, c);
      assert u[c..e] == t[c..e];
    }
  }

  lemma ReadChunkInPrefix(rules: Rules, t: string, u: string, c: nat)
    requires t <= u && !ReadChunk(rules, t, c).More?
    ensures ReadChunk(rules, u, c) == ReadChunk(rules, t, c)
  {
    FindInPrefix(t, u, CRLF, c);
    var e := Find(t, CRLF, c).value;
    assert u[c..e] == t[c..e];
    var size := rules.chunkSize(t[c..e]);
    if size.None? || size.value == 0 { return; }
    var d, n := e + 2, size.value;
    OccursInPrefix(t, u, CRLF, d + n);
    assert u[d..d + n] == t[d..d + n];
  }

  lemma {:induction false} ReadChunksInPrefix(rules: Rules, t: string, u: string, c: nat, acc: string)
    requires t <= u && !ReadChunks(rules, t, c, acc).More?
    ensures ReadChunks(rules, u, c, acc) == ReadChunks(rules, t, c, acc)
    decreases |t| - c
  {
    ReadChunkInPrefix(rules, t, u, c);
    var r := ReadChunk(rules, t, c);
    if r.Ok? && r.value != "" {
      ReadChunksInPrefix(rules, t, u, r.next, acc + r.value);
    }
  }

  /** What the chunk loop accepts, it accepts from the bytes it consumes alone. */
  lemma {:induction false} ChunksWaitBeyond(rules: Rules, t: string, u: string, c: nat, acc: string)
    requires u <= t && ReadChunks(rules, u, c, acc).More? && ReadChunks(rules, t, c, acc).Ok?
    ensures ReadChunks(rules, t, c, acc).next > |u|
    decreases |t| - c
  {
    if ReadChunk(rules, u, c).More? {
      ChunkWaitsBeyond(rules, t, u, c);
      ChunksGoOn(rules, t, c, acc);
      return;
    }
    ReadChunkInPrefix(rules, u, t, c);
    var r := ReadChunk(rules, t, c);
    ChunksWaitBeyond(rules, t, u, r.next, acc + r.value);
  }

  lemma ChunksGoOn(rules: Rules, t: string, c: nat, acc: string)
    requires ReadChunks(rules, t, c, acc).Ok?
    ensures ReadChunk(rules, t, c).Ok? && ReadChunks(rules, t, c, acc).next >= ReadChunk(rules, t, c).next
  {
  }

  // ------------------------------------------------------------------ trailers

  /** The trailer loop, up to the empty line that ends the message. */
  ghost function ReadTrailers(rules: Rules, t: string, c: nat, h: Headers): (r: Scan<Headers>)
    ensures !r.Raise?
    ensures r.Ok? ==> c < r.next <= |t|
    decreases |t| - c
  {
    match Find(t, CRLF, c)
    case None => More
    case Some(e) =>
      if e == c then Ok(h, e + 2)
      else
        match rules.addTrailer(h, t[c..e])
        case None => Bad
        case Some(h') => ReadTrailers(rules, t, e + 2, h')
  }

  lemma {:induction false} ReadTrailersInPrefix(rules: Rules, t: string, u: string, c: nat, h: Headers)
    requires t <= u && !ReadTrailers(rules, t, c, h).More?
    ensures ReadTrailers(rules, u, c, h) == ReadTrailers(rules, t, c, h)
    decreases |t| - c
  {
    FindInPrefix(t, u, CRLF, c);
    var e := Find(t, CRLF, c).value;
    if e == c { return; }
    assert u[c..e] == t[c..e];
    var next := rules.addTrailer(h, t[c..e]);
    if next.None? { return; }
    ReadTrailersInPrefix(rules, t, u, e + 2, next.value);
  }

  lemma {:induction false} TrailersWaitBeyond(rules: Rules, t: string, u: string, c: nat, h: Headers)
    requires u <= t && ReadTrailers(rules, u, c, h).More? && ReadTrailers(rules, t, c, h).Ok?
    ensures ReadTrailers(rules, t, c, h).next > |u|
    decreases |t| - c
  {
    var e := Find(t, CRLF, c).value;
    if e + 2 > |u| { return; }
    FindInFront(t, u, CRLF, c);
    assert u[c..e] == t[c..e];
    TrailersWaitBeyond(rules, t, u, e + 2, rules.addTrailer(h, t[c..e]).value);
  }

  // ------------------------------------------------------------------ bodies

  datatype Content = Content(headers: Headers, body: string)

  /** Transfer-Encoding overrides Content-Length. */
  function DropLength(h: Headers): Headers {
    if CONTENT_LENGTH in h && TRANSFER_ENCODING in h then h - {CONTENT_LENGTH} else h
  }

  /** The headers of a decoded chunked message. */
  ghost function Normalised(rules: Rules, h: Headers, n: nat): Headers {
    h[CONTENT_LENGTH := rules.lengthText(n)] - {TRANSFER_ENCODING, TRAILER}
  }

  /** A chunked body with its trailers. */
  ghost function ReadChunked(rules: Rules, t: string, start: nat, h: Headers): (r: Scan<Content>)
    ensures r.Ok? ==> start < r.next <= |t|
  {
    match ReadChunks(rules, t, start, "")
    case More => More
    case Bad => Bad
    case Raise => Raise
    case Ok(body, c) =>
      match ReadTrailers(rules, t, c, h)
      case More => More
      case Bad => Bad
      case Raise => Raise
      case Ok(h', c') => Ok(Content(Normalised(rules, h', |body|), body), c')
  }

  /** The body that starts at `start`, by whatever framing the header section `f` asks for. */
  ghost function ReadBody(rules: Rules, t: string, start: nat, f: Section): (r: Scan<Content>)
    requires start <= |t|
    ensures r.Ok? ==> start <= r.next <= |t|
  {
    var h := DropLength(f.headers);
    if CONTENT_LENGTH in h then
      match rules.bodyLength(h[CONTENT_LENGTH])
      case None => Bad
      case Some(n) => if start + n > |t| then More else Ok(Content(h, t[start..start + n]), start + n)
    else if TRANSFER_ENCODING in h then
      if !f.chunked then Bad else ReadChunked(rules, t, start, h)
    else Ok(Content(h, ""), start)
  }

  lemma ReadBodyInPrefix(rules: Rules, t: string, u: string, start: nat, f: Section)
    requires t <= u && start <= |t| && !ReadBody(rules, t, start, f).More?
    ensures ReadBody(rules, u, start, f) == ReadBody(rules, t, start, f)
  {
    var h := DropLength(f.headers);
    if CONTENT_LENGTH in h {
      var n := rules.bodyLength(h[CONTENT_LENGTH]);
      if n.Some? {
        assert u[start..start + n.value] == t[start..start + n.value];
      }
      return;
    }
    if TRANSFER_ENCODING !in h || !f.chunked { return; }
    var chunks := ReadChunks(rules, t, start, "");
    ReadChunksInPrefix(rules, t, u, start, "");
    if chunks.Ok? {
      ReadTrailersInPrefix(rules, t, u, chunks.next, h);
    }
  }

  /** A body that still waits in a piece from the front of a buffer ends behind that piece. */
  lemma BodyWaitsBeyond(rules: Rules, t: string, u: string, start: nat, f: Section)
    requires u <= t && start <= |u| && ReadBody(rules, u, start, f).More? && ReadBody(rules, t, start, f).Ok?
    ensures ReadBody(rules, t, start, f).next > |u|
  {
    var h := DropLength(f.headers);
    if CONTENT_LENGTH in h { return; }
    var inFront, all := ReadChunks(rules, u, start, ""), ReadChunks(rules, t, start, "");
    if inFront.More? {
      ChunksWaitBeyond(rules, t, u, start, "");
    } else {
      ReadChunksInPrefix(rules, u, t, start, "");
      TrailersWaitBeyond(rules, t, u, all.next, h);
    }
  }

  // ------------------------------------------------------------------ machine words

  /** A completeness test `end > size` in 32 bits agrees with the real one unless `end` wraps to a place inside the
      buffer. */
  predicate TestAgrees(end: nat, size: nat) {
    !(TWO_32 <= end <= TWO_32 + size)
  }

  /** Exactly that: `int + uint32_t` compared with a buffer size below 2^31. */
  lemma CompletenessTestExact(start: nat, n: nat, size: nat)
    requires start <= size < TWO_31 && n < TWO_32
    ensures (U32(start + n) > size <==> start + n > size) <==> TestAgrees(start + n, size)
    ensures start + n <= size ==> U32(start + n) == start + n
  {
    assert start + n >= TWO_32 ==> (start + n) % TWO_32 == start + n - TWO_32;
  }

  /** The same for a chunk of `n` bytes and the CRLF behind it. */
  lemma ChunkTestExact(start: nat, n: nat, size: nat)
    requires start <= size < TWO_31 && n < TWO_32
    ensures (U32(U32(start + n) + 2) > size <==> start + n + 2 > size) <==> TestAgrees(start + n + 2, size)
    ensures start + n + 2 <= size ==> U32(U32(start + n) + 2) == start + n + 2
  {
    assert ((start + n) % TWO_32 + 2) % TWO_32 == (start + n + 2) % TWO_32;
    assert start + n + 2 >= TWO_32 ==> (start + n + 2) % TWO_32 == start + n + 2 - TWO_32;
  }

  /** For the chunk at `c`, the 32-bit test says what the unbounded one says. */
  ghost predicate ChunkFits(rules: Rules, t: string, c: nat) {
    match Find(t, CRLF, c)
    case None => true
    case Some(e) =>
      match rules.chunkSize(t[c..e])
      case None => true
      case Some(n) => n == 0 || TestAgrees(e + 2 + n + 2, |t|)
  }

  /** And so along the chunk loop. */
  ghost predicate ChunksFit(rules: Rules, t: string, c: nat)
    decreases |t| - c
  {
    ChunkFits(rules, t, c) &&
    var r := ReadChunk(rules, t, c);
    r.Ok? && r.value != "" ==> ChunksFit(rules, t, r.next)
  }

  ghost predicate BodyFits(rules: Rules, t: string, start: nat, f: Section) {
    var h := DropLength(f.headers);
    if CONTENT_LENGTH in h then
      match rules.bodyLength(h[CONTENT_LENGTH])
      case None => true
      case Some(n) => TestAgrees(start + n, |t|)
    else
      TRANSFER_ENCODING in h && f.chunked ==> ChunksFit(rules, t, start)
  }

  lemma TestAgreesInPrefix(end: nat, size: nat, larger: nat)
    requires size <= larger < TWO_31 && TestAgrees(end, larger)
    ensures TestAgrees(end, size)
  {
  }

  lemma ChunkFitsInPrefix(rules: Rules, t: string, u: string, c: nat)
    requires t <= u && |u| < TWO_31 && ChunkFits(rules, u, c)
    ensures ChunkFits(rules, t, c)
  {
    if Find(t, CRLF, c).None? { return; }
    FindInPrefix(t, u, CRLF, c);
    var e := Find(t, CRLF, c).value;
    assert u[c..e] == t[c..e];
    var size := rules.chunkSize(t[c..e]);
    if size.None? || size.value == 0 { return; }
    TestAgreesInPrefix(e + 2 + size.value + 2, |t|, |u|);
  }

  lemma {:induction false} ChunksFitInPrefix(rules: Rules, t: string, u: string, c: nat)
    requires t <= u && |u| < TWO_31 && ChunksFit(rules, u, c)
    ensures ChunksFit(rules, t, c)
    decreases |t| - c
  {
    ChunkFitsInPrefix(rules, t, u, c);
    var r := ReadChunk(rules, t, c);
    if r.Ok? && r.value != "" {
      ReadChunkInPrefix(rules, t, u, c);
      ChunksFitInPrefix(rules, t, u, r.next);
    }
  }

  lemma BodyFitsInPrefix(rules: Rules, t: string, u: string, start: nat, f: Section)
    requires t <= u && |u| < TWO_31 && BodyFits(rules, u, start, f)
    ensures BodyFits(rules, t, start, f)
  {
    var h := DropLength(f.headers);
    if CONTENT_LENGTH in h {
      var n := rules.bodyLength(h[CONTENT_LENGTH]);
      if n.Some? {
        TestAgreesInPrefix(start + n.value, |t|, |u|);
      }
      return;
    }
    if TRANSFER_ENCODING in h && f.chunked {
      ChunksFitInPrefix(rules, t, u, start);
    }
  }
}
