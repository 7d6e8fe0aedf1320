/** Chunked coding written out, and the loops that read it back (section 4.1 of RFC 7230). */
module Chunked {
  import opened Strings
  import opened Numbers
  import opened Fields
  import opened Framing
  import opened RoundTrip
  import opened Normalisation

  // ------------------------------------------------------------------ chunks

  /** A chunk: its header line, with extensions, and its data. */
  datatype Chunk = Chunk(line: string, data: string)

  ghost predicate IsChunk(rules: Rules, x: Chunk) {
    NoCrlf(x.line) && x.data != "" && rules.chunkSize(x.line) == Some(|x.data|)
  }

  /** The header line of the last chunk, with size zero. */
  ghost predicate IsLast(rules: Rules, line: string) {
    NoCrlf(line) && rules.chunkSize(line) == Some(0)
  }

  predicate LineAt(t: string, c: nat, line: string) {
    OccursAt(t, line, c) && OccursAt(t, CRLF, c + |line|)
  }

  predicate ChunkAt(t: string, c: nat, x: Chunk) {
    LineAt(t, c, x.line) && LineAt(t, c + |x.line| + 2, x.data)
  }

  function ChunkSpan(x: Chunk): nat {
    |x.line| + |x.data| + 4
  }

  /** From cursor `c` stand chunks and the header line of the last one; `body` is their data behind `acc`, and `next` is
      the cursor behind it all. */
  ghost predicate ChunksAt(rules: Rules, t: string, c: nat, acc: string, xs: seq<Chunk>, last: string,
                           body: string, next: nat)
    decreases |xs|
  {
    if xs == [] then
      IsLast(rules, last) && LineAt(t, c, last) && body == acc && next == c + |last| + 2
    else
      && IsChunk(rules, xs[0]) && ChunkAt(t, c, xs[0])
      && ChunksAt(rules, t, c + ChunkSpan(xs[0]), acc + xs[0].data, xs[1..], last, body, next)
  }

  /** The first CRLF behind a line that holds none is the one that ends it. */
  lemma LineEndsAt(t: string, c: nat, line: string)
    requires NoCrlf(line) && LineAt(t, c, line)
    ensures Find(t, CRLF, c) == Some(c + |line|) && t[c..c + |line|] == line
  {
    OccursCrlf(t, c + |line|);
    forall j | c <= j < c + |line|
      ensures !OccursAt(t, CRLF, j)
    {
      OccursCrlf(t, j);
      OccursIndex(t, line, c, j - c);
      if j + 1 < c + |line| {
        OccursIndex(t, line, c, j + 1 - c);
      }
    }
    FindIs(t, CRLF, c, c + |line|);
  }

  lemma ChunkRead(rules: Rules, t: string, c: nat, x: Chunk)
    requires IsChunk(rules, x) && ChunkAt(t, c, x)
    ensures ReadChunk(rules, t, c) == Ok(x.data, c + ChunkSpan(x))
  {
    LineEndsAt(t, c, x.line);
  }

  lemma LastRead(rules: Rules, t: string, c: nat, line: string)
    requires IsLast(rules, line) && LineAt(t, c, line)
    ensures ReadChunk(rules, t, c) == Ok("", c + |line| + 2)
  {
    LineEndsAt(t, c, line);
  }

  lemma TurnTaken(rules: Rules, t: string, c: nat, acc: string, data: string, next: nat)
    requires ReadChunk(rules, t, c) == Ok(data, next) && data != ""
    ensures ReadChunks(rules, t, c, acc) == ReadChunks(rules, t, next, acc + data)
  {
  }

  lemma OneMoreRead(rules: Rules, t: string, c: nat, acc: string, x: Chunk)
    requires IsChunk(rules, x) && ChunkAt(t, c, x)
    ensures ReadChunks(rules, t, c, acc) == ReadChunks(rules, t, c + ChunkSpan(x), acc + x.data)
  {
    ChunkRead(rules, t, c, x);
    TurnTaken(rules, t, c, acc, x.data, c + ChunkSpan(x));
  }

  lemma NoMoreRead(rules: Rules, t: string, c: nat, acc: string, line: string)
    requires IsLast(rules, line) && LineAt(t, c, line)
    ensures ReadChunks(rules, t, c, acc) == Ok(acc, c + |line| + 2)
  {
    LastRead(rules, t, c, line);
  }

  /** `read` takes chunks one by one, and the last one. */
  ghost predicate TakesChunks(read: (nat, string) -> Scan<string>, rules: Rules, t: string) {
    && (forall c: nat, acc, x {:trigger read(c, acc), ChunkAt(t, c, x)} ::
          IsChunk(rules, x) && ChunkAt(t, c, x) ==> read(c, acc) == read(c + ChunkSpan(x), acc + x.data))
    && (forall c: nat, acc, line {:trigger read(c, acc), LineAt(t, c, line)} ::
          IsLast(rules, line) && LineAt(t, c, line) ==> read(c, acc) == Ok(acc, c + |line| + 2))
  }

  lemma {:induction false} ChunksTaken(read: (nat, string) -> Scan<string>, rules: Rules, t: string, c: nat,
                                       acc: string, xs: seq<Chunk>, last: string, body: string, next: nat)
    requires TakesChunks(read, rules, t) && ChunksAt(rules, t, c, acc, xs, last, body, next)
    ensures read(c, acc) == Ok(body, next)
    decreases |xs|
  {
    if xs != [] {
      ChunksTaken(read, rules, t, c + ChunkSpan(xs[0]), acc + xs[0].data, xs[1..], last, body, next);
    }
  }

  ghost function ChunkLoop(rules: Rules, t: string): (nat, string) -> Scan<string> {
    (c: nat, acc: string) => ReadChunks(rules, t, c, acc)
  }

  lemma ChunkLoopTakes(rules: Rules, t: string)
    ensures TakesChunks(ChunkLoop(rules, t), rules, t)
  {
    var read := ChunkLoop(rules, t);
    forall c: nat, acc, x | IsChunk(rules, x) && ChunkAt(t, c, x)
      ensures read(c, acc) == read(c + ChunkSpan(x), acc + x.data)
    {
      OneMoreRead(rules, t, c, acc, x);
    }
    forall c: nat, acc, line | IsLast(rules, line) && LineAt(t, c, line)
      ensures read(c, acc) == Ok(acc, c + |line| + 2)
    {
      NoMoreRead(rules, t, c, acc, line);
    }
  }

  lemma ChunksRead(rules: Rules, t: string, c: nat, acc: string, xs: seq<Chunk>, last: string, body: string, next: nat)
    requires ChunksAt(rules, t, c, acc, xs, last, body, next)
    ensures ReadChunks(rules, t, c, acc) == Ok(body, next)
  {
    ChunkLoopTakes(rules, t);
    ChunksTaken(ChunkLoop(rules, t), rules, t, c, acc, xs, last, body, next);
  }

  /** What an accepting turn of the loop has read: the last header line, or a whole chunk. */
  lemma ChunkDecoded(rules: Rules, t: string, c: nat) returns (x: Chunk)
    requires ReadChunk(rules, t, c).Ok?
    ensures x.data == ReadChunk(rules, t, c).value
    ensures x.data == "" ==>
              IsLast(rules, x.line) && LineAt(t, c, x.line) && ReadChunk(rules, t, c).next == c + |x.line| + 2
    ensures x.data != "" ==>
              IsChunk(rules, x) && ChunkAt(t, c, x) && ReadChunk(rules, t, c).next == c + ChunkSpan(x)
  {
    var e := Find(t, CRLF, c).value;
    LineHasNoCrlf(t, c, e);
    x := Chunk(t[c..e], ReadChunk(rules, t, c).value);
  }

  lemma TurnDecoded(rules: Rules, t: string, c: nat, acc: string, body: string, next: nat) returns (x: Chunk)
    requires ReadChunks(rules, t, c, acc) == Ok(body, next)
    ensures x.data == "" ==> ChunksAt(rules, t, c, acc, [], x.line, body, next)
    ensures x.data != "" ==>
              && IsChunk(rules, x) && ChunkAt(t, c, x) && c + ChunkSpan(x) <= |t|
              && ReadChunks(rules, t, c + ChunkSpan(x), acc + x.data) == Ok(body, next)
  {
    x := ChunkDecoded(rules, t, c);
  }

  lemma {:induction false} ChunksDecoded(rules: Rules, t: string, c: nat, acc: string, body: string, next: nat)
    returns (xs: seq<Chunk>, last: string)
    requires ReadChunks(rules, t, c, acc) == Ok(body, next)
    ensures ChunksAt(rules, t, c, acc, xs, last, body, next)
    decreases |t| - c
  {
    var x := TurnDecoded(rules, t, c, acc, body, next);
    if x.data == "" {
      return [], x.line;
    }
    var rest;
    rest, last := ChunksDecoded(rules, t, c + ChunkSpan(x), acc + x.data, body, next);
    ChunkInFront(rules, t, c, acc, x, rest, last, body, next);
    return [x] + rest, last;
  }

  lemma ChunkInFront(rules: Rules, t: string, c: nat, acc: string, x: Chunk, xs: seq<Chunk>, last: string,
                     body: string, next: nat)
    requires IsChunk(rules, x) && ChunkAt(t, c, x)
    requires ChunksAt(rules, t, c + ChunkSpan(x), acc + x.data, xs, last, body, next)
    ensures ChunksAt(rules, t, c, acc, [x] + xs, last, body, next)
  {
    assert ([x] + xs)[1..] == xs;
  }

  // ------------------------------------------------------------------ chunks as text

  function ChunkText(x: Chunk): string {
    (x.line + CRLF) + (x.data + CRLF)
  }

  function Text(xs: seq<Chunk>): string {
    if xs == [] then "" else ChunkText(xs[0]) + Text(xs[1..])
  }

  function Data(xs: seq<Chunk>): string {
    if xs == [] then "" else xs[0].data + Data(xs[1..])
  }

  ghost predicate AllChunks(rules: Rules, xs: seq<Chunk>) {
    forall i :: 0 <= i < |xs| ==> IsChunk(rules, xs[i])
  }

  lemma ChunkAtText(t: string, c: nat, x: Chunk)
    ensures ChunkAt(t, c, x) <==> OccursAt(t, ChunkText(x), c)
    ensures |ChunkText(x)| == ChunkSpan(x)
  {
    OccursConcat(t, x.line + CRLF, x.data + CRLF, c);
    OccursConcat(t, x.line, CRLF, c);
    OccursConcat(t, x.data, CRLF, c + |x.line| + 2);
  }

  lemma Assoc(a: string, b: string, c: string)
    ensures (a + b) + c == a + (b + c)
  {
  }

  /** The same in terms of the text. */
  ghost predicate TextAt(rules: Rules, t: string, c: nat, acc: string, xs: seq<Chunk>, last: string,
                         body: string, next: nat) {
    && AllChunks(rules, xs) && IsLast(rules, last) && OccursAt(t, Text(xs) + (last + CRLF), c)
    && body == acc + Data(xs) && next == c + |Text(xs)| + |last| + 2
  }

  lemma TextInFront(t: string, c: nat, x: Chunk, rest: seq<Chunk>, end: string)
    ensures var xs := [x] + rest;
            && (OccursAt(t, Text(xs) + end, c) <==> ChunkAt(t, c, x) && OccursAt(t, Text(rest) + end, c + ChunkSpan(x)))
            && |Text(xs)| == ChunkSpan(x) + |Text(rest)|
  {
    var xs := [x] + rest;
    assert xs[1..] == rest;
    ChunkAtText(t, c, x);
    Assoc(ChunkText(x), Text(rest), end);
    OccursConcat(t, ChunkText(x), Text(rest) + end, c);
  }

  lemma DataInFront(acc: string, x: Chunk, rest: seq<Chunk>)
    ensures acc + Data([x] + rest) == (acc + x.data) + Data(rest)
  {
    assert ([x] + rest)[1..] == rest;
    Assoc(acc, x.data, Data(rest));
  }

  lemma TextAtStep(rules: Rules, t: string, c: nat, acc: string, x: Chunk, rest: seq<Chunk>, last: string,
                   body: string, next: nat)
    ensures TextAt(rules, t, c, acc, [x] + rest, last, body, next) <==>
            && IsChunk(rules, x) && ChunkAt(t, c, x)
            && TextAt(rules, t, c + ChunkSpan(x), acc + x.data, rest, last, body, next)
  {
    TextInFront(t, c, x, rest, last + CRLF);
    DataInFront(acc, x, rest);
    AllInFront(rules, x, rest);
  }

  lemma AllInFront(rules: Rules, x: Chunk, rest: seq<Chunk>)
    ensures AllChunks(rules, [x] + rest) <==> IsChunk(rules, x) && AllChunks(rules, rest)
  {
    var xs := [x] + rest;
    if AllChunks(rules, xs) {
      assert xs[0] == x && forall i :: 0 <= i < |rest| ==> rest[i] == xs[i + 1];
    }
  }

  /** The chunks stand there exactly if their text does. */
  lemma {:induction false} ChunksAtText(rules: Rules, t: string, c: nat, acc: string, xs: seq<Chunk>,
                                        last: string, body: string, next: nat)
    ensures ChunksAt(rules, t, c, acc, xs, last, body, next) <==> TextAt(rules, t, c, acc, xs, last, body, next)
    decreases |xs|
  {
    if xs == [] {
      NoTextAt(rules, t, c, acc, last, body, next);
      return;
    }
    assert xs == [xs[0]] + xs[1..];
    TextAtStep(rules, t, c, acc, xs[0], xs[1..], last, body, next);
    ChunksAtText(rules, t, c + ChunkSpan(xs[0]), acc + xs[0].data, xs[1..], last, body, next);
  }

  lemma NoTextAt(rules: Rules, t: string, c: nat, acc: string, last: string, body: string, next: nat)
    ensures TextAt(rules, t, c, acc, [], last, body, next) <==>
            IsLast(rules, last) && LineAt(t, c, last) && body == acc && next == c + |last| + 2
  {
    assert Text([]) + (last + CRLF) == last + CRLF && acc + Data([]) == acc;
    OccursConcat(t, last, CRLF, c);
  }

  // ------------------------------------------------------------------ chunk headers of the standard

  /** `chunk-size [ chunk-ext ]`: hexadecimal digits, then nothing or a part that starts with a semicolon. */
  predicate LegalHeader(digits: string, ext: string, n: nat) {
    && digits != "" && AllDigits(digits, 16) && ValueOf(digits, 16) == n < TWO_32
    && (ext == "" || ext[0] == ';') && CR !in ext && LF !in ext
  }

  lemma HeaderText(digits: string, ext: string, n: nat)
    requires LegalHeader(digits, ext, n)
    ensures NoCrlf(digits + ext) && ChunkSizeText(digits + ext) == digits
  {
    var line := digits + ext;
    forall i | 0 <= i < |digits|
      ensures digits[i] != ';' && digits[i] != CR && digits[i] != LF
    {
      assert IsDigit(digits[i], 16);
    }
    assert LF !in line;
    if ext == "" {
      assert line == digits;
      FindChar(line, ';', 0);
    } else {
      FindCharIs(line, ';', 0, |digits|);
      assert line[..|digits|] == digits;
    }
  }

  lemma LegalHeaderRead(rules: Rules, strict: bool, digits: string, ext: string, n: nat)
    requires ReadAs(rules, strict) && LegalHeader(digits, ext, n)
    ensures NoCrlf(digits + ext) && rules.chunkSize(digits + ext) == Some(n)
  {
    HeaderText(digits, ext, n);
    assert rules.chunkSize(digits + ext) == ChunkSize(digits + ext);
    StoulReadsDigits(digits, 16);
  }

  // ------------------------------------------------------------------ trailers

  /** A trailer field; optional whitespace around the value is part of `raw`. */
  datatype Trailer = Trailer(name: string, raw: string)

  function TrailerLine(x: Trailer): string {
    x.name + ":" + x.raw
  }

  function TrailerText(x: Trailer): string {
    TrailerLine(x) + CRLF
  }

  function TrailersText(ts: seq<Trailer>): string {
    if ts == [] then "" else TrailerText(ts[0]) + TrailersText(ts[1..])
  }

  /** A trailer a sender may generate behind the fields of `h`: no field that frames or routes the message, and
      no repetition of a field that is not a list. */
  ghost predicate LegalTrailer(h: Headers, x: Trailer) {
    && ValidName(x.name) && !ForbiddenInTrailer(x.name)
    && NoCrlf(x.raw)
    && (x.name in h ==> CanRepeat(x.name))
  }

  ghost predicate LegalTrailers(h: Headers, ts: seq<Trailer>)
    decreases |ts|
  {
    ts == [] || (LegalTrailer(h, ts[0]) && LegalTrailers(Joined(h, ts[0]), ts[1..]))
  }

  /** The fields with one trailer added; one that may not be repeated changes nothing. */
  function Joined(h: Headers, x: Trailer): Headers {
    match AddField(h, x.name, Trim(x.raw))
    case Some(all) => all
    case None => h
  }

  function JoinAll(h: Headers, ts: seq<Trailer>): Headers
    decreases |ts|
  {
    if ts == [] then h else JoinAll(Joined(h, ts[0]), ts[1..])
  }

  /** From cursor `c` stand legal trailers and the empty line; `all` are the fields with them, `next` is the cursor
      behind. */
  ghost predicate TrailersAt(t: string, c: nat, h: Headers, ts: seq<Trailer>, all: Headers, next: nat)
    decreases |ts|
  {
    if ts == [] then
      OccursAt(t, CRLF, c) && all == h && next == c + 2
    else
      && LegalTrailer(h, ts[0]) && LineAt(t, c, TrailerLine(ts[0]))
      && TrailersAt(t, c + |TrailerLine(ts[0])| + 2, Joined(h, ts[0]), ts[1..], all, next)
  }

  lemma TrailerLineClean(x: Trailer)
    requires LineName(x.name) && NoCrlf(x.raw)
    ensures NoCrlf(TrailerLine(x))
  {
    var line := TrailerLine(x);
    forall i | 0 <= i && i + 1 < |line|
      ensures !(line[i] == CR && line[i + 1] == LF)
    {
      if i < |x.name| {
        assert line[i] == x.name[i];
      } else if i > |x.name| {
        assert line[i] == x.raw[i - |x.name| - 1] && line[i + 1] == x.raw[i - |x.name|];
      }
    }
  }

  lemma TrailerRead(rules: Rules, h: Headers, x: Trailer)
    requires ReadAs(rules, true) && LegalTrailer(h, x)
    ensures rules.addTrailer(h, TrailerLine(x)) == Some(Joined(h, x))
    ensures NoCrlf(TrailerLine(x))
  {
    var line := TrailerLine(x);
    assert rules.addTrailer(h, line) == AddTrailer(true, h, line);
    NameHasNoColon(x.name);
    FindColon(x.name, x.raw);
    assert line[..|x.name|] == x.name;
    assert line[|x.name| + 1..] == x.raw;
    TrailerLineClean(x);
  }

  lemma TrailerStep(rules: Rules, t: string, c: nat, h: Headers, x: Trailer)
    requires ReadAs(rules, true) && LegalTrailer(h, x) && LineAt(t, c, TrailerLine(x))
    ensures ReadTrailers(rules, t, c, h) == ReadTrailers(rules, t, c + |TrailerLine(x)| + 2, Joined(h, x))
  {
    TrailerRead(rules, h, x);
    LineEndsAt(t, c, TrailerLine(x));
  }

  lemma EmptyLineRead(rules: Rules, t: string, c: nat, h: Headers)
    requires OccursAt(t, CRLF, c)
    ensures ReadTrailers(rules, t, c, h) == Ok(h, c + 2)
  {
    FindIs(t, CRLF, c, c);
  }

  lemma {:induction false} TrailersRead(rules: Rules, t: string, c: nat, h: Headers, ts: seq<Trailer>,
                                        all: Headers, next: nat)
    requires ReadAs(rules, true) && TrailersAt(t, c, h, ts, all, next)
    ensures ReadTrailers(rules, t, c, h) == Ok(all, next)
    decreases |ts|
  {
    if ts == [] {
      EmptyLineRead(rules, t, c, h);
    } else {
      TrailerStep(rules, t, c, h, ts[0]);
      TrailersRead(rules, t, c + |TrailerLine(ts[0])| + 2, Joined(h, ts[0]), ts[1..], all, next);
    }
  }

  lemma AcceptedTrailer(rules: Rules, h: Headers, line: string) returns (x: Trailer)
    requires ReadAs(rules, true) && NoCrlf(line) && rules.addTrailer(h, line).Some?
    ensures LegalTrailer(h, x) && TrailerLine(x) == line && rules.addTrailer(h, line) == Some(Joined(h, x))
  {
    assert rules.addTrailer(h, line) == AddTrailer(true, h, line);
    FindChar(line, ':', 0);
    var p := Find(line, ":", 0).value;
    x := Trailer(line[..p], line[p + 1..]);
    assert forall i :: 0 <= i < |x.raw| ==> x.raw[i] == line[p + 1 + i];
  }

  lemma TrailerDecoded(rules: Rules, t: string, c: nat, h: Headers) returns (x: Trailer)
    requires ReadAs(rules, true) && ReadTrailers(rules, t, c, h).Ok? && Find(t, CRLF, c) != Some(c)
    ensures LegalTrailer(h, x) && LineAt(t, c, TrailerLine(x))
  {
    var e := Find(t, CRLF, c).value;
    LineHasNoCrlf(t, c, e);
    x := AcceptedTrailer(rules, h, t[c..e]);
  }

  lemma {:induction false} TrailersDecoded(rules: Rules, t: string, c: nat, h: Headers, all: Headers,
                                           next: nat) returns (ts: seq<Trailer>)
    requires ReadAs(rules, true) && ReadTrailers(rules, t, c, h) == Ok(all, next)
    ensures TrailersAt(t, c, h, ts, all, next)
    decreases |t| - c
  {
    if Find(t, CRLF, c) == Some(c) {
      ts := [];
      return;
    }
    var x := TrailerDecoded(rules, t, c, h);
    TrailerStep(rules, t, c, h, x);
    ts := TrailersDecoded(rules, t, c + |TrailerLine(x)| + 2, Joined(h, x), all, next);
    TrailerInFront(t, c, h, x, ts, all, next);
    ts := [x] + ts;
  }

  lemma TrailerInFront(t: string, c: nat, h: Headers, x: Trailer, ts: seq<Trailer>, all: Headers, next: nat)
    requires LegalTrailer(h, x) && LineAt(t, c, TrailerLine(x))
    requires TrailersAt(t, c + |TrailerLine(x)| + 2, Joined(h, x), ts, all, next)
    ensures TrailersAt(t, c, h, [x] + ts, all, next)
  {
    assert ([x] + ts)[1..] == ts;
  }

  ghost predicate TrailersTextAt(t: string, c: nat, h: Headers, ts: seq<Trailer>, all: Headers, next: nat) {
    && LegalTrailers(h, ts) && OccursAt(t, TrailersText(ts) + CRLF, c)
    && all == JoinAll(h, ts) && next == c + |TrailersText(ts)| + 2
  }

  lemma TrailersTextOf(ts: seq<Trailer>)
    requires ts != []
    ensures TrailersText(ts) == (TrailerLine(ts[0]) + CRLF) + TrailersText(ts[1..])
  {
  }

  lemma LineAndRest(t: string, c: nat, line: string, rest: string, all: string)
    requires all == (line + CRLF) + rest
    ensures OccursAt(t, all + CRLF, c) <==> LineAt(t, c, line) && OccursAt(t, rest + CRLF, c + |line| + 2)
    ensures |all| == |line| + 2 + |rest|
  {
    Assoc(line + CRLF, rest, CRLF);
    LineInFront(t, c, line, rest + CRLF);
  }

  lemma TrailerTextInFront(t: string, c: nat, ts: seq<Trailer>)
    requires ts != []
    ensures var n := |TrailerLine(ts[0])| + 2;
            && (OccursAt(t, TrailersText(ts) + CRLF, c) <==>
                LineAt(t, c, TrailerLine(ts[0])) && OccursAt(t, TrailersText(ts[1..]) + CRLF, c + n))
            && |TrailersText(ts)| == n + |TrailersText(ts[1..])|
  {
    TrailersTextOf(ts);
    LineAndRest(t, c, TrailerLine(ts[0]), TrailersText(ts[1..]), TrailersText(ts));
  }

  lemma LineInFront(t: string, c: nat, line: string, rest: string)
    ensures OccursAt(t, (line + CRLF) + rest, c) <==> LineAt(t, c, line) && OccursAt(t, rest, c + |line| + 2)
  {
    OccursConcat(t, line, CRLF, c);
    OccursConcat(t, line + CRLF, rest, c);
  }

  lemma TrailersTextStep(t: string, c: nat, h: Headers, ts: seq<Trailer>, all: Headers, next: nat)
    requires ts != []
    ensures TrailersTextAt(t, c, h, ts, all, next) <==>
            && LegalTrailer(h, ts[0]) && LineAt(t, c, TrailerLine(ts[0]))
            && TrailersTextAt(t, c + |TrailerLine(ts[0])| + 2, Joined(h, ts[0]), ts[1..], all, next)
  {
    TrailerTextInFront(t, c, ts);
  }

  /** The trailers stand there exactly if their text does. */
  lemma {:induction false} TrailersAtText(t: string, c: nat, h: Headers, ts: seq<Trailer>, all: Headers, next: nat)
    ensures TrailersAt(t, c, h, ts, all, next) <==> TrailersTextAt(t, c, h, ts, all, next)
    decreases |ts|
  {
    if ts == [] {
      assert TrailersText(ts) + CRLF == CRLF;
      return;
    }
    TrailersTextStep(t, c, h, ts, all, next);
    TrailersAtText(t, c + |TrailerLine(ts[0])| + 2, Joined(h, ts[0]), ts[1..], all, next);
  }

  // ------------------------------------------------------------------ the whole body

  /** A chunked body as section 4.1 of RFC 7230 writes it. */
  function EncodeBody(xs: seq<Chunk>, last: string, ts: seq<Trailer>): string {
    (Text(xs) + (last + CRLF)) + (TrailersText(ts) + CRLF)
  }

  /** A chunked coding at cursor `c`: any chunks with header lines that are read as their sizes, any legal trailers.
      `content` is what the decoding algorithm of section 4.1.3 makes of it: the data, and the fields with the
      trailers appended, Content-Length set, Transfer-Encoding and Trailer removed. */
  ghost predicate EncodedAt(rules: Rules, t: string, c: nat, h: Headers, xs: seq<Chunk>, last: string, ts: seq<Trailer>,
                            content: Content, next: nat) {
    && AllChunks(rules, xs) && IsLast(rules, last) && LegalTrailers(h, ts)
    && OccursAt(t, EncodeBody(xs, last, ts), c) && next == c + |EncodeBody(xs, last, ts)|
    && content == Content(Normalised(rules, JoinAll(h, ts), |Data(xs)|), Data(xs))
  }

  /** The same in two parts. */
  ghost predicate PartsAt(rules: Rules, t: string, c: nat, h: Headers, xs: seq<Chunk>, last: string, ts: seq<Trailer>,
                          content: Content, next: nat, middle: nat, all: Headers) {
    && ChunksAt(rules, t, c, "", xs, last, content.body, middle)
    && TrailersAt(t, middle, h, ts, all, next)
    && content.headers == Normalised(rules, all, |content.body|)
  }

  /** And in terms of their texts. */
  ghost predicate TextsAt(rules: Rules, t: string, c: nat, h: Headers, xs: seq<Chunk>, last: string, ts: seq<Trailer>,
                          content: Content, next: nat, middle: nat, all: Headers) {
    && TextAt(rules, t, c, "", xs, last, content.body, middle)
    && TrailersTextAt(t, middle, h, ts, all, next)
    && content.headers == Normalised(rules, all, |content.body|)
  }

  lemma EncodedInTexts(rules: Rules, t: string, c: nat, h: Headers, xs: seq<Chunk>, last: string, ts: seq<Trailer>,
                       content: Content, next: nat, middle: nat, all: Headers)
    ensures TextsAt(rules, t, c, h, xs, last, ts, content, next, middle, all) <==>
            && EncodedAt(rules, t, c, h, xs, last, ts, content, next)
            && middle == c + |Text(xs)| + |last| + 2 && all == JoinAll(h, ts)
  {
    OccursConcat(t, Text(xs) + (last + CRLF), TrailersText(ts) + CRLF, c);
    assert "" + Data(xs) == Data(xs);
  }

  lemma EncodedInParts(rules: Rules, t: string, c: nat, h: Headers, xs: seq<Chunk>, last: string, ts: seq<Trailer>,
                       content: Content, next: nat, middle: nat, all: Headers)
    ensures PartsAt(rules, t, c, h, xs, last, ts, content, next, middle, all) <==>
            && EncodedAt(rules, t, c, h, xs, last, ts, content, next)
            && middle == c + |Text(xs)| + |last| + 2 && all == JoinAll(h, ts)
  {
    ChunksAtText(rules, t, c, "", xs, last, content.body, middle);
    TrailersAtText(t, middle, h, ts, all, next);
    EncodedInTexts(rules, t, c, h, xs, last, ts, content, next, middle, all);
  }

  /** The loops accept exactly the chunked codings whose header lines the parser reads as the sizes of the data (for
      which lines those are see `StandardCoding`), return what the algorithm of the standard makes of them, and
      consume exactly their bytes. */
  lemma ChunkedExactly(rules: Rules, t: string, c: nat, h: Headers, content: Content, next: nat)
    requires ReadAs(rules, true)
    ensures ReadChunked(rules, t, c, h) == Ok(content, next) <==>
            exists xs, last, ts :: EncodedAt(rules, t, c, h, xs, last, ts, content, next)
  {
    if ReadChunked(rules, t, c, h) == Ok(content, next) {
      var xs, last, ts := ChunkedDecoded(rules, t, c, h, content, next);
    }
    if xs, last, ts :| EncodedAt(rules, t, c, h, xs, last, ts, content, next) {
      ChunkedRead(rules, t, c, h, xs, last, ts, content, next);
    }
  }

  lemma ChunkedDecoded(rules: Rules, t: string, c: nat, h: Headers, content: Content, next: nat)
    returns (xs: seq<Chunk>, last: string, ts: seq<Trailer>)
    requires ReadAs(rules, true) && ReadChunked(rules, t, c, h) == Ok(content, next)
    ensures EncodedAt(rules, t, c, h, xs, last, ts, content, next)
  {
    var chunks := ReadChunks(rules, t, c, "");
    var trailers := ReadTrailers(rules, t, chunks.next, h);
    xs, last := ChunksDecoded(rules, t, c, "", chunks.value, chunks.next);
    ts := TrailersDecoded(rules, t, chunks.next, h, trailers.value, trailers.next);
    EncodedInParts(rules, t, c, h, xs, last, ts, content, next, chunks.next, trailers.value);
  }

  /** Decoding inverts every chunked coding. */
  lemma ChunkedRead(rules: Rules, t: string, c: nat, h: Headers, xs: seq<Chunk>, last: string, ts: seq<Trailer>,
                    content: Content, next: nat)
    requires ReadAs(rules, true) && EncodedAt(rules, t, c, h, xs, last, ts, content, next)
    ensures ReadChunked(rules, t, c, h) == Ok(content, next)
  {
    var middle, all := c + |Text(xs)| + |last| + 2, JoinAll(h, ts);
    EncodedInParts(rules, t, c, h, xs, last, ts, content, next, middle, all);
    ChunksRead(rules, t, c, "", xs, last, content.body, middle);
    TrailersRead(rules, t, middle, h, ts, all, next);
  }
}
