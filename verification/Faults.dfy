/** Faulty chunks behind good ones: what makes the request parser throw, and what it refuses. */
module Faults {
  import opened Strings
  import opened Fields
  import opened Framing
  import opened Messages
  import opened Scanning
  import opened Requests
  import opened RoundTrip
  import opened Normalisation
  import opened Repetition
  import opened Wire
  import opened Chunked
  import opened WrittenRequests

  /** A loop that takes chunks goes over the text of good ones. */
  lemma {:induction false} ChunksSkipped(read: (nat, string) -> Scan<string>, rules: Rules, t: string, c: nat,
                                         acc: string, xs: seq<Chunk>)
    requires TakesChunks(read, rules, t) && AllChunks(rules, xs) && OccursAt(t, Text(xs), c)
    ensures read(c, acc) == read(c + |Text(xs)|, acc + Data(xs))
    decreases |xs|
  {
    if xs == [] {
      assert acc + Data(xs) == acc;
      return;
    }
    FirstOfChunks(rules, t, c, acc, xs[0], xs[1..], xs);
    ChunksSkipped(read, rules, t, c + ChunkSpan(xs[0]), acc + xs[0].data, xs[1..]);
  }

  lemma FirstOfChunks(rules: Rules, t: string, c: nat, acc: string, x: Chunk, rest: seq<Chunk>, xs: seq<Chunk>)
    requires xs == [x] + rest && AllChunks(rules, xs) && OccursAt(t, Text(xs), c)
    ensures IsChunk(rules, x) && ChunkAt(t, c, x) && AllChunks(rules, rest)
    ensures OccursAt(t, Text(rest), c + ChunkSpan(x)) && c + |Text(xs)| == c + ChunkSpan(x) + |Text(rest)|
    ensures acc + Data(xs) == acc + x.data + Data(rest)
  {
    assert Text(xs) + "" == Text(xs) && Text(rest) + "" == Text(rest);
    TextInFront(t, c, x, rest, "");
    DataInFront(acc, x, rest);
    AllInFront(rules, x, rest);
  }

  /** So does the chunk loop. */
  lemma LoopSkips(rules: Rules, t: string, c: nat, xs: seq<Chunk>)
    requires AllChunks(rules, xs) && OccursAt(t, Text(xs), c)
    ensures ReadChunks(rules, t, c, "") == ReadChunks(rules, t, c + |Text(xs)|, Data(xs))
  {
    ChunkLoopTakes(rules, t);
    ChunksSkipped(ChunkLoop(rules, t), rules, t, c, "", xs);
    assert "" + Data(xs) == Data(xs);
  }

  lemma HeaderThrows(rules: Rules, t: string, c: nat, acc: string, line: string)
    requires LineAt(t, c, line) && NoCrlf(line) && rules.chunkSize(line).None?
    ensures ReadChunks(rules, t, c, acc).Raise?
  {
    LineEndsAt(t, c, line);
  }

  lemma DataRefused(rules: Rules, t: string, c: nat, acc: string, line: string, n: nat, data: string)
    requires LineAt(t, c, line) && NoCrlf(line) && rules.chunkSize(line) == Some(n) && 0 < n
    requires |data| == n + 2 && data[n..] != CRLF && OccursAt(t, data, c + |line| + 2)
    ensures ReadChunks(rules, t, c, acc).Bad?
  {
    LineEndsAt(t, c, line);
    var d := c + |line| + 2;
    assert t[d + n..d + n + 2] == t[d..d + n + 2][n..];
  }

  /** A body whose chunk loop throws or refuses. */
  lemma FaultyBody(rules: Rules, t: string, n: nat, f: Section)
    requires n <= |t| && f.chunked && TRANSFER_ENCODING in f.headers
    ensures ReadChunks(rules, t, n, "").Bad? ==> ReadBody(rules, t, n, f).Bad?
    ensures ReadChunks(rules, t, n, "").Raise? ==> ReadBody(rules, t, n, f).Raise?
  {
  }

  lemma ThrowingVerdict(g: Grammar<Request>, style: LengthStyle, t: string, start: StartLine, f: Section, n: nat)
    requires g == RequestGrammar(style) && HeadIsRead(g, t, start, f, n)
    ensures ReadBody(g.rules, t, n, f).Raise? ==> ParseRequest(style, t).Raise?
    ensures ReadBody(g.rules, t, n, f).Bad? ==> ParseRequest(style, t).Bad?
  {
    assert t[0..] == t;
    assert RequestScanner(style).message(t) == ReadMessage(g, t);
  }

  // ------------------------------------------------------------------ exactly where the loop stops

  lemma OneMoreChunk(rules: Rules, t: string, c: nat, x: Chunk, rest: seq<Chunk>)
    requires IsChunk(rules, x) && ChunkAt(t, c, x) && AllChunks(rules, rest)
    requires OccursAt(t, Text(rest), c + ChunkSpan(x))
    ensures AllChunks(rules, [x] + rest) && OccursAt(t, Text([x] + rest), c)
    ensures c + |Text([x] + rest)| == c + ChunkSpan(x) + |Text(rest)|
  {
    assert Text(rest) + "" == Text(rest) && Text([x] + rest) + "" == Text([x] + rest);
    TextInFront(t, c, x, rest, "");
    AllInFront(rules, x, rest);
  }

  /** The turn at `c` reads no data: it waits, throws, refuses, or reads the last chunk. */
  ghost predicate StopsAt(rules: Rules, t: string, c: nat) {
    ReadChunk(rules, t, c).Ok? ==> ReadChunk(rules, t, c).value == ""
  }

  lemma TurnSplit(rules: Rules, t: string, c: nat) returns (x: Chunk)
    requires !StopsAt(rules, t, c)
    ensures IsChunk(rules, x) && ChunkAt(t, c, x) && c + ChunkSpan(x) <= |t|
  {
    x := ChunkDecoded(rules, t, c);
  }

  /** Over good chunks the loop comes to such a turn. */
  lemma {:induction false} ChunksSplit(rules: Rules, t: string, c: nat) returns (xs: seq<Chunk>)
    requires c <= |t|
    ensures AllChunks(rules, xs) && OccursAt(t, Text(xs), c) && StopsAt(rules, t, c + |Text(xs)|)
    decreases |t| - c
  {
    if StopsAt(rules, t, c) {
      return [];
    }
    var x := TurnSplit(rules, t, c);
    var rest := ChunksSplit(rules, t, c + ChunkSpan(x));
    OneMoreChunk(rules, t, c, x, rest);
    xs := [x] + rest;
  }

  /** Good chunks, and behind them a header line without a number. */
  ghost predicate NoNumber(rules: Rules, t: string, c: nat, xs: seq<Chunk>, line: string) {
    && AllChunks(rules, xs) && NoCrlf(line) && rules.chunkSize(line).None?
    && OccursAt(t, Text(xs) + (line + CRLF), c)
  }

  /** Good chunks, and behind them a header line and as many bytes as it says, not followed by CRLF. */
  ghost predicate NoEnd(rules: Rules, t: string, c: nat, xs: seq<Chunk>, line: string, data: string) {
    && AllChunks(rules, xs) && NoCrlf(line) && OccursAt(t, Text(xs) + (line + CRLF + data), c)
    && match rules.chunkSize(line)
       case None => false
       case Some(n) => n > 0 && |data| == n + 2 && data[n..] != CRLF
  }

  lemma ThrowsAt(rules: Rules, t: string, d: nat, acc: string) returns (line: string)
    requires ReadChunks(rules, t, d, acc).Raise? && StopsAt(rules, t, d)
    ensures LineAt(t, d, line) && NoCrlf(line) && rules.chunkSize(line).None?
  {
    var e := Find(t, CRLF, d).value;
    LineHasNoCrlf(t, d, e);
    line := t[d..e];
  }

  lemma RefusesAt(rules: Rules, t: string, d: nat, acc: string) returns (line: string, data: string)
    requires ReadChunks(rules, t, d, acc).Bad? && StopsAt(rules, t, d)
    ensures LineAt(t, d, line) && NoCrlf(line) && OccursAt(t, data, d + |line| + 2)
    ensures rules.chunkSize(line).Some?
    ensures var n := rules.chunkSize(line).value; n > 0 && |data| == n + 2 && data[n..] != CRLF
  {
    var e := Find(t, CRLF, d).value;
    LineHasNoCrlf(t, d, e);
    line := t[d..e];
    var n := rules.chunkSize(line).value;
    data := t[e + 2..e + 2 + n + 2];
    assert data[n..] == t[e + 2 + n..e + 2 + n + 2];
  }

  lemma LineFrom(t: string, c: nat, text: string, line: string)
    ensures OccursAt(t, text + (line + CRLF), c) <==> OccursAt(t, text, c) && LineAt(t, c + |text|, line)
  {
    OccursConcat(t, line, CRLF, c + |text|);
    OccursConcat(t, text, line + CRLF, c);
  }

  lemma NoNumberFound(rules: Rules, t: string, c: nat) returns (xs: seq<Chunk>, line: string)
    requires c <= |t| && ReadChunks(rules, t, c, "").Raise?
    ensures NoNumber(rules, t, c, xs, line)
  {
    xs := ChunksSplit(rules, t, c);
    LoopSkips(rules, t, c, xs);
    line := ThrowsAt(rules, t, c + |Text(xs)|, Data(xs));
    LineFrom(t, c, Text(xs), line);
  }

  lemma NoNumberThrows(rules: Rules, t: string, c: nat, xs: seq<Chunk>, line: string)
    requires NoNumber(rules, t, c, xs, line)
    ensures ReadChunks(rules, t, c, "").Raise?
  {
    LineFrom(t, c, Text(xs), line);
    LoopSkips(rules, t, c, xs);
    HeaderThrows(rules, t, c + |Text(xs)|, Data(xs), line);
  }

  lemma EndFrom(t: string, c: nat, text: string, line: string, data: string)
    ensures OccursAt(t, text + (line + CRLF + data), c) <==>
            && OccursAt(t, text, c) && LineAt(t, c + |text|, line)
            && OccursAt(t, data, c + |text| + |line| + 2)
  {
    OccursConcat(t, line, CRLF, c + |text|);
    OccursConcat(t, line + CRLF, data, c + |text|);
    OccursConcat(t, text, line + CRLF + data, c);
  }

  lemma NoEndFound(rules: Rules, t: string, c: nat) returns (xs: seq<Chunk>, line: string, data: string)
    requires c <= |t| && ReadChunks(rules, t, c, "").Bad?
    ensures NoEnd(rules, t, c, xs, line, data)
  {
    xs := ChunksSplit(rules, t, c);
    LoopSkips(rules, t, c, xs);
    line, data := RefusesAt(rules, t, c + |Text(xs)|, Data(xs));
    EndFrom(t, c, Text(xs), line, data);
  }

  lemma NoEndRefused(rules: Rules, t: string, c: nat, xs: seq<Chunk>, line: string, data: string)
    requires NoEnd(rules, t, c, xs, line, data)
    ensures ReadChunks(rules, t, c, "").Bad?
  {
    EndFrom(t, c, Text(xs), line, data);
    LoopSkips(rules, t, c, xs);
    DataRefused(rules, t, c + |Text(xs)|, Data(xs), line, rules.chunkSize(line).value, data);
  }

  /** The chunk loop throws if and only if a header line without a number stands behind good chunks. */
  lemma ThrowsExactly(rules: Rules, t: string, c: nat)
    requires c <= |t|
    ensures ReadChunks(rules, t, c, "").Raise? <==> exists xs, line :: NoNumber(rules, t, c, xs, line)
  {
    if ReadChunks(rules, t, c, "").Raise? {
      var xs, line := NoNumberFound(rules, t, c);
    } else if xs, line :| NoNumber(rules, t, c, xs, line) {
      NoNumberThrows(rules, t, c, xs, line);
    }
  }

  /** It refuses if and only if behind good chunks the bytes a header line announces are not followed by CRLF. */
  lemma RefusesExactly(rules: Rules, t: string, c: nat)
    requires c <= |t|
    ensures ReadChunks(rules, t, c, "").Bad? <==> exists xs, line, data :: NoEnd(rules, t, c, xs, line, data)
  {
    if ReadChunks(rules, t, c, "").Bad? {
      var xs, line, data := NoEndFound(rules, t, c);
    } else if xs, line, data :| NoEnd(rules, t, c, xs, line, data) {
      NoEndRefused(rules, t, c, xs, line, data);
    }
  }

  // ------------------------------------------------------------------ requests

  /** A chunked request throws, or is refused in a chunk, exactly by what stands behind its head. */
  lemma FaultyRequest(style: LengthStyle, verb: string, url: string, xs: seq<Field>, t: string, n: nat)
    requires verb in METHODS && Target(url) && AllWritten(xs) && Announces(xs) && !BadHead(xs)
    requires HeadText(RequestLineText(verb, url), xs) <= t && n == |HeadText(RequestLineText(verb, url), xs)|
    ensures var rules := RequestGrammar(style).rules;
            && ((exists ys, line :: NoNumber(rules, t, n, ys, line)) ==> ParseRequest(style, t).Raise?)
            && ((exists ys, line, data :: NoEnd(rules, t, n, ys, line, data)) ==> ParseRequest(style, t).Bad?)
  {
    var f := Section(Merged(map[], xs), Announces(xs));
    RequestGrammarIs(style);
    AnnouncedNamed(xs);
    GoodHeadRead(RequestGrammar(style), style, verb, url, xs, t, n, f);
    ThrowsExactly(RequestGrammar(style).rules, t, n);
    RefusesExactly(RequestGrammar(style).rules, t, n);
    FaultyBody(RequestGrammar(style).rules, t, n, f);
    ThrowingVerdict(RequestGrammar(style), style, t, RequestLine(verb, url), f, n);
  }
}
