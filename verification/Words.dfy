/** Bodies and turns of the chunk loop in the machine words of the code: `int` cursors, `uint32_t` sizes and sums. These
    are total functions on buffers below 2^31 bytes, whatever the declared lengths; only the chunk loop may go on for
    ever.

    A sum that wraps may move a cursor backwards. This module says exactly when it does, when the chunk loop returns,
    and that on buffers where no sum wraps into the buffer everything is as in unbounded arithmetic. */
module Words {
  import opened Strings
  import opened Numbers
  import opened Fields
  import opened Framing
  import opened Messages
  import opened Scanning
  import opened Bounds

  // ------------------------------------------------------------------ one turn

  /** `std::string::substr` with a position inside the string. */
  function Substr(t: string, pos: nat, n: nat): string
    requires pos <= |t|
  {
    if pos + n <= |t| then t[pos..pos + n] else t[pos..]
  }

  /** One turn of the chunk loop ends the loop with an answer, or at the last chunk, or has read a chunk. */
  datatype WordTurn = Halted(answer: Scan<string>) | LastChunk(next: nat) | OneChunk(data: string, size: nat, next: nat)

  ghost function TurnInWords(rules: Rules, t: string, c: nat): (r: WordTurn)
    ensures r.Halted? ==> !r.answer.Ok?
    ensures !r.Halted? ==> r.next <= |t|
  {
    match Find(t, CRLF, c)
    case None => Halted(More)
    case Some(e) =>
      match rules.chunkSize(t[c..e])
      case None => Halted(Raise)
      case Some(n) => if n == 0 then LastChunk(e + 2) else DataInWords(t, e + 2, n)
  }

  /** The data of a chunk at `d`, and the CRLF behind it; `substr` throws when its position lies outside the string. */
  ghost function DataInWords(t: string, d: nat, n: nat): (r: WordTurn)
    requires d <= |t|
    ensures r.Halted? ==> !r.answer.Ok?
    ensures !r.Halted? ==> r.OneChunk? && r.next <= |t|
  {
    if U32(U32(d + n) + 2) > |t| then Halted(More)
    else if U32(d + n) > |t| then Halted(Raise)
    else if !OccursAt(t, CRLF, U32(d + n)) then Halted(Bad)
    else OneChunk(Substr(t, d, n), n, U32(U32(d + n) + 2))
  }

  /** A sum below 2^33 in 32 bits. */
  lemma Wraps(x: nat)
    requires x < 2 * TWO_32
    ensures U32(x) == if x < TWO_32 then x else x - TWO_32
  {
  }

  /** Exactly when a turn reads a chunk but ends at or before its own start: the end of the chunk wraps to a place at or
      before the cursor, behind a CRLF. */
  lemma TurnGoesBackExactly(rules: Rules, t: string, c: nat, e: nat, n: nat)
    requires |t| < TWO_31 && Find(t, CRLF, c) == Some(e) && rules.chunkSize(t[c..e]) == Some(n) && 0 < n < TWO_32
    ensures var end := e + 2 + n + 2;
            TurnInWords(rules, t, c).OneChunk? && TurnInWords(rules, t, c).next <= c <==>
            TWO_32 + 2 <= end <= TWO_32 + c && OccursAt(t, CRLF, end - TWO_32 - 2)
  {
    var d := e + 2;
    Wraps(d + n);
    Wraps(U32(d + n) + 2);
  }

  /** Where the end of the chunk does not wrap into the buffer, the turn is that of unbounded arithmetic. */
  ghost predicate SameTurn(w: WordTurn, r: Scan<string>) {
    match r
    case Ok(data, next) => w == if data == "" then LastChunk(next) else OneChunk(data, |data|, next)
    case _ => w == Halted(r)
  }

  /** `ReadChunk` behind the header of a chunk. */
  lemma DataRead(rules: Rules, t: string, c: nat, e: nat, n: nat)
    requires Find(t, CRLF, c) == Some(e) && rules.chunkSize(t[c..e]) == Some(n) && 0 < n
    ensures ReadChunk(rules, t, c) ==
            if e + 2 + n + 2 > |t| then More
            else if !OccursAt(t, CRLF, e + 2 + n) then Bad
            else Ok(t[e + 2..e + 2 + n], e + 2 + n + 2)
    ensures TurnInWords(rules, t, c) == DataInWords(t, e + 2, n)
  {
  }

  lemma DataExact(t: string, d: nat, n: nat)
    requires d <= |t| < TWO_31 && 0 < n && (U32(U32(d + n) + 2) > |t| <==> d + n + 2 > |t|)
    ensures DataInWords(t, d, n) ==
            if d + n + 2 > |t| then Halted(More)
            else if !OccursAt(t, CRLF, d + n) then Halted(Bad)
            else OneChunk(t[d..d + n], n, d + n + 2)
  {
    if d + n + 2 <= |t| {
      assert U32(d + n) == d + n;
    }
  }

  lemma TurnExact(rules: Rules, strict: bool, t: string, c: nat)
    requires ReadAs(rules, strict) && |t| < TWO_31 && ChunkFits(rules, t, c)
    ensures SameTurn(TurnInWords(rules, t, c), ReadChunk(rules, t, c))
  {
    if Find(t, CRLF, c).None? { return; }
    var e := Find(t, CRLF, c).value;
    assert rules.chunkSize(t[c..e]) == ChunkSize(t[c..e]);
    if rules.chunkSize(t[c..e]).None? { return; }
    var n := rules.chunkSize(t[c..e]).value;
    if n == 0 { return; }
    DataTurnExact(rules, t, c, e, n);
  }

  lemma DataTurnExact(rules: Rules, t: string, c: nat, e: nat, n: nat)
    requires Find(t, CRLF, c) == Some(e) && rules.chunkSize(t[c..e]) == Some(n) && 0 < n < TWO_32 && |t| < TWO_31
    requires ChunkFits(rules, t, c)
    ensures SameTurn(TurnInWords(rules, t, c), ReadChunk(rules, t, c))
  {
    DataRead(rules, t, c, e, n);
    ChunkTestExact(e + 2, n, |t|);
    DataExact(t, e + 2, n);
  }

  // ------------------------------------------------------------------ the loop

  /** The decoded body and the sum of the sizes in a `uint32_t`. */
  datatype Decoded = Decoded(body: string, total: nat)

  /** What is decoded once a chunk has been read. */
  function Grown(sofar: Decoded, data: string, n: nat): Decoded {
    Decoded(sofar.body + data, U32(sofar.total + n))
  }

  /** The chunk loop from cursor `c`; `None` if it has not ended after `fuel` chunks. */
  ghost function ChunksInWords(rules: Rules, t: string, c: nat, sofar: Decoded, fuel: nat): (r: Option<Scan<Decoded>>)
    ensures r.Some? && r.value.Ok? ==> r.value.next <= |t|
    decreases fuel
  {
    match TurnInWords(rules, t, c)
    case Halted(More) => Some(More)
    case Halted(Bad) => Some(Bad)
    case Halted(_) => Some(Raise)
    case LastChunk(d) => Some(Ok(sofar, d))
    case OneChunk(data, n, d) =>
      if fuel == 0 then None
      else ChunksInWords(rules, t, d, Grown(sofar, data, n), fuel - 1)
  }

  /** The turns of a loop, cursor by cursor. */
  type Turns = nat -> WordTurn

  ghost function TurnsOf(rules: Rules, t: string): Turns {
    (c: nat) => TurnInWords(rules, t, c)
  }

  /** The cursor after `k` chunks, if the loop gets that far. */
  ghost function CursorAfter(turns: Turns, c: nat, k: nat): Option<nat>
    decreases k
  {
    if k == 0 then Some(c)
    else
      match turns(c)
      case OneChunk(_, _, d) => CursorAfter(turns, d, k - 1)
      case _ => None
  }

  /** The loop returns. */
  ghost predicate Returning(turns: Turns, c: nat) {
    exists k: nat :: CursorAfter(turns, c, k).None?
  }

  /** The loop comes to a cursor where it has been before. */
  ghost predicate Repeating(turns: Turns, c: nat) {
    exists i: nat, j: nat :: SameCursor(turns, c, i, j)
  }

  ghost predicate SameCursor(turns: Turns, c: nat, i: nat, j: nat) {
    i < j && CursorAfter(turns, c, i).Some? && CursorAfter(turns, c, i) == CursorAfter(turns, c, j)
  }

  ghost predicate ChunksReturn(rules: Rules, t: string, c: nat) {
    Returning(TurnsOf(rules, t), c)
  }

  ghost predicate Revisits(rules: Rules, t: string, c: nat) {
    Repeating(TurnsOf(rules, t), c)
  }

  lemma {:induction false} FuelIsChunks(rules: Rules, t: string, c: nat, sofar: Decoded, fuel: nat)
    ensures ChunksInWords(rules, t, c, sofar, fuel).Some? <==> CursorAfter(TurnsOf(rules, t), c, fuel + 1).None?
    decreases fuel
  {
    var turn := TurnInWords(rules, t, c);
    assert TurnsOf(rules, t)(c) == turn;
    if turn.OneChunk? && fuel > 0 {
      FuelIsChunks(rules, t, turn.next, Grown(sofar, turn.data, turn.size), fuel - 1);
    }
  }

  lemma ChunksStep(rules: Rules, t: string, c: nat, sofar: Decoded, fuel: nat, turn: WordTurn)
    requires turn == TurnInWords(rules, t, c) && ChunksInWords(rules, t, c, sofar, fuel).Some?
    ensures if turn.OneChunk? then
              fuel > 0 && ChunksInWords(rules, t, c, sofar, fuel) ==
                ChunksInWords(rules, t, turn.next, Grown(sofar, turn.data, turn.size), fuel - 1)
            else
              ChunksInWords(rules, t, c, sofar, fuel) == ChunksInWords(rules, t, c, sofar, 0)
  {
  }

  /** The answer does not depend on the fuel. */
  lemma {:induction false} FuelAgrees(rules: Rules, t: string, c: nat, sofar: Decoded, fuel: nat, other: nat)
    requires ChunksInWords(rules, t, c, sofar, fuel).Some? && ChunksInWords(rules, t, c, sofar, other).Some?
    ensures ChunksInWords(rules, t, c, sofar, fuel) == ChunksInWords(rules, t, c, sofar, other)
    decreases fuel
  {
    var turn := TurnInWords(rules, t, c);
    ChunksStep(rules, t, c, sofar, fuel, turn);
    ChunksStep(rules, t, c, sofar, other, turn);
    if turn.OneChunk? {
      FuelAgrees(rules, t, turn.next, Grown(sofar, turn.data, turn.size), fuel - 1, other - 1);
    }
  }

  lemma {:induction false} CursorAdds(turns: Turns, c: nat, i: nat, j: nat)
    ensures var p := CursorAfter(turns, c, i);
            CursorAfter(turns, c, i + j) == if p.Some? then CursorAfter(turns, p.value, j) else None
    decreases i
  {
    if i > 0 && turns(c).OneChunk? {
      CursorAdds(turns, turns(c).next, i - 1, j);
    }
  }

  /** No turn leaves the first `n` positions. */
  ghost predicate Inside(turns: Turns, n: nat) {
    forall c :: turns(c).OneChunk? ==> turns(c).next <= n
  }

  lemma {:induction false} CursorInside(turns: Turns, n: nat, c: nat, k: nat)
    requires Inside(turns, n) && c <= n
    ensures CursorAfter(turns, c, k).Some? ==> CursorAfter(turns, c, k).value <= n
    decreases k
  {
    if k > 0 && turns(c).OneChunk? {
      CursorInside(turns, n, turns(c).next, k - 1);
    }
  }

  // ------------------------------------------------------------------ when the loop returns

  /** A loop that comes back to a cursor goes round for ever. */
  lemma {:induction false} RoundForEver(turns: Turns, c: nat, i: nat, j: nat, k: nat)
    requires SameCursor(turns, c, i, j)
    ensures CursorAfter(turns, c, k).Some?
    decreases k
  {
    if k <= j {
      CursorAdds(turns, c, k, j - k);
    } else {
      CursorAdds(turns, c, j, k - j);
      CursorAdds(turns, c, i, k - j);
      RoundForEver(turns, c, i, j, i + (k - j));
    }
  }

  /** The cursors after up to `n` chunks. */
  ghost function Cursors(turns: Turns, c: nat, n: nat): (s: seq<nat>)
    requires forall k: nat :: k <= n ==> CursorAfter(turns, c, k).Some?
    ensures |s| == n + 1 && forall k: nat :: k <= n ==> s[k] == CursorAfter(turns, c, k).value
  {
    seq(n + 1, k requires 0 <= k <= n => CursorAfter(turns, c, k).value)
  }

  /** More numbers than there are below the bound repeat. */
  lemma {:induction false} Pigeonhole(s: seq<nat>, bound: nat) returns (i: nat, j: nat)
    requires |s| > bound && forall k :: 0 <= k < |s| ==> s[k] < bound
    ensures i < j < |s| && s[i] == s[j]
    decreases bound
  {
    var last := |s| - 1;
    assert s[last] < bound;
    if h :| 0 <= h < last && s[h] == s[last] {
      return h, last;
    }
    i, j := Pigeonhole(Renamed(s[..last], bound - 1, s[last]), bound - 1);
  }

  /** The largest number takes the name of one that does not occur. */
  function Renamed(s: seq<nat>, top: nat, free: nat): (r: seq<nat>)
    ensures |r| == |s| && forall k :: 0 <= k < |s| ==> r[k] == if s[k] == top then free else s[k]
  {
    seq(|s|, k requires 0 <= k < |s| => if s[k] == top then free else s[k])
  }

  lemma ComesBack(turns: Turns, n: nat, c: nat)
    requires Inside(turns, n) && c <= n && !Returning(turns, c)
    ensures Repeating(turns, c)
  {
    var s := Cursors(turns, c, n + 1);
    forall k: nat | k < |s|
      ensures s[k] < n + 1
    {
      CursorInside(turns, n, c, k);
    }
    var i, j := Pigeonhole(s, n + 1);
    assert SameCursor(turns, c, i, j);
  }

  lemma ReturningExactly(turns: Turns, n: nat, c: nat)
    requires Inside(turns, n) && c <= n
    ensures Returning(turns, c) <==> !Repeating(turns, c)
  {
    if Repeating(turns, c) {
      var i: nat, j: nat :| SameCursor(turns, c, i, j);
      forall k: nat
        ensures CursorAfter(turns, c, k).Some?
      {
        RoundForEver(turns, c, i, j, k);
      }
    } else if !Returning(turns, c) {
      ComesBack(turns, n, c);
    }
  }

  /** The chunk loop returns if and only if it never comes to a cursor where it has been before. */
  lemma ChunksReturnExactly(rules: Rules, t: string, c: nat)
    requires c <= |t|
    ensures ChunksReturn(rules, t, c) <==> !Revisits(rules, t, c)
  {
    ReturningExactly(TurnsOf(rules, t), |t|, c);
  }

  /** The turn after `k` chunks goes back. */
  ghost predicate GoesBackAt(turns: Turns, c: nat, k: nat) {
    var p := CursorAfter(turns, c, k);
    p.Some? && turns(p.value).OneChunk? && turns(p.value).next <= p.value
  }

  /** Without a turn that goes back the loop returns. */
  lemma ForwardReturns(rules: Rules, t: string, c: nat)
    requires c <= |t| && forall k: nat :: !GoesBackAt(TurnsOf(rules, t), c, k)
    ensures ChunksReturn(rules, t, c)
  {
    ChunksReturnExactly(rules, t, c);
    if i: nat, j: nat :| SameCursor(TurnsOf(rules, t), c, i, j) {
      Ahead(TurnsOf(rules, t), c, i, j);
    }
  }

  lemma {:induction false} Ahead(turns: Turns, c: nat, i: nat, j: nat)
    requires i < j && CursorAfter(turns, c, j).Some? && forall k: nat :: !GoesBackAt(turns, c, k)
    ensures CursorAfter(turns, c, i).Some? && CursorAfter(turns, c, i).value < CursorAfter(turns, c, j).value
    decreases j
  {
    CursorAdds(turns, c, j - 1, 1);
    assert !GoesBackAt(turns, c, j - 1);
    var p := CursorAfter(turns, c, j - 1).value;
    assert CursorAfter(turns, p, 1) == Some(turns(p).next) by {
      assert CursorAfter(turns, turns(p).next, 0) == Some(turns(p).next);
    }
    if i < j - 1 {
      Ahead(turns, c, i, j - 1);
    }
  }

  /** A turn that ends where it started is the whole loop. */
  lemma StandingTurn(rules: Rules, t: string, c: nat)
    requires TurnInWords(rules, t, c).OneChunk? && TurnInWords(rules, t, c).next == c
    ensures Revisits(rules, t, c)
  {
    var turns := TurnsOf(rules, t);
    assert turns(c).OneChunk? && turns(c).next == c;
    assert CursorAfter(turns, c, 0) == Some(c);
    assert CursorAfter(turns, c, 1) == CursorAfter(turns, c, 0);
    assert SameCursor(turns, c, 0, 1);
  }

  // ------------------------------------------------------------------ bodies and messages

  ghost function BodyInWords(rules: Rules, t: string, start: nat, f: Section, fuel: nat): (r: Option<Scan<Content>>)
    requires start <= |t|
    ensures r.Some? && r.value.Ok? ==> r.value.next <= |t|
  {
    var h := DropLength(f.headers);
    if CONTENT_LENGTH in h then
      match rules.bodyLength(h[CONTENT_LENGTH])
      case None => Some(Bad)
      case Some(n) =>
        if U32(start + n) > |t| then Some(More)
        else Some(Ok(Content(h, Substr(t, start, n)), U32(start + n)))
    else if TRANSFER_ENCODING in h then
      if !f.chunked then Some(Bad)
      else
        match ChunksInWords(rules, t, start, Decoded("", 0), fuel)
        case None => None
        case Some(chunks) => Some(WithTrailers(rules, t, h, chunks))
    else Some(Ok(Content(h, ""), start))
  }

  /** What the trailer loop makes of the answer of the chunk loop. */
  ghost function WithTrailers(rules: Rules, t: string, h: Headers, chunks: Scan<Decoded>): (r: Scan<Content>)
    ensures r.Ok? ==> r.next <= |t|
  {
    match chunks
    case More => More
    case Bad => Bad
    case Raise => Raise
    case Ok(decoded, c) =>
      match ReadTrailers(rules, t, c, h)
      case More => More
      case Bad => Bad
      case Raise => Raise
      case Ok(h', c') => Ok(Content(Normalised(rules, h', decoded.total), decoded.body), c')
  }

  ghost function MessageInWords<T>(g: Grammar<T>, t: string, fuel: nat): (r: Option<Scan<T>>)
    ensures r.Some? && r.value.Ok? ==> r.value.next <= |t|
  {
    match ReadHead(g, t)
    case More => Some(More)
    case Bad => Some(Bad)
    case Raise => Some(Raise)
    case Ok(head, start) =>
      match BodyInWords(g.rules, t, start, head.fields, fuel)
      case None => None
      case Some(body) => Some(Completed(g, head, body))
  }

  ghost function Completed<T>(g: Grammar<T>, head: Head, body: Scan<Content>): (r: Scan<T>)
    ensures r.Ok? ==> body.Ok? && r.next == body.next
  {
    match body
    case More => More
    case Bad => Bad
    case Raise => Raise
    case Ok(content, next) =>
      match g.finish(head.start, head.fields.headers, content)
      case None => Raise
      case Some(v) => Ok(v, next)
  }

  /** The verdict on a buffer; `None` if the parser has not returned after `fuel` chunks. */
  ghost function VerdictInWords<T>(g: Grammar<T>, words: set<string>, b: string, fuel: nat): (r: Option<Scan<T>>)
    ensures r.Some? && r.value.Ok? ==> r.value.next <= |b|
  {
    if Find(b, CRLFCRLF, 0).None? then Some(More)
    else
      match WordStart(words, b)
      case None => Some(Bad)
      case Some(m) =>
        match MessageInWords(g, b[m..], fuel)
        case None => None
        case Some(r) => Some(if r.Ok? then Ok(r.value, m + r.next) else r)
  }

  ghost predicate Returns<T>(g: Grammar<T>, words: set<string>, b: string) {
    exists fuel :: VerdictInWords(g, words, b, fuel).Some?
  }

  /** The verdict of the code, if its parser returns. */
  ghost function CodeVerdict<T>(g: Grammar<T>, words: set<string>, b: string): (r: Option<Scan<T>>)
    ensures r.Some? <==> Returns(g, words, b)
    ensures r.Some? && r.value.Ok? ==> r.value.next <= |b|
  {
    if fuel: nat :| VerdictInWords(g, words, b, fuel).Some? then VerdictInWords(g, words, b, fuel) else None
  }

  /** What the loop that calls a parser sees of its verdict. */
  ghost function AsStep<T>(words: set<string>, b: string, v: Scan<T>): Outcome<T>
    requires v.Ok? ==> v.next <= |b|
  {
    match v
    case Bad => Refused
    case Ok(r, n) => Taken(r, b[n..])
    case _ => Wait(FromWord(words, b))
  }

  ghost function CodeStep<T>(g: Grammar<T>, words: set<string>, b: string): Option<Outcome<T>> {
    match CodeVerdict(g, words, b)
    case None => None
    case Some(v) => Some(AsStep(words, b, v))
  }

  /** Exactly when a Content-Length body is taken with the cursor ending up before it, or at the front of the buffer. */
  lemma LengthGoesBackExactly(rules: Rules, strict: bool, t: string, start: nat, f: Section, n: nat)
    requires ReadAs(rules, strict) && 0 < start <= |t| < TWO_31
    requires CONTENT_LENGTH in f.headers && TRANSFER_ENCODING !in f.headers
    requires BodyLength(f.headers[CONTENT_LENGTH]) == Some(n)
    ensures BodyInWords(rules, t, start, f, 0).Some?
    ensures var r := BodyInWords(rules, t, start, f, 0).value;
            && (r.Ok? && r.next < start <==> TWO_32 <= start + n < TWO_32 + start)
            && (r.Ok? && r.next == 0 <==> start + n == TWO_32)
  {
    assert rules.bodyLength(f.headers[CONTENT_LENGTH]) == BodyLength(f.headers[CONTENT_LENGTH]);
    Wraps(start + n);
  }

  // ------------------------------------------------------------------ where no sum wraps

  ghost predicate SameChunks(w: Option<Scan<Decoded>>, r: Scan<string>) {
    match r
    case Ok(body, next) => w == Some(Ok(Decoded(body, |body|), next))
    case More => w == Some(More)
    case Bad => w == Some(Bad)
    case Raise => w == Some(Raise)
  }

  lemma {:induction false} ChunksExact(rules: Rules, strict: bool, t: string, c: nat, acc: string, fuel: nat)
    requires ReadAs(rules, strict) && |t| < TWO_31 && ChunksFit(rules, t, c)
    requires |acc| <= c <= |t| && |t| - c <= fuel
    ensures SameChunks(ChunksInWords(rules, t, c, Decoded(acc, |acc|), fuel), ReadChunks(rules, t, c, acc))
    decreases fuel
  {
    TurnExact(rules, strict, t, c);
    var r := ReadChunk(rules, t, c);
    if r.Ok? && r.value != "" {
      assert TurnInWords(rules, t, c) == OneChunk(r.value, |r.value|, r.next);
      assert Grown(Decoded(acc, |acc|), r.value, |r.value|) == Decoded(acc + r.value, |acc + r.value|);
      ChunksExact(rules, strict, t, r.next, acc + r.value, fuel - 1);
    }
  }

  lemma BodyExact(rules: Rules, strict: bool, t: string, start: nat, f: Section, fuel: nat)
    requires ReadAs(rules, strict) && start <= |t| < TWO_31 && |t| <= fuel && BodyFits(rules, t, start, f)
    ensures BodyInWords(rules, t, start, f, fuel) == Some(ReadBody(rules, t, start, f))
  {
    var h := DropLength(f.headers);
    if CONTENT_LENGTH in h {
      assert rules.bodyLength(h[CONTENT_LENGTH]) == BodyLength(h[CONTENT_LENGTH]);
      if n :| BodyLength(h[CONTENT_LENGTH]) == Some(n) {
        CompletenessTestExact(start, n, |t|);
      }
    } else if TRANSFER_ENCODING in h && f.chunked {
      ChunksExact(rules, strict, t, start, "", fuel);
    }
  }

  lemma MessageExact<T>(g: Grammar<T>, strict: bool, t: string, fuel: nat)
    requires ReadAs(g.rules, strict) && |t| < TWO_31 && |t| <= fuel && MessageFits(g, t)
    ensures MessageInWords(g, t, fuel) == Some(ReadMessage(g, t))
  {
    var head := ReadHead(g, t);
    if head.Ok? {
      BodyExact(g.rules, strict, t, head.next, head.value.fields, fuel);
    }
  }

  lemma {:induction false} BodyFuelAgrees(rules: Rules, t: string, start: nat, f: Section, fuel: nat, other: nat)
    requires start <= |t|
    requires BodyInWords(rules, t, start, f, fuel).Some? && BodyInWords(rules, t, start, f, other).Some?
    ensures BodyInWords(rules, t, start, f, fuel) == BodyInWords(rules, t, start, f, other)
  {
    var h := DropLength(f.headers);
    if CONTENT_LENGTH !in h && TRANSFER_ENCODING in h && f.chunked {
      FuelAgrees(rules, t, start, Decoded("", 0), fuel, other);
    }
  }

  lemma VerdictFuelAgrees<T>(g: Grammar<T>, words: set<string>, b: string, fuel: nat, other: nat)
    requires VerdictInWords(g, words, b, fuel).Some? && VerdictInWords(g, words, b, other).Some?
    ensures VerdictInWords(g, words, b, fuel) == VerdictInWords(g, words, b, other)
  {
    if Find(b, CRLFCRLF, 0).None? || WordStart(words, b).None? { return; }
    var t := b[WordStart(words, b).value..];
    var head := ReadHead(g, t);
    if head.Ok? {
      BodyFuelAgrees(g.rules, t, head.next, head.value.fields, fuel, other);
    }
  }

  lemma CodeVerdictIs<T>(g: Grammar<T>, words: set<string>, b: string, fuel: nat)
    requires VerdictInWords(g, words, b, fuel).Some?
    ensures CodeVerdict(g, words, b) == VerdictInWords(g, words, b, fuel)
  {
    var other: nat :|
      VerdictInWords(g, words, b, other).Some? && CodeVerdict(g, words, b) == VerdictInWords(g, words, b, other);
    VerdictFuelAgrees(g, words, b, fuel, other);
  }

  lemma VerdictOfMessage<T>(g: Grammar<T>, words: set<string>, b: string, m: nat, fuel: nat, r: Scan<T>)
    requires Find(b, CRLFCRLF, 0).Some? && WordStart(words, b) == Some(m)
    requires MessageInWords(g, b[m..], fuel) == Some(r)
    ensures r.Ok? ==> m + r.next <= |b|
    ensures VerdictInWords(g, words, b, fuel) == Some(if r.Ok? then Ok(r.value, m + r.next) else r)
  {
  }

  /** The verdict of the code, in terms of the verdict `r` on the message behind the word. */
  lemma VerdictBehind<T>(g: Grammar<T>, words: set<string>, b: string, m: nat, fuel: nat, r: Scan<T>)
    requires Find(b, CRLFCRLF, 0).Some? && WordStart(words, b) == Some(m) && MessageInWords(g, b[m..], fuel) == Some(r)
    ensures r.Ok? ==> m + r.next <= |b| && b[m..][r.next..] == b[m + r.next..]
    ensures CodeVerdict(g, words, b) == Some(if r.Ok? then Ok(r.value, m + r.next) else r)
  {
    VerdictOfMessage(g, words, b, m, fuel, r);
    CodeVerdictIs(g, words, b, fuel);
  }

  /** The verdicts before the first line is looked at. */
  lemma VerdictEarly<T>(g: Grammar<T>, words: set<string>, b: string)
    ensures Find(b, CRLFCRLF, 0).None? ==> CodeVerdict(g, words, b) == Some(More)
    ensures Find(b, CRLFCRLF, 0).Some? && WordStart(words, b).None? ==> CodeVerdict(g, words, b) == Some(Bad)
  {
    if Find(b, CRLFCRLF, 0).None? || WordStart(words, b).None? {
      CodeVerdictIs(g, words, b, 0);
    }
  }

  /** Chunks enough for the parser to return. */
  lemma FuelBehind<T>(g: Grammar<T>, words: set<string>, b: string, m: nat) returns (fuel: nat)
    requires Returns(g, words, b) && Find(b, CRLFCRLF, 0).Some? && WordStart(words, b) == Some(m)
    ensures MessageInWords(g, b[m..], fuel).Some?
  {
    fuel :| VerdictInWords(g, words, b, fuel).Some?;
  }

  lemma VerdictWithinBound<T(!new)>(sc: Scanner<T>, g: Grammar<T>, strict: bool, b: string)
    requires ScansBy(sc, g) && ReadAs(g.rules, strict) && Fits(g, sc.words, b)
    ensures VerdictInWords(g, sc.words, b, |b|) == Some(Verdict(sc, b))
  {
    if Find(b, CRLFCRLF, 0).None? || WordStart(sc.words, b).None? { return; }
    var m := WordStart(sc.words, b).value;
    var t := b[m..];
    MessageExact(g, strict, t, |b|);
    assert sc.message(t) == ReadMessage(g, t);
    VerdictOfMessage(g, sc.words, b, m, |b|, sc.message(t));
  }

  /** Within the bound the code returns, with the verdict of unbounded arithmetic. */
  lemma WithinBound<T(!new)>(sc: Scanner<T>, g: Grammar<T>, strict: bool, b: string)
    requires ScansBy(sc, g) && ReadAs(g.rules, strict) && Fits(g, sc.words, b)
    ensures CodeVerdict(g, sc.words, b) == Some(Verdict(sc, b))
  {
    VerdictWithinBound(sc, g, strict, b);
    CodeVerdictIs(g, sc.words, b, |b|);
  }

  /** The steps of the reader are what the loop sees of the verdicts. */
  ghost predicate StepsBy<T(!new)>(rd: Reader<T>, sc: Scanner<T>) {
    forall b {:trigger rd.step(b)} ::
      (Verdict(sc, b).Ok? ==> Verdict(sc, b).next <= |b|) && rd.step(b) == AsStep(sc.words, b, Verdict(sc, b))
  }

  lemma ReaderStepsBy<T(!new)>(sc: Scanner<T>)
    requires Lawful(sc)
    ensures StepsBy(ReaderOf(sc), sc)
  {
    forall b
      ensures (Verdict(sc, b).Ok? ==> Verdict(sc, b).next <= |b|) && Step(sc, b) == AsStep(sc.words, b, Verdict(sc, b))
    {
      if Verdict(sc, b).Ok? {
        AcceptedConsumes(sc, b);
      }
    }
  }

  lemma StepOfVerdict<T>(g: Grammar<T>, words: set<string>, b: string, v: Scan<T>)
    requires CodeVerdict(g, words, b) == Some(v)
    ensures v.Ok? ==> v.next <= |b|
    ensures CodeStep(g, words, b) == Some(AsStep(words, b, v))
  {
  }

  lemma StepWithinBound<T(!new)>(sc: Scanner<T>, g: Grammar<T>, strict: bool, b: string)
    requires ScansBy(sc, g) && ReadAs(g.rules, strict) && Fits(g, sc.words, b)
    ensures Verdict(sc, b).Ok? ==> Verdict(sc, b).next <= |b|
    ensures CodeStep(g, sc.words, b) == Some(AsStep(sc.words, b, Verdict(sc, b)))
  {
    WithinBound(sc, g, strict, b);
    StepOfVerdict(g, sc.words, b, Verdict(sc, b));
  }

  // ------------------------------------------------------------------ when a parser returns, and what it consumes

  /** The header section of the buffer announces the chunked coding, and its chunk loop starts at `c` of `t`. */
  ghost predicate EntersChunks<T>(g: Grammar<T>, words: set<string>, b: string, t: string, c: nat) {
    && Find(b, CRLFCRLF, 0).Some? && WordStart(words, b).Some? && t == b[WordStart(words, b).value..]
    && var head := ReadHead(g, t);
    && head.Ok? && head.next == c
    && TRANSFER_ENCODING in head.value.fields.headers && head.value.fields.chunked
  }

  /** A parser does not return if and only if its chunk loop comes to a cursor where it has been before. */
  lemma ReturnsExactly<T>(g: Grammar<T>, words: set<string>, b: string)
    ensures Returns(g, words, b) <==> !exists t, c :: EntersChunks(g, words, b, t, c) && Revisits(g.rules, t, c)
  {
    if t, c :| EntersChunks(g, words, b, t, c) && Revisits(g.rules, t, c) {
      ChunksReturnExactly(g.rules, t, c);
      forall fuel: nat
        ensures VerdictInWords(g, words, b, fuel).None?
      {
        FuelIsChunks(g.rules, t, c, Decoded("", 0), fuel);
      }
    } else {
      var fuel := EnoughFuel(g, words, b);
    }
  }

  lemma ChunkFuel(rules: Rules, t: string, c: nat) returns (fuel: nat)
    requires ChunksReturn(rules, t, c)
    ensures ChunksInWords(rules, t, c, Decoded("", 0), fuel).Some?
  {
    var k: nat :| CursorAfter(TurnsOf(rules, t), c, k).None?;
    fuel := k - 1;
    FuelIsChunks(rules, t, c, Decoded("", 0), fuel);
  }

  lemma EnoughFuel<T>(g: Grammar<T>, words: set<string>, b: string) returns (fuel: nat)
    requires !exists t, c :: EntersChunks(g, words, b, t, c) && Revisits(g.rules, t, c)
    ensures VerdictInWords(g, words, b, fuel).Some?
  {
    fuel := 0;
    if VerdictInWords(g, words, b, fuel).None? {
      var t := b[WordStart(words, b).value..];
      var c := ReadHead(g, t).next;
      assert EntersChunks(g, words, b, t, c);
      ChunksReturnExactly(g.rules, t, c);
      fuel := ChunkFuel(g.rules, t, c);
    }
  }

  /** The message starts at the front of the buffer and has a Content-Length body whose end is 2^32. */
  ghost predicate EndsAtZero<T>(g: Grammar<T>, words: set<string>, b: string) {
    && Find(b, CRLFCRLF, 0).Some? && WordStart(words, b) == Some(0)
    && var head := ReadHead(g, b);
    && head.Ok?
    && var h := DropLength(head.value.fields.headers);
    && CONTENT_LENGTH in h && g.rules.bodyLength(h[CONTENT_LENGTH]) == Some(TWO_32 - head.next)
  }

  lemma BodyConsumes(rules: Rules, strict: bool, t: string, start: nat, f: Section, fuel: nat)
    requires ReadAs(rules, strict) && 0 < start <= |t| < TWO_31
    requires BodyInWords(rules, t, start, f, fuel).Some? && BodyInWords(rules, t, start, f, fuel).value.Ok?
    ensures var h := DropLength(f.headers);
            BodyInWords(rules, t, start, f, fuel).value.next == 0 <==>
            CONTENT_LENGTH in h && rules.bodyLength(h[CONTENT_LENGTH]) == Some(TWO_32 - start)
  {
    var h := DropLength(f.headers);
    if CONTENT_LENGTH in h {
      assert rules.bodyLength(h[CONTENT_LENGTH]) == BodyLength(h[CONTENT_LENGTH]);
      Wraps(start + BodyLength(h[CONTENT_LENGTH]).value);
    }
  }

  /** An accepted message consumes nothing if and only if the body ends at 2^32 and nothing precedes the message. */
  lemma ConsumesNothingExactly<T(!new)>(g: Grammar<T>, strict: bool, words: set<string>, b: string)
    requires ReadAs(g.rules, strict) && |b| < TWO_31
    requires CodeVerdict(g, words, b).Some? && CodeVerdict(g, words, b).value.Ok?
    ensures CodeVerdict(g, words, b).value.next == 0 <==> EndsAtZero(g, words, b)
  {
    var fuel: nat :|
      VerdictInWords(g, words, b, fuel).Some? && CodeVerdict(g, words, b) == VerdictInWords(g, words, b, fuel);
    var m := WordStart(words, b).value;
    var t := b[m..];
    var head := ReadHead(g, t);
    BodyConsumes(g.rules, strict, t, head.next, head.value.fields, fuel);
    assert m == 0 ==> t == b;
  }
}
