/** Buffers on which the machine words of the parsers are exact, and how pieces of a stream inherit that. */
module Bounds {
  import opened Strings
  import opened Numbers
  import opened Fields
  import opened Framing
  import opened Messages
  import opened Scanning

  /** The cursors of the code are `int` and the declared lengths `uint32_t`: on such a buffer they, and the
      completeness tests, have their mathematical values. */
  ghost predicate Fits<T>(g: Grammar<T>, words: set<string>, b: string) {
    && |b| < TWO_31
    && (Find(b, CRLFCRLF, 0).Some? && WordStart(words, b).Some? ==>
          MessageFits(g, b[WordStart(words, b).value..]))
  }

  /** A bound on buffers that pieces of a stream inherit from the stream. */
  ghost predicate Inherited<T>(rd: Reader<T>, fits: string -> bool) {
    && (forall b, x {:trigger fits(b), rd.ready(b + x)} :: rd.ready(b + x) && fits(b + x) ==> fits(b))
    && (forall b, x {:trigger rd.step(b), fits(b + x)} ::
          rd.step(b).Wait? && fits(b + x) ==> fits(rd.step(b).rest + x))
  }

  ghost function FitsOf<T>(g: Grammar<T>, words: set<string>): string -> bool {
    b => Fits(g, words, b)
  }

  lemma FitsInPrefix<T(!new)>(g: Grammar<T>, words: set<string>, b: string, x: string)
    requires forall w :: w in words ==> w != "" && CR !in w
    requires WordFirst(words, b + x) && Fits(g, words, b + x)
    ensures Fits(g, words, b)
  {
    if Find(b, CRLFCRLF, 0).None? || WordStart(words, b).None? { return; }
    WordArrived(words, b, b + x);
    FindInPrefix(b, b + x, CRLFCRLF, 0);
    var m := WordStart(words, b).value;
    DropOfAppend(b, x, m);
    MessageFitsInPrefix(g, b[m..], b[m..] + x);
  }

  lemma FitsShift<T(!new)>(g: Grammar<T>, words: set<string>, s: string, m: nat, u: string)
    requires Fits(g, words, s) && Find(s, CRLFCRLF, 0).Some?
    requires WordStart(words, s) == Some(m) && s[m..] == u && WordStart(words, u) == Some(0)
    ensures Fits(g, words, u)
  {
    assert u[0..] == u;
  }

  lemma BoundInherited<T(!new)>(g: Grammar<T>, sc: Scanner<T>)
    requires Lawful(sc)
    ensures Inherited(ReaderOf(sc), FitsOf(g, sc.words))
  {
    forall b, x | WordFirst(sc.words, b + x) && Fits(g, sc.words, b + x)
      ensures Fits(g, sc.words, b)
    {
      FitsInPrefix(g, sc.words, b, x);
    }
    forall b, x | Step(sc, b).Wait? && Fits(g, sc.words, b + x)
      ensures Fits(g, sc.words, Step(sc, b).rest + x)
    {
      if Find(b, CRLFCRLF, 0).Some? {
        var m := TrimmedRest(sc, b, x);
        FitsShift(g, sc.words, b + x, m, Step(sc, b).rest + x);
      }
    }
  }

  // ------------------------------------------------------------------ which buffers fit

  /** Every chunk that is declared along the chunk loop ends below 2^32. */
  ghost predicate ChunksEndBelow(rules: Rules, t: string, c: nat)
    decreases |t| - c
  {
    && (Find(t, CRLF, c).Some? ==>
          var e := Find(t, CRLF, c).value;
          rules.chunkSize(t[c..e]).Some? ==> e + 2 + rules.chunkSize(t[c..e]).value + 2 < TWO_32)
    && (var r := ReadChunk(rules, t, c); r.Ok? && r.value != "" ==> ChunksEndBelow(rules, t, r.next))
  }

  /** Every body that is declared ends below 2^32. */
  ghost predicate BodyEndsBelow(rules: Rules, t: string, start: nat, f: Section) {
    var h := DropLength(f.headers);
    if CONTENT_LENGTH in h then
      rules.bodyLength(h[CONTENT_LENGTH]).Some? ==> start + rules.bodyLength(h[CONTENT_LENGTH]).value < TWO_32
    else
      TRANSFER_ENCODING in h && f.chunked ==> ChunksEndBelow(rules, t, start)
  }

  ghost predicate EndsBelow<T>(g: Grammar<T>, t: string) {
    var head := ReadHead(g, t);
    head.Ok? ==> BodyEndsBelow(g.rules, t, head.next, head.value.fields)
  }

  lemma {:induction false} ChunksBelowFit(rules: Rules, t: string, c: nat)
    requires ChunksEndBelow(rules, t, c)
    ensures ChunksFit(rules, t, c)
    decreases |t| - c
  {
    var r := ReadChunk(rules, t, c);
    if r.Ok? && r.value != "" {
      ChunksBelowFit(rules, t, r.next);
    }
  }

  /** A buffer below 2^31 bytes whose declared bodies and chunks end below 2^32 is within the bound. */
  lemma ShortBuffersFit<T(!new)>(g: Grammar<T>, words: set<string>, b: string)
    requires |b| < TWO_31
    requires WordStart(words, b).Some? ==> EndsBelow(g, b[WordStart(words, b).value..])
    ensures Fits(g, words, b)
  {
    if Find(b, CRLFCRLF, 0).None? || WordStart(words, b).None? { return; }
    var t := b[WordStart(words, b).value..];
    var head := ReadHead(g, t);
    if head.Ok? && CONTENT_LENGTH !in DropLength(head.value.fields.headers) {
      if TRANSFER_ENCODING in head.value.fields.headers && head.value.fields.chunked {
        ChunksBelowFit(g.rules, t, head.next);
      }
    }
  }

  lemma SettledTurnFits(rules: Rules, t: string, c: nat)
    requires |t| < TWO_31 && !ReadChunk(rules, t, c).More?
    ensures ChunkFits(rules, t, c)
  {
  }

  lemma {:induction false} SettledChunksFit(rules: Rules, t: string, c: nat, acc: string)
    requires |t| < TWO_31 && !ReadChunks(rules, t, c, acc).More?
    ensures ChunksFit(rules, t, c)
    decreases |t| - c
  {
    SettledTurnFits(rules, t, c);
    var r := ReadChunk(rules, t, c);
    if r.Ok? && r.value != "" {
      SettledChunksFit(rules, t, r.next, acc + r.value);
    }
  }

  lemma SettledBodyFits(rules: Rules, t: string, start: nat, f: Section)
    requires start <= |t| < TWO_31 && !ReadBody(rules, t, start, f).More?
    ensures BodyFits(rules, t, start, f)
  {
    var h := DropLength(f.headers);
    if CONTENT_LENGTH !in h && TRANSFER_ENCODING in h && f.chunked {
      assert !ReadChunks(rules, t, start, "").More?;
      SettledChunksFit(rules, t, start, "");
    }
  }

  lemma SettledMessageFits<T>(g: Grammar<T>, t: string)
    requires |t| < TWO_31 && !ReadMessage(g, t).More?
    ensures MessageFits(g, t)
  {
    var head := ReadHead(g, t);
    if head.Ok? {
      SettledBodyFits(g.rules, t, head.next, head.value.fields);
    }
  }

  /** A buffer below 2^31 bytes is within the bound once it has a verdict: only lengths of which bytes are still to come
      can wrap. */
  lemma SettledFits<T(!new)>(sc: Scanner<T>, g: Grammar<T>, b: string)
    requires ScansBy(sc, g) && |b| < TWO_31 && !Verdict(sc, b).More?
    ensures Fits(g, sc.words, b)
  {
    if WordStart(sc.words, b).Some? {
      var t := b[WordStart(sc.words, b).value..];
      assert sc.message(t) == ReadMessage(g, t);
      SettledMessageFits(g, t);
    }
  }

  /** Outside the bound: exactly where the end of a declared body wraps into the buffer, the bytes are still to come but
      the test of the code takes the body for complete and moves the cursor back to before it. */
  lemma LengthWrapsExactly(rules: Rules, strict: bool, t: string, start: nat, f: Section, n: nat)
    requires ReadAs(rules, strict) && start <= |t| < TWO_31
    requires CONTENT_LENGTH in f.headers && TRANSFER_ENCODING !in f.headers
    requires BodyLength(f.headers[CONTENT_LENGTH]) == Some(n)
    ensures !BodyFits(rules, t, start, f) <==> ReadBody(rules, t, start, f).More? && U32(start + n) <= |t|
    ensures !BodyFits(rules, t, start, f) ==> U32(start + n) < start
  {
    assert rules.bodyLength(f.headers[CONTENT_LENGTH]) == BodyLength(f.headers[CONTENT_LENGTH]);
    CompletenessTestExact(start, n, |t|);
    assert start + n >= TWO_32 ==> U32(start + n) == start + n - TWO_32;
  }

  /** A declared length is cut to 32 bits: 2^32 + 5 is taken for 5. */
  lemma LengthIsCut(n: nat)
    requires n < TWO_64
    ensures BodyLength(Decimal(n)) == Some(n % TWO_32)
  {
    DecimalReads(n);
  }

  /** An input outside the bound: behind every header section, a Content-Length of 2^32 - 1. */
  lemma LongestLengthWraps(rules: Rules, strict: bool, t: string, start: nat, f: Section)
    requires ReadAs(rules, strict) && 1 <= start <= |t| < TWO_31
    requires CONTENT_LENGTH in f.headers && TRANSFER_ENCODING !in f.headers
    requires f.headers[CONTENT_LENGTH] == Decimal(TWO_32 - 1)
    ensures !BodyFits(rules, t, start, f)
  {
    LengthIsCut(TWO_32 - 1);
    LengthWrapsExactly(rules, strict, t, start, f, TWO_32 - 1);
    assert rules.bodyLength(f.headers[CONTENT_LENGTH]) == BodyLength(f.headers[CONTENT_LENGTH]);
  }
}
