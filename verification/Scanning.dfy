/** Verdicts on a buffer that grows: they do not change when more bytes arrive, and neither does dropping the
    bytes before the message change them. Generic in what a message is, so it serves both parsers. */
module Scanning {
  import opened Strings
  import opened Framing

  /** A message starts at the earliest of some words; `message` is the verdict on a buffer starting there. */
  datatype Scanner<!T> = Scanner(words: set<string>, message: string -> Scan<T>)

  /** What the lemmas need of a scanner: its words hold no CR, and its verdicts are final once a blank line is
      there; without one it can only refuse. */
  ghost predicate Lawful<T(!new)>(sc: Scanner<T>) {
    && (forall w :: w in sc.words ==> w != "" && CR !in w)
    && (forall t :: !sc.message(t).Bad? ==> Find(t, CRLFCRLF, 0).Some?)
    && (forall t :: sc.message(t).Ok? ==> 0 < sc.message(t).next <= |t|)
    && (forall t, u {:trigger sc.message(t), sc.message(u)} ::
          t <= u && Find(t, CRLFCRLF, 0).Some? && !sc.message(t).More? ==> sc.message(u) == sc.message(t))
  }

  // ------------------------------------------------------------------ where the message starts

  ghost predicate WordAt(words: set<string>, b: string, i: int) {
    exists w :: w in words && OccursAt(b, w, i)
  }

  ghost predicate FirstWordAt(words: set<string>, b: string, m: nat) {
    WordAt(words, b, m) && forall j :: 0 <= j < m ==> !WordAt(words, b, j)
  }

  /** The earliest of the words, wherever it stands in the buffer. */
  ghost function WordStart(words: set<string>, b: string): (m: Option<nat>)
    ensures m.Some? ==> FirstWordAt(words, b, m.value) && m.value <= |b|
    ensures m.None? ==> forall j :: !WordAt(words, b, j)
  {
    if m: nat :| FirstWordAt(words, b, m) then Some(m)
    else
      assert forall j :: !WordAt(words, b, j) by {
        if j :| WordAt(words, b, j) { FirstWordExists(words, b, j); }
      }
      None
  }

  lemma {:induction false} FirstWordExists(words: set<string>, b: string, j: nat)
    requires WordAt(words, b, j)
    ensures exists m: nat :: FirstWordAt(words, b, m)
  {
    if h: nat :| h < j && WordAt(words, b, h) {
      FirstWordExists(words, b, h);
    } else {
      assert FirstWordAt(words, b, j);
    }
  }

  lemma WordStartIs(words: set<string>, b: string, m: nat)
    requires FirstWordAt(words, b, m)
    ensures WordStart(words, b) == Some(m)
  {
  }

  // ------------------------------------------------------------------ verdict and remainder

  /** The verdict on a buffer. An accepted message has `next` bytes of it consumed. */
  ghost function Verdict<T>(sc: Scanner<T>, b: string): (r: Scan<T>) {
    if Find(b, CRLFCRLF, 0).None? then More
    else
      match WordStart(sc.words, b)
      case None => Bad
      case Some(m) =>
        var r := sc.message(b[m..]);
        if r.Ok? then Ok(r.value, m + r.next) else r
  }

  /** The buffer from its word on, once the end of a header section is there. */
  ghost function FromWord(words: set<string>, b: string): string {
    if Find(b, CRLFCRLF, 0).None? || WordStart(words, b).None? then b else b[WordStart(words, b).value..]
  }

  /** What is left in the buffer: the bytes before the message are dropped as soon as the end of a header
      section is there, and the whole message once it is accepted. */
  ghost function Rest<T(!new)>(sc: Scanner<T>, b: string): string
    requires Lawful(sc)
  {
    var r := Verdict(sc, b);
    if r.Ok? then b[r.next..] else FromWord(sc.words, b)
  }

  lemma VerdictAt<T(!new)>(sc: Scanner<T>, b: string, m: nat, t: string)
    requires Lawful(sc) && Find(b, CRLFCRLF, 0).Some? && WordStart(sc.words, b) == Some(m) && b[m..] == t
    ensures var r := sc.message(t);
            && Verdict(sc, b) == (if r.Ok? then Ok(r.value, m + r.next) else r)
            && Rest(sc, b) == if r.Ok? then t[r.next..] else t
  {
    VerdictFrom(sc, b, m, t);
    var r := sc.message(t);
    if r.Ok? {
      SuffixOfSuffix(b, m, r.next);
    }
  }

  lemma VerdictFrom<T(!new)>(sc: Scanner<T>, b: string, m: nat, t: string)
    requires Find(b, CRLFCRLF, 0).Some? && WordStart(sc.words, b) == Some(m) && b[m..] == t
    ensures var r := sc.message(t); Verdict(sc, b) == (if r.Ok? then Ok(r.value, m + r.next) else r)
    ensures FromWord(sc.words, b) == t
  {
  }

  lemma SuffixOfSuffix(b: string, m: nat, n: nat)
    requires m + n <= |b|
    ensures b[m..][n..] == b[m + n..]
  {
  }

  /** The hypothesis under which cutting the stream does not matter: the first word, if there is one,
      stands before the first end of a header section. */
  ghost predicate WordFirst(words: set<string>, b: string) {
    var h, m := Find(b, CRLFCRLF, 0), WordStart(words, b);
    h.Some? && m.Some? ==> m.value < h.value
  }

  // ------------------------------------------------------------------ the word cannot be overtaken

  /** No word contains CR, so none that straddles the end of the buffer reaches back over a blank line. */
  lemma NoOvertaking(words: set<string>, b: string, s: string, h: nat, j: nat)
    requires forall w :: w in words ==> CR !in w
    requires b <= s && OccursAt(b, CRLFCRLF, h)
    requires j < h && WordAt(words, s, j)
    ensures WordAt(words, b, j)
  {
    OccursCrlfCrlf(b, h);
    var w :| w in words && OccursAt(s, w, j);
    assert j + |w| <= h;
    OccursInPrefix(b, s, w, j);
  }

  lemma WordAtInPrefix(words: set<string>, b: string, s: string, j: nat)
    requires b <= s && WordAt(words, b, j)
    ensures WordAt(words, s, j)
  {
    var w :| w in words && OccursAt(b, w, j);
    OccursInPrefix(b, s, w, j);
  }

  lemma WordStable(words: set<string>, b: string, s: string, h: nat)
    requires forall w :: w in words ==> CR !in w
    requires b <= s && OccursAt(b, CRLFCRLF, h)
    requires WordStart(words, b).Some? && WordStart(words, b).value < h
    ensures WordStart(words, s) == WordStart(words, b)
  {
    var m := WordStart(words, b).value;
    WordAtInPrefix(words, b, s, m);
    forall j | 0 <= j < m
      ensures !WordAt(words, s, j)
    {
      if WordAt(words, s, j) {
        NoOvertaking(words, b, s, h, j);
      }
    }
    WordStartIs(words, s, m);
  }

  /** Under the hypothesis, a buffer that already holds the end of a header section has its word. */
  lemma WordArrived(words: set<string>, b: string, s: string)
    requires forall w :: w in words ==> CR !in w
    requires b <= s && WordFirst(words, s) && Find(b, CRLFCRLF, 0).Some?
    ensures WordStart(words, b) == WordStart(words, s)
    ensures WordFirst(words, b)
  {
    var h := Find(b, CRLFCRLF, 0).value;
    FindInPrefix(b, s, CRLFCRLF, 0);
    if WordStart(words, s).Some? {
      NoOvertaking(words, b, s, h, WordStart(words, s).value);
      WordStable(words, b, s, h);
    } else if WordStart(words, b).Some? {
      WordAtInPrefix(words, b, s, WordStart(words, b).value);
    }
  }

  lemma OccursShift(b: string, m: nat, p: string, j: nat)
    requires m <= |b|
    ensures OccursAt(b[m..], p, j) <==> OccursAt(b, p, m + j)
  {
    if m + j + |p| <= |b| {
      assert b[m..][j..j + |p|] == b[m + j..m + j + |p|];
    }
  }

  lemma NotAtBlankLine(words: set<string>, b: string, m: nat)
    requires forall w :: w in words ==> w != "" && CR !in w
    requires WordAt(words, b, m)
    ensures !OccursAt(b, CRLFCRLF, m)
  {
    var w :| w in words && OccursAt(b, w, m);
    OccursIndex(b, w, m, 0);
    OccursCrlfCrlf(b, m);
    assert w[0] in w;
  }

  /** With a blank line behind the word, every extension of the buffer has that same first word. */
  lemma WordFixed(words: set<string>, b: string, x: string, m: nat)
    requires forall w :: w in words ==> w != "" && CR !in w
    requires WordStart(words, b) == Some(m) && Find(b[m..], CRLFCRLF, 0).Some?
    ensures WordStart(words, b + x) == Some(m)
    ensures Find(b, CRLFCRLF, 0).Some? && Find(b + x, CRLFCRLF, 0).Some?
    ensures (b + x)[m..] == b[m..] + x
  {
    var h := Find(b[m..], CRLFCRLF, 0).value;
    OccursShift(b, m, CRLFCRLF, h);
    NotAtBlankLine(words, b, m);
    WordStable(words, b, b + x, m + h);
    FindInPrefix(b, b + x, CRLFCRLF, 0);
  }

  // ------------------------------------------------------------------ stability

  lemma MessageStable<T(!new)>(sc: Scanner<T>, t: string, x: string)
    requires Lawful(sc) && Find(t, CRLFCRLF, 0).Some? && !sc.message(t).More?
    ensures sc.message(t + x) == sc.message(t)
  {
  }

  lemma DropOfAppend(t: string, x: string, n: nat)
    requires n <= |t|
    ensures (t + x)[n..] == t[n..] + x
  {
  }

  /** An accepting or throwing verdict, whatever precedes the word, survives any further bytes. */
  lemma FinalVerdictStable<T(!new)>(sc: Scanner<T>, b: string, x: string)
    requires Lawful(sc) && (Verdict(sc, b).Ok? || Verdict(sc, b).Raise?)
    ensures Verdict(sc, b + x) == Verdict(sc, b)
    ensures Rest(sc, b + x) == Rest(sc, b) + x
  {
    var m := WordStart(sc.words, b).value;
    var t := b[m..];
    VerdictAt(sc, b, m, t);
    WordFixed(sc.words, b, x, m);
    VerdictAt(sc, b + x, m, t + x);
    MessageStable(sc, t, x);
    DropOfAppend(t, x, if sc.message(t).Ok? then sc.message(t).next else 0);
  }

  /** A refusal survives too when the word comes first. */
  lemma RefusalStable<T(!new)>(sc: Scanner<T>, b: string, x: string)
    requires Lawful(sc) && Verdict(sc, b).Bad? && WordFirst(sc.words, b + x)
    ensures Verdict(sc, b + x).Bad?
  {
    WordArrived(sc.words, b, b + x);
    FindInPrefix(b, b + x, CRLFCRLF, 0);
    if WordStart(sc.words, b).None? { return; }
    var m, h := WordStart(sc.words, b).value, Find(b, CRLFCRLF, 0).value;
    var t := b[m..];
    OccursShift(b, m, CRLFCRLF, h - m);
    VerdictAt(sc, b, m, t);
    DropOfAppend(b, x, m);
    VerdictAt(sc, b + x, m, t + x);
    MessageStable(sc, t, x);
  }

  /** Every piece from the front of `s` that gets a verdict at all gets the one of `s`. */
  ghost predicate CutsAgree<T>(sc: Scanner<T>, s: string) {
    forall b :: b <= s && !Verdict(sc, b).More? ==> Agrees(sc, b, s)
  }

  ghost predicate Agrees<T>(sc: Scanner<T>, b: string, s: string) {
    Verdict(sc, b) == Verdict(sc, s)
  }

  lemma PieceVerdict<T(!new)>(sc: Scanner<T>, b: string, s: string)
    requires Lawful(sc) && b <= s && !Verdict(sc, b).More?
    requires WordFirst(sc.words, s) || Verdict(sc, s).Bad?
    ensures Agrees(sc, b, s)
  {
    var x := s[|b|..];
    assert b + x == s;
    if Verdict(sc, b).Bad? {
      if WordFirst(sc.words, s) {
        RefusalStable(sc, b, x);
      }
    } else {
      FinalVerdictStable(sc, b, x);
    }
  }

  lemma RefusedWithoutBlankLine<T(!new)>(sc: Scanner<T>, b: string)
    requires Lawful(sc) && Find(b, CRLFCRLF, 0).Some?
    requires var m := WordStart(sc.words, b); m.Some? ==> Find(b[m.value..], CRLFCRLF, 0).None?
    ensures Verdict(sc, b).Bad?
  {
    if WordStart(sc.words, b).None? { return; }
    var m := WordStart(sc.words, b).value;
    VerdictAt(sc, b, m, b[m..]);
    assert sc.message(b[m..]).Bad?;
  }

  /** With the word late, the stream up to its first blank line is refused. */
  lemma LateWordRefused<T(!new)>(sc: Scanner<T>, s: string, b: string)
    requires Lawful(sc) && !WordFirst(sc.words, s) && b == s[..Find(s, CRLFCRLF, 0).value + 4]
    ensures Verdict(sc, b).Bad?
  {
    LateWord(sc.words, s, b);
    RefusedWithoutBlankLine(sc, b);
  }

  lemma LateWord(words: set<string>, s: string, b: string)
    requires forall w :: w in words ==> w != "" && CR !in w
    requires !WordFirst(words, s) && b == s[..Find(s, CRLFCRLF, 0).value + 4]
    ensures Find(b, CRLFCRLF, 0).Some?
    ensures var m := WordStart(words, b); m.Some? ==> Find(b[m.value..], CRLFCRLF, 0).None?
  {
    var h := Find(s, CRLFCRLF, 0).value;
    OccursInPrefix(b, s, CRLFCRLF, h);
    if WordStart(words, b).None? { return; }
    var m := WordStart(words, b).value;
    WordAtInPrefix(words, b, s, m);
    NoSecondBlankLine(words, b, h, m);
  }

  lemma NoSecondBlankLine(words: set<string>, b: string, h: nat, m: nat)
    requires forall w :: w in words ==> w != "" && CR !in w
    requires |b| == h + 4 && h <= m <= |b| && WordAt(words, b, m)
    ensures Find(b[m..], CRLFCRLF, 0).None?
  {
    NotAtBlankLine(words, b, m);
    if Find(b[m..], CRLFCRLF, 0).Some? {
      OccursShift(b, m, CRLFCRLF, Find(b[m..], CRLFCRLF, 0).value);
    }
  }

  /** The condition is exact: a stream gets the same first verdict however it is cut if and only if its first
      word precedes the first blank line, or it is refused as a whole anyway. */
  lemma CutsAgreeExactly<T(!new)>(sc: Scanner<T>, s: string)
    requires Lawful(sc)
    ensures CutsAgree(sc, s) <==> WordFirst(sc.words, s) || Verdict(sc, s).Bad?
  {
    if WordFirst(sc.words, s) || Verdict(sc, s).Bad? {
      forall b | b <= s && !Verdict(sc, b).More?
        ensures Agrees(sc, b, s)
      {
        PieceVerdict(sc, b, s);
      }
    } else {
      var b := s[..Find(s, CRLFCRLF, 0).value + 4];
      LateWordRefused(sc, s, b);
      assert b <= s && !Agrees(sc, b, s);
    }
  }

  // ------------------------------------------------------------------ trimming

  /** Same verdict and same bytes left over; the cursors may be counted from different starts. */
  ghost predicate SameOutcome<T(!new)>(sc: Scanner<T>, b: string, b': string)
    requires Lawful(sc)
  {
    var r, r' := Verdict(sc, b), Verdict(sc, b');
    && (r.Ok? ==> r'.Ok? && r'.value == r.value)
    && (!r.Ok? ==> r' == r)
    && Rest(sc, b) == Rest(sc, b')
  }

  /** When a parser asks for more bytes (or throws) it may have dropped the bytes before the message: the next
      verdict, message and remainder are those it would have given with these bytes still there. */
  lemma TrimmingHarmless<T(!new)>(sc: Scanner<T>, b: string, x: string)
    requires Lawful(sc) && (Verdict(sc, b).More? || Verdict(sc, b).Raise?)
    ensures SameOutcome(sc, b + x, Rest(sc, b) + x)
  {
    if Find(b, CRLFCRLF, 0).None? { return; }
    var m := WordStart(sc.words, b).value;
    var t := b[m..];
    VerdictAt(sc, b, m, t);
    WordFixed(sc.words, b, x, m);
    VerdictAt(sc, b + x, m, t + x);
    TrimmedWordFirst(sc.words, b + x, m);
    FindInPrefix(t, t + x, CRLFCRLF, 0);
    VerdictAt(sc, t + x, 0, t + x);
  }

  lemma TrimmedWordFirst(words: set<string>, s: string, m: nat)
    requires WordStart(words, s) == Some(m) && m <= |s|
    ensures WordStart(words, s[m..]) == Some(0)
  {
    var w :| w in words && OccursAt(s, w, m);
    OccursShift(s, m, w, 0);
    assert FirstWordAt(words, s[m..], 0);
  }

  // ------------------------------------------------------------------ what a receive loop sees

  /** `Wait` for more bytes (an exception waits as well: it is swallowed and the loop receives again), a
      refusal, or a message and what follows it. */
  datatype Outcome<+T> = Wait(rest: string) | Refused | Taken(value: T, rest: string)

  ghost function Step<T(!new)>(sc: Scanner<T>, b: string): Outcome<T>
    requires Lawful(sc)
  {
    match Verdict(sc, b)
    case More => Wait(Rest(sc, b))
    case Raise => Wait(Rest(sc, b))
    case Bad => Refused
    case Ok(v, _) => Taken(v, Rest(sc, b))
  }

  /** A parser as the loop uses it, with the hypothesis on the front of the stream. */
  datatype Reader<!T> = Reader(step: string -> Outcome<T>, ready: string -> bool)

  /** The laws of incremental reading. */
  ghost predicate Incremental<T>(rd: Reader<T>) {
    && rd.step("") == Wait("")
    && (forall b :: rd.step(b).Taken? ==> |rd.step(b).rest| < |b|)
    && (forall b, x {:trigger rd.step(b), rd.step(b + x)} ::
          rd.step(b).Taken? ==> rd.step(b + x) == Taken(rd.step(b).value, rd.step(b).rest + x))
    && (forall b, x {:trigger rd.step(b), rd.step(b + x)} ::
          rd.step(b).Wait? ==> rd.step(b + x) == rd.step(rd.step(b).rest + x))
    && (forall b, x {:trigger rd.step(b), rd.step(b + x)} ::
          rd.step(b).Refused? && rd.ready(b + x) ==> rd.step(b + x).Refused?)
    && (forall b, x {:trigger rd.step(b), rd.ready(b + x)} ::
          rd.step(b).Wait? && rd.ready(b + x) ==> rd.ready(rd.step(b).rest + x))
  }

  ghost function ReaderOf<T(!new)>(sc: Scanner<T>): Reader<T>
    requires Lawful(sc)
  {
    Reader(b => Step(sc, b), b => WordFirst(sc.words, b))
  }

  lemma StepWaits<T(!new)>(sc: Scanner<T>, b: string)
    requires Lawful(sc) && |b| < 4
    ensures ReaderOf(sc).step(b) == Wait(b)
  {
    assert Find(b, CRLFCRLF, 0).None?;
    assert Verdict(sc, b).More? && Rest(sc, b) == b;
    assert Step(sc, b) == Wait(b);
  }

  lemma StepTaken<T(!new)>(sc: Scanner<T>, b: string, v: T, n: nat)
    requires Lawful(sc) && Verdict(sc, b) == Ok(v, n) && n <= |b|
    ensures ReaderOf(sc).step(b) == Taken(v, b[n..])
  {
  }

  lemma StepRefused<T(!new)>(sc: Scanner<T>, b: string)
    requires Lawful(sc) && Verdict(sc, b).Bad?
    ensures ReaderOf(sc).step(b) == Refused
  {
  }

  /** An accepted message takes at least one byte and at most the whole buffer, and leaves what is behind it. */
  lemma AcceptedConsumes<T(!new)>(sc: Scanner<T>, b: string)
    requires Lawful(sc) && Verdict(sc, b).Ok?
    ensures 0 < Verdict(sc, b).next <= |b|
    ensures Step(sc, b) == Taken(Verdict(sc, b).value, b[Verdict(sc, b).next..])
  {
    ConsumedInside(sc, b[WordStart(sc.words, b).value..]);
  }

  lemma StepShrinks<T(!new)>(sc: Scanner<T>, b: string)
    requires Lawful(sc) && Step(sc, b).Taken?
    ensures |Step(sc, b).rest| < |b|
  {
    AcceptedConsumes(sc, b);
  }

  lemma ConsumedInside<T(!new)>(sc: Scanner<T>, t: string)
    requires Lawful(sc) && sc.message(t).Ok?
    ensures 0 < sc.message(t).next <= |t|
  {
  }

  lemma StepExtends<T(!new)>(sc: Scanner<T>, b: string, x: string)
    requires Lawful(sc)
    ensures Step(sc, b).Taken? ==> Step(sc, b + x) == Taken(Step(sc, b).value, Step(sc, b).rest + x)
    ensures Step(sc, b).Wait? ==> Step(sc, b + x) == Step(sc, Step(sc, b).rest + x)
  {
    match Verdict(sc, b)
    case More => TrimmingHarmless(sc, b, x);
    case Raise => TrimmingHarmless(sc, b, x);
    case Bad =>
    case Ok(_, _) => FinalVerdictStable(sc, b, x);
  }

  lemma ReadyAfterTrim<T(!new)>(sc: Scanner<T>, b: string, x: string)
    requires Lawful(sc) && Step(sc, b).Wait? && WordFirst(sc.words, b + x)
    ensures WordFirst(sc.words, Step(sc, b).rest + x)
  {
    if Find(b, CRLFCRLF, 0).None? { return; }
    var m := TrimmedRest(sc, b, x);
    NotAtBlankLine(sc.words, Step(sc, b).rest + x, 0);
  }

  /** A buffer that waits behind its word: what was dropped is the same for every extension. */
  lemma TrimmedRest<T(!new)>(sc: Scanner<T>, b: string, x: string) returns (m: nat)
    requires Lawful(sc) && Step(sc, b).Wait? && Find(b, CRLFCRLF, 0).Some?
    ensures WordStart(sc.words, b + x) == Some(m) && (b + x)[m..] == Step(sc, b).rest + x
    ensures Find(b + x, CRLFCRLF, 0).Some? && WordStart(sc.words, Step(sc, b).rest + x) == Some(0)
  {
    m := WordStart(sc.words, b).value;
    VerdictAt(sc, b, m, b[m..]);
    WordFixed(sc.words, b, x, m);
    TrimmedWordFirst(sc.words, b + x, m);
  }

  /** Both parsers obey the laws. */
  lemma ReaderIncremental<T(!new)>(sc: Scanner<T>)
    requires Lawful(sc)
    ensures Incremental(ReaderOf(sc))
  {
    StepWaits(sc, "");
    forall b | Step(sc, b).Taken?
      ensures |Step(sc, b).rest| < |b|
    {
      StepShrinks(sc, b);
    }
    forall b, x
      ensures Step(sc, b).Taken? ==> Step(sc, b + x) == Taken(Step(sc, b).value, Step(sc, b).rest + x)
      ensures Step(sc, b).Wait? ==> Step(sc, b + x) == Step(sc, Step(sc, b).rest + x)
    {
      StepExtends(sc, b, x);
    }
    forall b, x | Step(sc, b).Refused? && WordFirst(sc.words, b + x)
      ensures Step(sc, b + x).Refused?
    {
      RefusalStable(sc, b, x);
    }
    forall b, x | Step(sc, b).Wait? && WordFirst(sc.words, b + x)
      ensures WordFirst(sc.words, Step(sc, b).rest + x)
    {
      ReadyAfterTrim(sc, b, x);
    }
  }

  // ------------------------------------------------------------------ from the front of a buffer

  /** A message is accepted from the bytes it consumes alone. */
  ghost predicate Local<T>(sc: Scanner<T>) {
    forall t, u {:trigger sc.message(t), sc.message(u)} ::
      u <= t && sc.message(t).Ok? && sc.message(t).next <= |u| ==> sc.message(u) == sc.message(t)
  }

  lemma MessageFromFront<T(!new)>(sc: Scanner<T>, s: string, b: string, m: nat)
    requires Local(sc) && b <= s && m <= |s| && sc.message(s[m..]).Ok? && m + sc.message(s[m..]).next <= |b|
    ensures m <= |b| && sc.message(b[m..]) == sc.message(s[m..])
  {
    assert b[m..] <= s[m..];
  }

  lemma FrontHasWord(words: set<string>, s: string, b: string, m: nat)
    requires forall w :: w in words ==> w != "" && CR !in w
    requires b <= s && m <= |b| && WordStart(words, s) == Some(m) && Find(b[m..], CRLFCRLF, 0).Some?
    ensures WordStart(words, b) == Some(m) && Find(b, CRLFCRLF, 0).Some?
  {
    var h := Find(b[m..], CRLFCRLF, 0).value;
    OccursShift(b, m, CRLFCRLF, h);
    WordStartInFront(words, s, b, m, m + h);
  }

  lemma BlankLineInside<T(!new)>(sc: Scanner<T>, u: string)
    requires Lawful(sc) && sc.message(u).Ok?
    ensures Find(u, CRLFCRLF, 0).Some?
  {
  }

  lemma AcceptedAt<T(!new)>(sc: Scanner<T>, s: string) returns (m: nat)
    requires Lawful(sc) && Verdict(sc, s).Ok?
    ensures WordStart(sc.words, s) == Some(m) && m <= |s| && Find(s, CRLFCRLF, 0).Some?
    ensures sc.message(s[m..]).Ok? && Verdict(sc, s).next == m + sc.message(s[m..]).next
  {
    m := WordStart(sc.words, s).value;
  }

  /** And so is a verdict: a piece from the front of a buffer that holds the message accepts it as the buffer does. */
  lemma AcceptedFromFront<T(!new)>(sc: Scanner<T>, s: string, b: string)
    requires Lawful(sc) && Local(sc) && b <= s && Verdict(sc, s).Ok? && Verdict(sc, s).next <= |b|
    ensures Verdict(sc, b) == Verdict(sc, s)
  {
    var m := AcceptedAt(sc, s);
    MessageFromFront(sc, s, b, m);
    BlankLineInside(sc, b[m..]);
    FrontHasWord(sc.words, s, b, m);
    SameVerdict(sc, s, b, m);
  }

  lemma SameVerdict<T(!new)>(sc: Scanner<T>, s: string, b: string, m: nat)
    requires m <= |s| && m <= |b| && sc.message(b[m..]) == sc.message(s[m..])
    requires WordStart(sc.words, s) == Some(m) && WordStart(sc.words, b) == Some(m)
    requires Find(s, CRLFCRLF, 0).Some? && Find(b, CRLFCRLF, 0).Some?
    ensures Verdict(sc, b) == Verdict(sc, s)
  {
  }

  lemma WordStartInFront(words: set<string>, s: string, b: string, m: nat, h: nat)
    requires forall w :: w in words ==> w != "" && CR !in w
    requires b <= s && WordStart(words, s) == Some(m) && OccursAt(b, CRLFCRLF, h) && m <= h
    ensures WordStart(words, b) == Some(m)
  {
    OccursInPrefix(b, s, CRLFCRLF, h);
    NotAtBlankLine(words, s, m);
    NoOvertaking(words, b, s, h, m);
    forall j | 0 <= j < m
      ensures !WordAt(words, b, j)
    {
      if WordAt(words, b, j) { WordAtInPrefix(words, b, s, j); }
    }
    WordStartIs(words, b, m);
  }

  /** What the converse of chunking independence needs of a reader: what it takes it takes from the bytes up to what it
      leaves, and a stream it is not ready for has a piece at the front that it refuses. */
  ghost predicate Exact<T>(rd: Reader<T>) {
    && (forall s, b :: TakesFromFront(rd, s, b))
    && (forall s :: !rd.ready(s) ==> RefusesFront(rd, s))
  }

  ghost predicate TakesFromFront<T>(rd: Reader<T>, s: string, b: string) {
    rd.step(s).Taken? ==>
      var rest := rd.step(s).rest;
      && |rest| <= |s| && rest == s[|s| - |rest|..]
      && (b <= s && |s| - |rest| <= |b| ==> rd.step(b) == Taken(rd.step(s).value, b[|s| - |rest|..]))
  }

  ghost predicate RefusesFront<T>(rd: Reader<T>, s: string) {
    exists b :: b <= s && rd.step(b).Refused?
  }

  lemma ReaderTakesFromFront<T(!new)>(sc: Scanner<T>, s: string, b: string)
    requires Lawful(sc) && Local(sc)
    ensures TakesFromFront(ReaderOf(sc), s, b)
  {
    if !Verdict(sc, s).Ok? { return; }
    AcceptedConsumes(sc, s);
    var n := Verdict(sc, s).next;
    if b <= s && n <= |b| {
      AcceptedFromFront(sc, s, b);
      AcceptedConsumes(sc, b);
    }
    TakenFromFront(sc, s, b, n);
  }

  lemma TakenFromFront<T(!new)>(sc: Scanner<T>, s: string, b: string, n: nat)
    requires Lawful(sc) && n <= |s| && Step(sc, s).Taken? && Step(sc, s).rest == s[n..]
    requires b <= s && n <= |b| ==> Step(sc, b) == Taken(Step(sc, s).value, b[n..])
    ensures TakesFromFront(ReaderOf(sc), s, b)
  {
  }

  lemma ReaderExact<T(!new)>(sc: Scanner<T>)
    requires Lawful(sc) && Local(sc)
    ensures Exact(ReaderOf(sc))
  {
    forall s, b
      ensures TakesFromFront(ReaderOf(sc), s, b)
    {
      ReaderTakesFromFront(sc, s, b);
    }
    forall s | !WordFirst(sc.words, s)
      ensures RefusesFront(ReaderOf(sc), s)
    {
      var b := s[..Find(s, CRLFCRLF, 0).value + 4];
      LateWordRefused(sc, s, b);
      assert b <= s && ReaderOf(sc).step(b).Refused?;
    }
  }
}
