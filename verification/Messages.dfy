/** A message that starts at the front of a buffer: start line, header section, body. Both parsers have this
    shape; a `Grammar` holds what differs. */
module Messages {
  import opened Strings
  import opened Numbers
  import opened Fields
  import opened Framing
  import opened Scanning

  datatype StartLine = RequestLine(verb: string, url: string) | StatusLine(text: string)

  /** `startLine` reads the first line (without its LF), `accept` is the check between headers and body,
      and `finish` builds the result; `None` there is an exception. */
  datatype Grammar<!T> = Grammar(
    rules: Rules,
    startLine: string -> Option<StartLine>,
    accept: Headers -> bool,
    finish: (StartLine, Headers, Content) -> Option<T>)

  datatype Head = Head(start: StartLine, fields: Section)

  /** A start line and the header lines behind it, of which there must be one. */
  ghost function JudgeHead<T>(g: Grammar<T>, lines: seq<string>): Option<Head>
    requires lines != []
  {
    match g.startLine(lines[0])
    case None => None
    case Some(start) =>
      if |lines| == 1 then None
      else
        match AddLines(g.rules, EMPTY_SECTION, lines[1..])
        case None => None
        case Some(f) => if g.accept(f.headers) then Some(Head(start, f)) else None
  }

  /** The lines in front of the blank line at `h`. */
  ghost function HeadLines(t: string, h: nat): (lines: seq<string>)
    requires OccursAt(t, CRLFCRLF, h)
    ensures lines != []
  {
    OccursCrlfCrlf(t, h);
    Lines(t, 0, h + 2)
  }

  /** Start line and header section, up to the first blank line; without one the message is refused. */
  ghost function ReadHead<T>(g: Grammar<T>, t: string): (r: Scan<Head>)
    ensures r.Ok? || r.Bad?
    ensures r.Ok? ==> 4 <= r.next <= |t| && Find(t, CRLFCRLF, 0) == Some(r.next - 4)
  {
    match Find(t, CRLFCRLF, 0)
    case None => Bad
    case Some(h) =>
      match JudgeHead(g, HeadLines(t, h))
      case None => Bad
      case Some(head) => Ok(head, h + 4)
  }

  /** `ReadHead` taken apart: the first line, and the lines between it and the blank line at `h`. */
  lemma ReadHeadIs<T>(g: Grammar<T>, t: string, h: nat, e: nat)
    requires Find(t, CRLFCRLF, 0) == Some(h) && Find(t, [LF], 0) == Some(e)
    ensures e + 1 <= h + 2 <= |t| && t[h + 1] == LF
    ensures var start := g.startLine(t[..e]);
            ReadHead(g, t) ==
            if start.None? || e + 1 == h + 2 then Bad
            else
              match AddLines(g.rules, EMPTY_SECTION, Lines(t, e + 1, h + 2))
              case None => Bad
              case Some(f) => if g.accept(f.headers) then Ok(Head(start.value, f), h + 4) else Bad
  {
    HeadLinesAre(t, h, e);
  }

  lemma HeadLinesAre(t: string, h: nat, e: nat)
    requires Find(t, CRLFCRLF, 0) == Some(h) && Find(t, [LF], 0) == Some(e)
    ensures e + 1 <= h + 2 <= |t| && t[h + 1] == LF && HeadLines(t, h)[0] == t[..e]
    ensures if e + 1 == h + 2 then |HeadLines(t, h)| == 1
            else |HeadLines(t, h)| > 1 && HeadLines(t, h)[1..] == Lines(t, e + 1, h + 2)
  {
    OccursCrlfCrlf(t, h);
    assert LineEnd(t, 0, h + 2) == e;
    assert t[0..e] == t[..e];
    if e + 1 < h + 2 {
      assert HeadLines(t, h) == [t[..e]] + Lines(t, e + 1, h + 2);
    }
  }

  /** The same from the parts: the start line is read as `start`, the lines behind it as `section`. */
  lemma ReadHeadFrom<T>(g: Grammar<T>, t: string, h: nat, e: nat, start: StartLine, section: Option<Section>)
    requires Find(t, CRLFCRLF, 0) == Some(h) && Find(t, [LF], 0) == Some(e) && g.startLine(t[..e]) == Some(start)
    requires e + 1 <= h + 2 <= |t| && t[h + 1] == LF
    requires section == if e + 1 == h + 2 then None else AddLines(g.rules, EMPTY_SECTION, Lines(t, e + 1, h + 2))
    ensures ReadHead(g, t) ==
            if section.Some? && g.accept(section.value.headers) then Ok(Head(start, section.value), h + 4) else Bad
  {
    ReadHeadIs(g, t, h, e);
  }

  ghost function ReadMessage<T>(g: Grammar<T>, t: string): (r: Scan<T>)
    ensures r.Ok? ==> 4 <= r.next <= |t|
    ensures !r.Bad? ==> Find(t, CRLFCRLF, 0).Some?
  {
    match ReadHead(g, t)
    case More => More
    case Bad => Bad
    case Raise => Raise
    case Ok(head, start) =>
      match ReadBody(g.rules, t, start, head.fields)
      case More => More
      case Bad => Bad
      case Raise => Raise
      case Ok(content, next) =>
        match g.finish(head.start, head.fields.headers, content)
        case None => Raise
        case Some(v) => Ok(v, next)
  }

  lemma ReadHeadInPrefix<T>(g: Grammar<T>, t: string, u: string)
    requires t <= u && Find(t, CRLFCRLF, 0).Some?
    ensures ReadHead(g, u) == ReadHead(g, t)
  {
    FindInPrefix(t, u, CRLFCRLF, 0);
    var h := Find(t, CRLFCRLF, 0).value;
    OccursCrlfCrlf(t, h);
    LinesInPrefix(t, u, 0, h + 2);
  }

  /** Once the blank line is there, a verdict does not change with the bytes that follow. */
  lemma ReadMessageInPrefix<T>(g: Grammar<T>, t: string, u: string)
    requires t <= u && Find(t, CRLFCRLF, 0).Some? && !ReadMessage(g, t).More?
    ensures ReadMessage(g, u) == ReadMessage(g, t)
  {
    ReadHeadInPrefix(g, t, u);
    var head := ReadHead(g, t);
    if head.Ok? {
      ReadBodyInPrefix(g.rules, t, u, head.next, head.value.fields);
    }
  }

  /** What is accepted is accepted from the bytes it consumes alone. */
  lemma ReadMessageFromFront<T>(g: Grammar<T>, t: string, u: string)
    requires u <= t && ReadMessage(g, t).Ok? && ReadMessage(g, t).next <= |u|
    ensures ReadMessage(g, u) == ReadMessage(g, t)
  {
    FindInFront(t, u, CRLFCRLF, 0);
    ReadHeadInPrefix(g, u, t);
    var head := ReadHead(g, t);
    if ReadBody(g.rules, u, head.next, head.value.fields).More? {
      BodyWaitsBeyond(g.rules, t, u, head.next, head.value.fields);
    }
    ReadMessageInPrefix(g, u, t);
  }

  /** The declared lengths met on the way through `t` are ones the machine words of the code handle. */
  ghost predicate MessageFits<T>(g: Grammar<T>, t: string) {
    var head := ReadHead(g, t);
    head.Ok? ==> BodyFits(g.rules, t, head.next, head.value.fields)
  }

  lemma MessageFitsInPrefix<T>(g: Grammar<T>, t: string, u: string)
    requires t <= u && |u| < TWO_31 && MessageFits(g, u)
    ensures MessageFits(g, t)
  {
    if Find(t, CRLFCRLF, 0).Some? {
      ReadHeadInPrefix(g, t, u);
      var head := ReadHead(g, t);
      if head.Ok? {
        BodyFitsInPrefix(g.rules, t, u, head.next, head.value.fields);
      }
    }
  }

  // ------------------------------------------------------------------ messages as scanners

  /** `sc` scans by the grammar `g`. */
  ghost predicate ScansBy<T(!new)>(sc: Scanner<T>, g: Grammar<T>) {
    forall t {:trigger ReadMessage(g, t)} {:trigger sc.message(t)} :: sc.message(t) == ReadMessage(g, t)
  }

  lemma MessageFinal<T(!new)>(sc: Scanner<T>, g: Grammar<T>, t: string, u: string)
    requires ScansBy(sc, g) && t <= u && Find(t, CRLFCRLF, 0).Some? && !sc.message(t).More?
    ensures sc.message(u) == sc.message(t)
  {
    ReadMessageInPrefix(g, t, u);
  }

  /** Verdicts by a grammar are final once the blank line is there. */
  lemma GrammarLawful<T(!new)>(sc: Scanner<T>, g: Grammar<T>)
    requires ScansBy(sc, g) && forall w :: w in sc.words ==> w != "" && CR !in w
    ensures Lawful(sc)
  {
    forall t, u | t <= u && Find(t, CRLFCRLF, 0).Some? && !sc.message(t).More?
      ensures sc.message(u) == sc.message(t)
    {
      MessageFinal(sc, g, t, u);
    }
  }

  /** And they depend only on the bytes consumed. */
  lemma GrammarLocal<T(!new)>(sc: Scanner<T>, g: Grammar<T>)
    requires ScansBy(sc, g)
    ensures Local(sc)
  {
    forall t, u | u <= t && sc.message(t).Ok? && sc.message(t).next <= |u|
      ensures sc.message(u) == sc.message(t)
    {
      ReadMessageFromFront(g, t, u);
    }
  }
}
