/** The loops of a connection over the parser in machine words: when the inner loop ends, and that within the bound all
    is as in unbounded arithmetic. */
module WordStream {
  import opened Strings
  import opened Numbers
  import opened Fields
  import opened Framing
  import opened Messages
  import opened Scanning
  import opened Requests
  import opened ClientStream
  import opened Bounds
  import opened Words

  /** A parser on a buffer, as the loop sees it; `None` if it does not return. */
  type Parse = string -> Option<Outcome<Request>>

  /** What is left is never longer than the buffer, and is the buffer itself if nothing was consumed. */
  ghost predicate Leaves(parse: Parse) {
    forall b :: LeavesOf(parse, b)
  }

  ghost predicate LeavesOf(parse: Parse, b: string) {
    match parse(b)
    case Some(Taken(_, rest)) => |rest| <= |b| && (|rest| == |b| ==> rest == b)
    case Some(Wait(rest)) => |rest| <= |b|
    case _ => true
  }

  // ------------------------------------------------------------------ the inner loop

  /** The inner loop; `None` if it has not ended after `fuel` requests. */
  ghost function DrainFor(parse: Parse, b: string, fuel: nat): Option<Served>
    decreases fuel
  {
    match parse(b)
    case None => None
    case Some(Wait(rest)) => Some(Served([], Waiting(rest)))
    case Some(Refused) => Some(Served([Reject], Closed))
    case Some(Taken(r, rest)) =>
      if r.verb == CONNECT then Some(Served([Dispatch(r)], Tunnel))
      else if fuel == 0 then None
      else
        match DrainFor(parse, rest, fuel - 1)
        case None => None
        case Some(s) => Some(Before([Dispatch(r)], s))
  }

  /** The inner loop ends. */
  ghost predicate Ends(parse: Parse, b: string) {
    exists fuel :: DrainFor(parse, b, fuel).Some?
  }

  /** At every boundary the loop reaches the parser returns and, if it accepts, consumes something. */
  ghost predicate GoesOn(parse: Parse, b: string)
    decreases |b|
  {
    match parse(b)
    case None => false
    case Some(Taken(r, rest)) => r.verb != CONNECT ==> |rest| < |b| && GoesOn(parse, rest)
    case _ => true
  }

  ghost function DrainInWords(parse: Parse, b: string): Served
    requires GoesOn(parse, b)
    decreases |b|
  {
    match parse(b)
    case Some(Wait(rest)) => Served([], Waiting(rest))
    case Some(Refused) => Served([Reject], Closed)
    case Some(Taken(r, rest)) =>
      if r.verb == CONNECT then Served([Dispatch(r)], Tunnel)
      else Before([Dispatch(r)], DrainInWords(parse, rest))
  }

  lemma {:induction false} GoingOnEnds(parse: Parse, b: string, fuel: nat)
    requires GoesOn(parse, b) && |b| <= fuel
    ensures DrainFor(parse, b, fuel) == Some(DrainInWords(parse, b))
    decreases |b|
  {
    match parse(b)
    case Some(Taken(r, rest)) =>
      if r.verb != CONNECT { GoingOnEnds(parse, rest, fuel - 1); }
    case _ =>
  }

  lemma {:induction false} EndsGoingOn(parse: Parse, b: string, fuel: nat)
    requires Leaves(parse) && DrainFor(parse, b, fuel).Some?
    ensures GoesOn(parse, b)
    decreases fuel
  {
    assert LeavesOf(parse, b);
    match parse(b)
    case Some(Taken(r, rest)) =>
      if r.verb == CONNECT { return; }
      EndsGoingOn(parse, rest, fuel - 1);
      if |rest| == |b| {
        SameAgain(parse, b, r, fuel);
      }
    case _ =>
  }

  /** A request that is taken without consuming anything is taken again and again. */
  lemma {:induction false} SameAgain(parse: Parse, b: string, r: Request, fuel: nat)
    requires parse(b) == Some(Taken(r, b)) && r.verb != CONNECT
    ensures DrainFor(parse, b, fuel).None?
    decreases fuel
  {
    if fuel > 0 {
      SameAgain(parse, b, r, fuel - 1);
    }
  }

  /** The inner loop ends if and only if at every boundary it reaches the parser returns and, if it accepts, consumes
      something. */
  lemma DispatchEndsExactly(parse: Parse, b: string)
    requires Leaves(parse)
    ensures Ends(parse, b) <==> GoesOn(parse, b)
  {
    if GoesOn(parse, b) {
      GoingOnEnds(parse, b, |b|);
    }
    if fuel: nat :| DrainFor(parse, b, fuel).Some? {
      EndsGoingOn(parse, b, fuel);
    }
  }

  // ------------------------------------------------------------------ the request parser

  ghost function RequestParse(style: LengthStyle): Parse {
    b => CodeStep(RequestGrammar(style), METHODS, b)
  }

  lemma {:induction false} CodeLeaves<T>(g: Grammar<T>, words: set<string>, b: string)
    ensures match CodeStep(g, words, b)
            case Some(Taken(_, rest)) => |rest| <= |b| && (|rest| == |b| ==> rest == b)
            case Some(Wait(rest)) => |rest| <= |b|
            case _ => true
  {
  }

  lemma RequestParseLeaves(style: LengthStyle)
    ensures Leaves(RequestParse(style))
  {
    forall b
      ensures LeavesOf(RequestParse(style), b)
    {
      CodeLeaves(RequestGrammar(style), METHODS, b);
    }
  }

  /** The parser does not return: the chunk loop comes to a cursor where it has been before. */
  ghost predicate GoesRound(g: Grammar<Request>, b: string) {
    exists t, c :: EntersChunks(g, METHODS, b, t, c) && Revisits(g.rules, t, c)
  }

  /** The request at the front of the buffer is taken and stays there: its Content-Length body ends at 2^32. */
  ghost predicate StaysThere(g: Grammar<Request>, b: string) {
    EndsAtZero(g, METHODS, b) && StartVerb(ReadHead(g, b).value.start) != CONNECT
  }

  function StartVerb(start: StartLine): string {
    match start
    case RequestLine(verb, _) => verb
    case StatusLine(_) => ""
  }

  /** A request whose body ends at 2^32 is taken, and takes nothing off the buffer. */
  lemma TakenForNothing(g: Grammar<Request>, style: LengthStyle, b: string) returns (r: Request)
    requires IsRequestGrammar(g, style) && |b| < TWO_31 && EndsAtZero(g, METHODS, b)
    ensures CodeVerdict(g, METHODS, b) == Some(Ok(r, 0)) && r.verb == StartVerb(ReadHead(g, b).value.start)
  {
    var head := ReadHead(g, b);
    var h := DropLength(head.value.fields.headers);
    Wraps(head.next + (TWO_32 - head.next));
    assert b[0..] == b;
    var content := Content(h, Substr(b, head.next, TWO_32 - head.next));
    assert BodyInWords(g.rules, b, head.next, head.value.fields, 0) == Some(Ok(content, 0));
    r := FinishedRequest(g, style, b, content);
    VerdictBehind(g, METHODS, b, 0, 0, Ok(r, 0));
  }

  lemma FinishedRequest(g: Grammar<Request>, style: LengthStyle, b: string, content: Content) returns (r: Request)
    requires IsRequestGrammar(g, style) && ReadHead(g, b).Ok?
    ensures var head := ReadHead(g, b).value;
            r.verb == StartVerb(head.start) && g.finish(head.start, head.fields.headers, content) == Some(r)
  {
    var head := ReadHead(g, b).value;
    var lines := HeadLines(b, Find(b, CRLFCRLF, 0).value);
    assert g.startLine(lines[0]) == ReadRequestLine(lines[0]);
    assert g.accept(head.fields.headers) == (HOST in head.fields.headers);
    assert g.finish(head.start, head.fields.headers, content)
        == FinishRequest(head.start, head.fields.headers, content);
    r := FinishRequest(head.start, head.fields.headers, content).value;
  }

  lemma VerbOfVerdict(g: Grammar<Request>, style: LengthStyle, b: string)
    requires IsRequestGrammar(g, style) && |b| < TWO_31
    requires CodeVerdict(g, METHODS, b).Some? && CodeVerdict(g, METHODS, b).value.Ok?
    ensures CodeVerdict(g, METHODS, b).value.next == 0 <==> EndsAtZero(g, METHODS, b)
    ensures CodeVerdict(g, METHODS, b).value.next == 0 ==>
              CodeVerdict(g, METHODS, b).value.value.verb == StartVerb(ReadHead(g, b).value.start)
  {
    ConsumesNothingExactly(g, true, METHODS, b);
    if EndsAtZero(g, METHODS, b) {
      var r := TakenForNothing(g, style, b);
    }
  }

  /** The inner loop cannot get over the request at the front of `b`. */
  ghost predicate Stuck(g: Grammar<Request>, b: string) {
    GoesRound(g, b) || StaysThere(g, b)
  }

  ghost function StuckOf(style: LengthStyle): string -> bool {
    b => Stuck(RequestGrammar(style), b)
  }

  /** `stuck` says where `parse` does not return, or takes a request without consuming anything. */
  ghost predicate Decides(parse: Parse, stuck: string -> bool, b: string) {
    match parse(b)
    case None => stuck(b)
    case Some(Taken(r, rest)) =>
      if r.verb == CONNECT then !stuck(b) else |rest| <= |b| && (|rest| == |b| <==> stuck(b))
    case _ => !stuck(b)
  }

  ghost predicate DecidesAll(parse: Parse, stuck: string -> bool) {
    forall b | |b| < TWO_31 :: Decides(parse, stuck, b)
  }

  /** What decides a boundary, in terms of the bytes there. */
  lemma BoundaryExactly(style: LengthStyle, b: string)
    requires |b| < TWO_31
    ensures Decides(RequestParse(style), StuckOf(style), b)
  {
    var g := RequestGrammar(style);
    RequestGrammarIs(style);
    ReturnsExactly(g, METHODS, b);
    CodeLeaves(g, METHODS, b);
    if EndsAtZero(g, METHODS, b) {
      var r := TakenForNothing(g, style, b);
    }
    if CodeVerdict(g, METHODS, b).Some? && CodeVerdict(g, METHODS, b).value.Ok? {
      VerbOfVerdict(g, style, b);
    }
  }

  /** What is left of the buffer after `k` requests, if the loop gets that far. */
  ghost function Boundary(parse: Parse, b: string, k: nat): Option<string>
    decreases k
  {
    if k == 0 then Some(b)
    else
      match parse(b)
      case Some(Taken(r, rest)) => if r.verb == CONNECT then None else Boundary(parse, rest, k - 1)
      case _ => None
  }

  ghost predicate StopsAt(parse: Parse, stuck: string -> bool, b: string, k: nat) {
    Boundary(parse, b, k).Some? && stuck(Boundary(parse, b, k).value)
  }

  /** At none of the boundaries the loop reaches it is stuck. */
  ghost predicate NeverStuck(parse: Parse, stuck: string -> bool, b: string) {
    forall k: nat :: !StopsAt(parse, stuck, b, k)
  }

  lemma {:induction false} GoesOnExactly(parse: Parse, stuck: string -> bool, b: string)
    requires |b| < TWO_31 && DecidesAll(parse, stuck)
    ensures GoesOn(parse, b) <==> NeverStuck(parse, stuck, b)
    decreases |b|
  {
    assert Decides(parse, stuck, b);
    assert StopsAt(parse, stuck, b, 0) <==> stuck(b);
    if parse(b).Some? && parse(b).value.Taken? && parse(b).value.value.verb != CONNECT && !stuck(b) {
      var rest := parse(b).value.rest;
      GoesOnExactly(parse, stuck, rest);
      assert forall k: nat :: Boundary(parse, rest, k) == Boundary(parse, b, k + 1);
      forall k: nat
        ensures StopsAt(parse, stuck, b, k) <==> k > 0 && StopsAt(parse, stuck, rest, k - 1)
      {
        if k > 0 {
          assert Boundary(parse, rest, k - 1) == Boundary(parse, b, k);
        }
      }
      if k: nat :| StopsAt(parse, stuck, rest, k) {
        assert StopsAt(parse, stuck, b, k + 1);
      }
    }
  }

  lemma EndsExactly(parse: Parse, stuck: string -> bool, b: string)
    requires Leaves(parse) && |b| < TWO_31 && DecidesAll(parse, stuck)
    ensures Ends(parse, b) <==> NeverStuck(parse, stuck, b)
  {
    DispatchEndsExactly(parse, b);
    GoesOnExactly(parse, stuck, b);
  }

  lemma BoundariesExactly(style: LengthStyle)
    ensures DecidesAll(RequestParse(style), StuckOf(style))
  {
    forall b | |b| < TWO_31
      ensures Decides(RequestParse(style), StuckOf(style), b)
    {
      BoundaryExactly(style, b);
    }
  }

  /** The inner loop ends if and only if at no boundary it reaches the chunk loop comes to a cursor where it has been
      before, or a Content-Length body ends at 2^32. */
  lemma InnerLoopEndsExactly(style: LengthStyle, b: string)
    requires |b| < TWO_31
    ensures Ends(RequestParse(style), b) <==> NeverStuck(RequestParse(style), StuckOf(style), b)
  {
    RequestParseLeaves(style);
    BoundariesExactly(style);
    EndsExactly(RequestParse(style), StuckOf(style), b);
  }

  // ------------------------------------------------------------------ the outer loop

  /** Every buffer is below 2^31 bytes, and the inner loop ends on it. */
  ghost predicate ServeGoesOn(parse: Parse, buffer: string, pieces: seq<string>)
    decreases |pieces|
  {
    pieces == [] || pieces[0] == "" ||
    (var b := buffer + pieces[0];
     && |b| < TWO_31 && GoesOn(parse, b)
     && var s := DrainInWords(parse, b);
     s.phase.Waiting? ==> ServeGoesOn(parse, s.phase.buffer, pieces[1..]))
  }

  ghost function ServeInWords(parse: Parse, buffer: string, pieces: seq<string>): Served
    requires ServeGoesOn(parse, buffer, pieces)
    decreases |pieces|
  {
    if pieces == [] || pieces[0] == "" then Served([], Waiting(buffer))
    else
      var s := DrainInWords(parse, buffer + pieces[0]);
      if s.phase.Waiting? then Before(s.events, ServeInWords(parse, s.phase.buffer, pieces[1..])) else s
  }

  // ------------------------------------------------------------------ within the bound

  /** Every buffer the inner loop parses is within the bound. */
  ghost predicate DrainFits(rd: Reader<Request>, fits: string -> bool, b: string)
    requires Incremental(rd)
    decreases |b|
  {
    && fits(b)
    && match rd.step(b)
       case Taken(r, rest) => r.verb != CONNECT ==> DrainFits(rd, fits, rest)
       case _ => true
  }

  /** So is every buffer of the connection. */
  ghost predicate ServeFits(rd: Reader<Request>, fits: string -> bool, buffer: string, pieces: seq<string>)
    requires Incremental(rd)
    decreases |pieces|
  {
    pieces == [] || pieces[0] == "" ||
    (var s := Drain(rd, buffer + pieces[0]);
     && DrainFits(rd, fits, buffer + pieces[0])
     && (s.phase.Waiting? ==> ServeFits(rd, fits, s.phase.buffer, pieces[1..])))
  }

  /** On buffers within the bound `parse` returns and is the reader `rd`. */
  ghost predicate ReadsWithin(parse: Parse, rd: Reader<Request>, fits: string -> bool) {
    forall b :: fits(b) ==> |b| < TWO_31 && parse(b) == Some(rd.step(b))
  }

  lemma GrammarReadsWithin(parse: Parse, rd: Reader<Request>, sc: Scanner<Request>, g: Grammar<Request>)
    requires forall b :: parse(b) == CodeStep(g, sc.words, b)
    requires StepsBy(rd, sc) && ScansBy(sc, g) && ReadAs(g.rules, true)
    ensures ReadsWithin(parse, rd, FitsOf(g, sc.words))
  {
    forall b | Fits(g, sc.words, b)
      ensures parse(b) == Some(rd.step(b))
    {
      StepWithinBound(sc, g, true, b);
    }
  }

  lemma {:induction false} DrainWithin(parse: Parse, rd: Reader<Request>, fits: string -> bool, b: string)
    requires Incremental(rd) && ReadsWithin(parse, rd, fits) && DrainFits(rd, fits, b)
    ensures GoesOn(parse, b) && DrainInWords(parse, b) == Drain(rd, b)
    decreases |b|
  {
    assert fits(b);
    match rd.step(b)
    case Taken(r, rest) =>
      if r.verb != CONNECT { DrainWithin(parse, rd, fits, rest); }
    case _ =>
  }

  /** Within the bound the loops end and serve what they serve in unbounded arithmetic. */
  lemma {:induction false} ServeWithin(parse: Parse, rd: Reader<Request>, fits: string -> bool, buffer: string,
                                       pieces: seq<string>)
    requires Incremental(rd) && ReadsWithin(parse, rd, fits) && ServeFits(rd, fits, buffer, pieces)
    ensures ServeGoesOn(parse, buffer, pieces) && ServeInWords(parse, buffer, pieces) == Serve(rd, buffer, pieces)
    decreases |pieces|
  {
    if pieces == [] || pieces[0] == "" { return; }
    var b := buffer + pieces[0];
    DrainWithin(parse, rd, fits, b);
    assert fits(b);
    var s := Drain(rd, b);
    if s.phase.Waiting? {
      ServeWithin(parse, rd, fits, s.phase.buffer, pieces[1..]);
    }
  }
}
