/** The class `ClientHandler`: the receive loop of one connection. */
module ClientHandlers {
  import opened Strings
  import opened Numbers
  import opened Framing
  import opened Messages
  import opened Scanning
  import opened Requests
  import opened ClientStream
  import opened Bounds
  import opened Words
  import opened WordStream
  import opened ParserCode
  import opened HttpRequests

  // ------------------------------------------------------------------ buffers the parser can handle

  lemma {:induction false} DrainFitsInTwo(rd: Reader<Request>, fits: string -> bool, b: string, x: string)
    requires Incremental(rd) && Inherited(rd, fits) && Orderly(rd, b + x) && DrainFits(rd, fits, b + x)
    ensures DrainFits(rd, fits, b)
    ensures var s := Drain(rd, b); s.phase.Waiting? ==> DrainFits(rd, fits, s.phase.buffer + x)
    decreases |b|
  {
    assert rd.ready(b + x) && fits(b + x);
    match rd.step(b)
    case Wait(rest) =>
      assert rd.step(b + x) == rd.step(rest + x);
    case Refused =>
    case Taken(r, rest) =>
      assert rd.step(b + x) == Taken(r, rest + x);
      if r.verb == CONNECT { return; }
      DrainFitsInTwo(rd, fits, rest, x);
  }

  /** If the whole stream is within the bound, so is the connection, however the stream is cut. */
  lemma {:induction false} FitsAnyCut(rd: Reader<Request>, fits: string -> bool, buffer: string, pieces: seq<string>)
    requires Incremental(rd) && Inherited(rd, fits)
    requires Orderly(rd, buffer + Join(pieces)) && DrainFits(rd, fits, buffer + Join(pieces))
    ensures ServeFits(rd, fits, buffer, pieces)
    decreases |pieces|
  {
    if pieces == [] || pieces[0] == "" { return; }
    var p, rest := pieces[0], Join(pieces[1..]);
    assert buffer + Join(pieces) == (buffer + p) + rest;
    DrainFitsInTwo(rd, fits, buffer + p, rest);
    var s := Drain(rd, buffer + p);
    if s.phase.Waiting? {
      OrderlyInTwo(rd, buffer + p, rest);
      FitsAnyCut(rd, fits, s.phase.buffer, pieces[1..]);
    }
  }

  // ------------------------------------------------------------------ the bound of the code

  /** The bound of the request parser. */
  ghost function RequestFits(style: LengthStyle): string -> bool {
    FitsOf(RequestGrammar(style), RequestScanner(style).words)
  }

  lemma RequestFitsInherited(style: LengthStyle)
    ensures Inherited(RequestReader(style), RequestFits(style))
  {
    RequestScannerLawful(style);
    BoundInherited(RequestGrammar(style), RequestScanner(style));
  }

  /** On an orderly stream within the bound, every cut of it is within the bound. */
  lemma StreamFitsAnyCut(style: LengthStyle, pieces: seq<string>)
    requires Orderly(RequestReader(style), Join(pieces))
    requires DrainFits(RequestReader(style), RequestFits(style), Join(pieces))
    ensures ServeFits(RequestReader(style), RequestFits(style), "", pieces)
  {
    RequestFitsInherited(style);
    assert "" + Join(pieces) == Join(pieces);
    FitsAnyCut(RequestReader(style), RequestFits(style), "", pieces);
  }

  lemma RequestScannerScans(style: LengthStyle)
    ensures ScansBy(RequestScanner(style), RequestGrammar(style)) && RequestScanner(style).words == METHODS
  {
  }

  lemma RequestStepsBy(style: LengthStyle)
    ensures StepsBy(RequestReader(style), RequestScanner(style))
  {
    RequestScannerLawful(style);
    ReaderStepsBy(RequestScanner(style));
  }

  lemma CodeReadsWithin(style: LengthStyle)
    ensures ReadsWithin(RequestParse(style), RequestReader(style), RequestFits(style))
  {
    RequestStepsBy(style);
    RequestGrammarIs(style);
    RequestScannerScans(style);
    GrammarReadsWithin(RequestParse(style), RequestReader(style), RequestScanner(style), RequestGrammar(style));
  }

  /** Within the bound the loops of the code end and serve what they serve in unbounded arithmetic. */
  lemma CodeServesWithin(style: LengthStyle, pieces: seq<string>)
    requires ServeFits(RequestReader(style), RequestFits(style), "", pieces)
    ensures ServeGoesOn(RequestParse(style), "", pieces)
    ensures ServeInWords(RequestParse(style), "", pieces) == Serve(RequestReader(style), "", pieces)
  {
    CodeReadsWithin(style);
    ServeWithin(RequestParse(style), RequestReader(style), RequestFits(style), "", pieces);
  }

  // ------------------------------------------------------------------ the loop

  /** `parse` is the request parser of the code. */
  ghost predicate OfTheCode(parse: Parse) {
    forall b {:trigger CodeStep(RequestGrammar(OneChar), METHODS, b)} ::
      parse(b) == CodeStep(RequestGrammar(OneChar), METHODS, b)
  }

  class ClientHandler {
    constructor () {}

    /** A new request object parses the buffer. */
    method ParseNext(ghost parse: Parse, buffer: string)
      returns (status: Status, code: int, request: Request, rest: string)
      requires OfTheCode(parse) && |buffer| < TWO_31 && parse(buffer).Some?
      ensures match parse(buffer).value
              case Wait(left) => status != Finished && rest == left
              case Refused => status == Finished && code == 400
              case Taken(r, left) => status == Finished && code == 0 && request == r && rest == left
    {
      assert parse(buffer) == CodeStep(RequestGrammar(OneChar), METHODS, buffer);
      var h := new HttpRequest();
      status, rest := h.ParseRequest(buffer);
      code, request := h.clientErrorCode, Request(h.verb, h.url, h.host, h.headers, h.body);
    }

    /** The inner loop: everything `curr_message` already holds. It is entered where it ends, which
        `DispatchEndsExactly` decides. */
    method HandleBuffered(ghost parse: Parse, currMessage: string)
      returns (events: seq<Event>, phase: Phase)
      requires OfTheCode(parse) && |currMessage| < TWO_31 && GoesOn(parse, currMessage)
      ensures Served(events, phase) == DrainInWords(parse, currMessage)
    {
      var buffer := currMessage;
      events := [];
      while true
        invariant |buffer| < TWO_31 && GoesOn(parse, buffer)
        invariant DrainInWords(parse, currMessage) == Before(events, DrainInWords(parse, buffer))
        decreases |buffer|
      {
        var status, code, request;
        status, code, request, buffer := ParseNext(parse, buffer);
        if status != Finished {
          return events, Waiting(buffer);
        }
        if code != 0 {
          return events + [Reject], Closed;
        }
        if request.verb == CONNECT {
          return events + [Dispatch(request)], Tunnel;
        }
        assert events + ([Dispatch(request)] + DrainInWords(parse, buffer).events)
            == (events + [Dispatch(request)]) + DrainInWords(parse, buffer).events;
        events := events + [Dispatch(request)];
      }
    }

    /** The outer loop, with the successive results of `recv` as `pieces`. */
    method Receive(ghost parse: Parse, pieces: seq<string>)
      returns (events: seq<Event>, phase: Phase)
      requires OfTheCode(parse) && ServeGoesOn(parse, "", pieces)
      ensures Served(events, phase) == ServeInWords(parse, "", pieces)
    {
      var currMessage := "";
      var received := 0;
      events := [];
      while received < |pieces|
        invariant received <= |pieces|
        invariant ServeGoesOn(parse, currMessage, pieces[received..])
        invariant ServeInWords(parse, "", pieces) ==
                  Before(events, ServeInWords(parse, currMessage, pieces[received..]))
      {
        if pieces[received] == "" {
          return events, Waiting(currMessage);
        }
        currMessage := currMessage + pieces[received];
        ghost var later := pieces[received..];
        assert later[1..] == pieces[received + 1..];
        received := received + 1;
        var some;
        some, phase := HandleBuffered(parse, currMessage);
        ghost var was := events;
        events := events + some;
        if !phase.Waiting? {
          return;
        }
        currMessage := phase.buffer;
        assert was + (some + ServeInWords(parse, currMessage, pieces[received..]).events)
            == events + ServeInWords(parse, currMessage, pieces[received..]).events;
      }
      return events, Waiting(currMessage);
    }

    /** `handle_client_requests`. Requests go to the handler (`Dispatch`); a refused message is answered with 400
        and closes the connection; an exception of the parser is swallowed and the loop receives again. A
        CONNECT hands the socket to the tunnel, where this model of the loop ends. */
    method HandleClientRequests(pieces: seq<string>) returns (events: seq<Event>, phase: Phase)
      requires ServeGoesOn(RequestParse(OneChar), "", pieces)
      ensures Served(events, phase) == ServeInWords(RequestParse(OneChar), "", pieces)
      ensures ServeFits(RequestReader(OneChar), RequestFits(OneChar), "", pieces) ==>
                Served(events, phase) == Serve(RequestReader(OneChar), "", pieces)
    {
      if ServeFits(RequestReader(OneChar), RequestFits(OneChar), "", pieces) {
        CodeServesWithin(OneChar, pieces);
      }
      events, phase := Receive(RequestParse(OneChar), pieces);
    }
  }
}
