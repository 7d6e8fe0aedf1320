/** From the bytes of several connections to the replies on them: the client streams, the handlers over the shared cache
    and the streams of the origin put together. */
module EndToEnd {
  import opened Strings
  import opened Framing
  import opened Scanning
  import opened Requests
  import opened Responses
  import opened RoundTrip
  import opened Normalisation
  import opened ClientStream
  import opened Delivery
  import opened Upstream
  import opened Cache
  import opened Handler

  // ------------------------------------------------------------------ the origin

  /** What the origin sends for each request, and how `recv` cuts it; no response makes the parser throw. `instead` is
      the response a handler goes on with when the origin gave none: in the code, the 502 reply. */
  datatype Sending = Sending(bytes: Request -> string, cut: Request -> seq<string>, instead: Response) {

    function Shown(reply: Reply): Response {
      match reply
      case Got(r) => r
      case _ => instead
    }
  }

  ghost predicate Sound(sc: Scanner<Response>, bytes: string, pieces: seq<string>) {
    Join(pieces) == bytes && "" !in pieces && WordFirst(sc.words, bytes) && !Verdict(sc, bytes).Raise?
  }

  /** `origin` is what the handler goes on with. */
  ghost predicate Fetches(sc: Scanner<Response>, sending: Sending, origin: Origin) {
    forall r {:trigger origin(r)} ::
      Sound(sc, sending.bytes(r), sending.cut(r)) && origin(r) == sending.Shown(Await(sc, "", sending.cut(r)))
  }

  /** `origin` answers each request with the response its bytes stand for. */
  ghost predicate AnswersBytes(sc: Scanner<Response>, sending: Sending, origin: Origin) {
    forall r {:trigger origin(r)} :: origin(r) == sending.Shown(ReplyTo(Verdict(sc, sending.bytes(r))))
  }

  lemma FetchedCut(sc: Scanner<Response>, bytes: string, pieces: seq<string>)
    requires Lawful(sc) && Sound(sc, bytes, pieces)
    ensures Await(sc, "", pieces) == ReplyTo(Verdict(sc, bytes))
  {
    UpstreamChunkingIndependence(sc, pieces, pieces);
  }

  /** However the bytes are cut. */
  lemma FetchedBytes(sc: Scanner<Response>, sending: Sending, origin: Origin)
    requires Lawful(sc) && Fetches(sc, sending, origin)
    ensures AnswersBytes(sc, sending, origin)
  {
    forall r
      ensures origin(r) == sending.Shown(ReplyTo(Verdict(sc, sending.bytes(r))))
    {
      assert origin(r) == sending.Shown(Await(sc, "", sending.cut(r)));
      FetchedCut(sc, sending.bytes(r), sending.cut(r));
    }
  }

  // ------------------------------------------------------------------ the clients

  /** What a client writes: requests in some order of their headers, then `tail`; `pieces` is what `recv` returns. */
  datatype Connection = Connection(requests: seq<Request>, orders: seq<seq<string>>, tail: string, pieces: seq<string>)

  ghost predicate Written(style: LengthStyle, c: Connection) {
    && Writable(c.requests, c.orders) && (forall i :: 0 <= i < |c.requests| ==> c.requests[i].verb != CONNECT)
    && Orderly(RequestReader(style), c.tail)
    && "" !in c.pieces && Join(c.pieces) == SerializeAll(c.requests, c.orders) + c.tail
  }

  /** Handler `i` has been given the `j`-th request that the loop of the connection delivers. */
  ghost predicate Handles(style: LengthStyle, c: Connection, j: nat, requests: seq<Request>, i: nat) {
    var events := Serve(RequestReader(style), "", c.pieces).events;
    j < |events| && i < |requests| && events[j] == Dispatch(requests[i])
  }

  lemma HandlesWritten(style: LengthStyle, c: Connection, j: nat, requests: seq<Request>, i: nat)
    requires Written(style, c) && j < |c.requests| && Handles(style, c, j, requests, i)
    ensures requests[i] == c.requests[j]
  {
    DeliveredAnyCut(style, c.requests, c.orders, c.tail, c.pieces);
    assert Dispatches(c.requests)[j] == Dispatch(c.requests[j]);
  }

  // ------------------------------------------------------------------ the theorem

  /** After the run handler `i` has not answered yet, or its answer to the request `written` is transparent; and if that
      is an unconditional one, the answer is the response that the bytes of the origin for it stand for. */
  ghost predicate Answered(sc: Scanner<Response>, sending: Sending, origin: Origin, sys: System, i: nat,
                           written: Request) {
    i < |sys.handlers| && (sys.handlers[i].point.Done? ==>
      var reply := sys.handlers[i].point.reply;
      && Transparent(origin, written, reply)
      && (!Conditional(written) ==> reply == sending.Shown(ReplyTo(Verdict(sc, sending.bytes(written))))))
  }

  lemma TransparentAnswer(origin: Origin, capacity: nat, requests: seq<Request>, turns: seq<Turn>, i: nat)
    requires Steady(origin) && forall k :: 0 <= k < |requests| ==> Admissible(requests[k])
    requires i < |requests| && Covered(requests[i])
    ensures var h := Run(origin, capacity, requests, turns).handlers;
            i < |h| && (h[i].point.Done? ==>
              && Transparent(origin, requests[i], h[i].point.reply)
              && (!Conditional(requests[i]) ==> h[i].point.reply == origin(requests[i])))
  {
    TransparentCaching(origin, capacity, requests, turns, i);
  }

  lemma HandlerAnswers(sc: Scanner<Response>, sending: Sending, origin: Origin, capacity: nat,
                       requests: seq<Request>, turns: seq<Turn>, i: nat)
    requires AnswersBytes(sc, sending, origin) && Steady(origin)
    requires i < |requests| && Covered(requests[i]) && forall k :: 0 <= k < |requests| ==> Admissible(requests[k])
    ensures Answered(sc, sending, origin, Run(origin, capacity, requests, turns), i, requests[i])
  {
    TransparentAnswer(origin, capacity, requests, turns, i);
  }

  /** However `recv` cuts the stream of a client and those of the origin, however the handlers of all connections
      interleave, whatever is evicted and whatever expires: an unconditional GET a client has written gets the
      response that the bytes of the origin for that very request stand for, and a conditional one that response or
      the stored page in place of a 304. */
  lemma WrittenIsAnswered(style: LengthStyle, sc: Scanner<Response>, sending: Sending, origin: Origin, capacity: nat,
                          c: Connection, j: nat, requests: seq<Request>, turns: seq<Turn>, i: nat)
    requires AnswersBytes(sc, sending, origin) && Steady(origin)
    requires Written(style, c) && j < |c.requests| && Handles(style, c, j, requests, i)
    requires Covered(c.requests[j]) && forall k :: 0 <= k < |requests| ==> Admissible(requests[k])
    ensures requests[i] == c.requests[j]
    ensures Answered(sc, sending, origin, Run(origin, capacity, requests, turns), i, requests[i])
  {
    HandlesWritten(style, c, j, requests, i);
    HandlerAnswers(sc, sending, origin, capacity, requests, turns, i);
  }

  /** The same from the receive loop of the code on. */
  lemma WrittenIsAnsweredByLoop(style: LengthStyle, sending: Sending, origin: Origin, capacity: nat,
                                c: Connection, j: nat, requests: seq<Request>, turns: seq<Turn>, i: nat)
    requires Fetches(ResponseScanner(style), sending, origin) && Steady(origin)
    requires Written(style, c) && j < |c.requests| && Handles(style, c, j, requests, i)
    requires Covered(c.requests[j]) && forall k :: 0 <= k < |requests| ==> Admissible(requests[k])
    ensures requests[i] == c.requests[j]
    ensures Answered(ResponseScanner(style), sending, origin, Run(origin, capacity, requests, turns), i, requests[i])
  {
    LoopAnswers(style, sending, origin);
    WrittenIsAnswered(style, ResponseScanner(style), sending, origin, capacity, c, j, requests, turns, i);
  }

  lemma LoopAnswers(style: LengthStyle, sending: Sending, origin: Origin)
    requires Fetches(ResponseScanner(style), sending, origin)
    ensures AnswersBytes(ResponseScanner(style), sending, origin)
  {
    ResponseScannerLawful(style);
    FetchedBytes(ResponseScanner(style), sending, origin);
  }
}
