/** What a client connection delivers: `ClientHandler::handle_client_requests` over a stream cut into pieces. */
module ClientStream {
  import opened Strings
  import opened Framing
  import opened Scanning
  import opened Requests

  /** A request handed to the handler, or the 400 reply after which the connection is closed. */
  datatype Event = Dispatch(request: Request) | Reject

  /** `Waiting` for more bytes, `Closed` by a refusal, or taken over by the tunnel of a CONNECT. */
  datatype Phase = Waiting(buffer: string) | Closed | Tunnel

  datatype Served = Served(events: seq<Event>, phase: Phase)

  function Before(e: seq<Event>, s: Served): Served {
    Served(e + s.events, s.phase)
  }

  /** The inner loop: everything the buffer already holds. */
  ghost function Drain(rd: Reader<Request>, b: string): (s: Served)
    requires Incremental(rd)
    decreases |b|
  {
    match rd.step(b)
    case Wait(rest) => Served([], Waiting(rest))
    case Refused => Served([Reject], Closed)
    case Taken(r, rest) =>
      if r.verb == CONNECT then Served([Dispatch(r)], Tunnel)
      else Before([Dispatch(r)], Drain(rd, rest))
  }

  /** The outer loop: one `recv` after the other; an empty one is the client closing the connection. */
  ghost function Serve(rd: Reader<Request>, buffer: string, pieces: seq<string>): Served
    requires Incremental(rd)
    decreases |pieces|
  {
    if pieces == [] || pieces[0] == "" then Served([], Waiting(buffer))
    else
      var s := Drain(rd, buffer + pieces[0]);
      if s.phase.Waiting? then Before(s.events, Serve(rd, s.phase.buffer, pieces[1..])) else s
  }

  function Join(pieces: seq<string>): string {
    if pieces == [] then "" else pieces[0] + Join(pieces[1..])
  }

  /** At every message boundary the method word precedes the first blank line. */
  ghost predicate Orderly(rd: Reader<Request>, s: string)
    requires Incremental(rd)
    decreases |s|
  {
    && rd.ready(s)
    && match rd.step(s)
       case Taken(r, rest) => r.verb != CONNECT ==> Orderly(rd, rest)
       case _ => true
  }

  /** At every message boundary that draining reaches the method word precedes the first blank line, or the rest of the
      stream is refused anyway. */
  ghost predicate Settled(rd: Reader<Request>, s: string)
    requires Incremental(rd)
    decreases |s|
  {
    && (rd.ready(s) || rd.step(s).Refused?)
    && match rd.step(s)
       case Taken(r, rest) => r.verb != CONNECT ==> Settled(rd, rest)
       case _ => true
  }

  lemma {:induction false} OrderlyIsSettled(rd: Reader<Request>, s: string)
    requires Incremental(rd) && Orderly(rd, s)
    ensures Settled(rd, s)
    decreases |s|
  {
    match rd.step(s)
    case Taken(r, rest) =>
      if r.verb != CONNECT { OrderlyIsSettled(rd, rest); }
    case _ =>
  }

  // ------------------------------------------------------------------ chunking independence

  /** Draining in two steps is draining at once, and what is left to come is settled too. */
  lemma {:induction false} DrainInTwo(rd: Reader<Request>, b: string, x: string)
    requires Incremental(rd) && Settled(rd, b + x)
    ensures var s := Drain(rd, b);
            && Drain(rd, b + x) == (if s.phase.Waiting? then Before(s.events, Drain(rd, s.phase.buffer + x)) else s)
            && (s.phase.Waiting? ==> Settled(rd, s.phase.buffer + x))
    decreases |b|
  {
    match rd.step(b)
    case Wait(rest) =>
      assert rd.step(b + x) == rd.step(rest + x);
    case Refused =>
      assert rd.step(b + x).Refused?;
    case Taken(r, rest) =>
      assert rd.step(b + x) == Taken(r, rest + x);
      if r.verb == CONNECT { return; }
      DrainInTwo(rd, rest, x);
      var s := Drain(rd, rest);
      if s.phase.Waiting? {
        assert [Dispatch(r)] + (s.events + Drain(rd, s.phase.buffer + x).events)
            == ([Dispatch(r)] + s.events) + Drain(rd, s.phase.buffer + x).events;
      }
  }

  /** What is left to come of an orderly stream is orderly. */
  lemma {:induction false} OrderlyInTwo(rd: Reader<Request>, b: string, x: string)
    requires Incremental(rd) && Orderly(rd, b + x) && Drain(rd, b).phase.Waiting?
    ensures Orderly(rd, Drain(rd, b).phase.buffer + x)
    decreases |b|
  {
    match rd.step(b)
    case Wait(rest) =>
      assert rd.step(b + x) == rd.step(rest + x);
    case Taken(r, rest) =>
      assert rd.step(b + x) == Taken(r, rest + x);
      OrderlyInTwo(rd, rest, x);
  }

  /** A buffer that waits has nothing more to give. */
  lemma {:induction false} DrainedTwice(rd: Reader<Request>, b: string)
    requires Incremental(rd) && Drain(rd, b).phase.Waiting?
    ensures Drain(rd, Drain(rd, b).phase.buffer) == Served([], Drain(rd, b).phase)
    decreases |b|
  {
    match rd.step(b)
    case Wait(rest) =>
      assert b + "" == b && rest + "" == rest;
      assert rd.step(b + "") == rd.step(rest + "");
    case Taken(r, rest) =>
      DrainedTwice(rd, rest);
  }

  /** A settled stream is served the same way however `recv` cuts it: requests, their order, the 400 and
      close, and the bytes still in the buffer. */
  lemma {:induction false} ServeAnyCut(rd: Reader<Request>, buffer: string, pieces: seq<string>)
    requires Incremental(rd) && "" !in pieces && Drain(rd, buffer) == Served([], Waiting(buffer))
    requires Settled(rd, buffer + Join(pieces))
    ensures Serve(rd, buffer, pieces) == Drain(rd, buffer + Join(pieces))
    decreases |pieces|
  {
    if pieces == [] {
      assert buffer + Join(pieces) == buffer;
      return;
    }
    var p, rest := pieces[0], Join(pieces[1..]);
    assert buffer + Join(pieces) == (buffer + p) + rest;
    DrainInTwo(rd, buffer + p, rest);
    var s := Drain(rd, buffer + p);
    if s.phase.Waiting? {
      DrainedTwice(rd, buffer + p);
      ServeAnyCut(rd, s.phase.buffer, pieces[1..]);
    }
  }

  // ------------------------------------------------------------------ the theorem

  ghost function RequestReader(style: LengthStyle): (rd: Reader<Request>)
    ensures Incremental(rd)
  {
    RequestScannerLawful(style);
    ReaderIncremental(RequestScanner(style));
    ReaderOf(RequestScanner(style))
  }

  /** Two cuttings of the same orderly stream deliver the same events and end in the same phase: that of the
      whole stream received at once. */
  lemma ChunkingIndependence(style: LengthStyle, one: seq<string>, other: seq<string>)
    requires Join(one) == Join(other) && "" !in one && "" !in other
    requires Orderly(RequestReader(style), Join(one))
    ensures Serve(RequestReader(style), "", one) == Serve(RequestReader(style), "", other)
    ensures Serve(RequestReader(style), "", one) == Drain(RequestReader(style), Join(one))
  {
    var rd := RequestReader(style);
    OrderlyIsSettled(rd, Join(one));
    assert "" + Join(one) == Join(one) && "" + Join(other) == Join(other);
    ServeAnyCut(rd, "", one);
    ServeAnyCut(rd, "", other);
  }

  // ------------------------------------------------------------------ the exact condition

  /** Serving the stream does not depend on how it is cut. */
  ghost predicate CutsServeAlike(rd: Reader<Request>, s: string)
    requires Incremental(rd)
  {
    forall one, other {:trigger Serve(rd, "", one), Serve(rd, "", other)} ::
      Join(one) == s && Join(other) == s && "" !in one && "" !in other ==> Serve(rd, "", one) == Serve(rd, "", other)
  }

  lemma DrainUnready(rd: Reader<Request>, s: string) returns (b: string, x: string)
    requires Incremental(rd) && Exact(rd) && !rd.ready(s) && !rd.step(s).Refused?
    ensures s == b + x && b != "" && x != ""
    ensures Drain(rd, b) == Served([Reject], Closed) && Drain(rd, s) != Drain(rd, b)
  {
    assert RefusesFront(rd, s);
    b :| b <= s && rd.step(b).Refused?;
    x := s[|b|..];
    assert s == b + x && b + "" == b;
    match rd.step(s)
    case Taken(r, rest) => assert Drain(rd, s).events[0] == Dispatch(r);
    case _ =>
  }

  /** A stream that is not settled has a piece at the front that is closed, with a different outcome. */
  lemma {:induction false} BadCut(rd: Reader<Request>, s: string) returns (b: string, x: string)
    requires Incremental(rd) && Exact(rd) && !Settled(rd, s)
    ensures s == b + x && b != "" && x != ""
    ensures Drain(rd, b).phase.Closed? && Drain(rd, s) != Drain(rd, b)
    decreases |s|
  {
    if !rd.ready(s) && !rd.step(s).Refused? {
      b, x := DrainUnready(rd, s);
      return;
    }
    var r, rest := rd.step(s).value, rd.step(s).rest;
    var b', x' := BadCut(rd, rest);
    assert TakesFromFront(rd, s, s);
    var n := |s| - |rest|;
    b, x := s[..n] + b', x';
    assert s == s[..n] + rest;
    assert s == b + x;
    assert TakesFromFront(rd, s, b);
    assert b[n..] == b';
    DrainOne(rd, b, r, b');
    DrainOne(rd, s, r, rest);
    assert Drain(rd, b).events[1..] == Drain(rd, b').events && Drain(rd, s).events[1..] == Drain(rd, rest).events;
  }

  lemma DrainOne(rd: Reader<Request>, s: string, r: Request, rest: string)
    requires Incremental(rd) && rd.step(s) == Taken(r, rest) && r.verb != CONNECT
    ensures Drain(rd, s) == Before([Dispatch(r)], Drain(rd, rest))
  {
  }

  lemma ServeOnce(rd: Reader<Request>, s: string)
    requires Incremental(rd) && s != ""
    ensures Join([s]) == s && Serve(rd, "", [s]) == Drain(rd, s)
  {
    assert "" + s == s && [s][1..] == [];
    assert Join([s]) == s + Join([]);
    assert Drain(rd, s).events + [] == Drain(rd, s).events;
  }

  lemma ServeClosed(rd: Reader<Request>, b: string, x: string)
    requires Incremental(rd) && b != "" && Drain(rd, b).phase.Closed?
    ensures Join([b, x]) == b + x && Serve(rd, "", [b, x]) == Drain(rd, b)
  {
    assert "" + b == b && [b, x][1..] == [x] && [x][1..] == [];
    assert Join([x]) == x + Join([]);
  }

  /** All cuts of a stream are served alike if and only if the stream is settled. */
  lemma ServedAlikeExactly(rd: Reader<Request>, s: string)
    requires Incremental(rd) && Exact(rd)
    ensures CutsServeAlike(rd, s) <==> Settled(rd, s)
  {
    if Settled(rd, s) {
      forall one, other | Join(one) == s && Join(other) == s && "" !in one && "" !in other
        ensures Serve(rd, "", one) == Serve(rd, "", other)
      {
        assert "" + s == s;
        ServeAnyCut(rd, "", one);
        ServeAnyCut(rd, "", other);
      }
    } else {
      var b, x := BadCut(rd, s);
      ServeOnce(rd, s);
      ServeClosed(rd, b, x);
      assert Serve(rd, "", [b, x]) != Serve(rd, "", [s]);
    }
  }

  lemma RequestReaderExact(style: LengthStyle)
    ensures Exact(RequestReader(style))
  {
    RequestScannerLawful(style);
    RequestScannerLocal(style);
    ReaderExact(RequestScanner(style));
  }

  /** For the request parser: at every boundary reached, the method word precedes the first blank line or the rest of
      the stream is refused. */
  lemma ChunkingExactly(style: LengthStyle, s: string)
    ensures CutsServeAlike(RequestReader(style), s) <==> Settled(RequestReader(style), s)
  {
    RequestReaderExact(style);
    ServedAlikeExactly(RequestReader(style), s);
  }

  // ------------------------------------------------------------------ after an exception

  /** A buffer at which the parser throws makes it throw again, whatever arrives and however it is trimmed. */
  lemma ThrowsAgain(sc: Scanner<Request>, b: string, x: string)
    requires Lawful(sc) && Verdict(sc, b).Raise?
    ensures Step(sc, b + x) == Wait(Rest(sc, b + x)) && Verdict(sc, Rest(sc, b + x)).Raise?
  {
    FinalVerdictStable(sc, b, x);
    TrimmingHarmless(sc, b + x, "");
    assert (b + x) + "" == b + x && Rest(sc, b + x) + "" == Rest(sc, b + x);
  }

  /** Nothing is delivered and nothing refused. */
  ghost predicate Mute(rd: Reader<Request>, buffer: string, pieces: seq<string>)
    requires Incremental(rd)
  {
    Serve(rd, buffer, pieces).events == [] && Serve(rd, buffer, pieces).phase.Waiting?
  }

  lemma {:induction false} MuteForEver(sc: Scanner<Request>, buffer: string, pieces: seq<string>)
    requires Lawful(sc) && Incremental(ReaderOf(sc)) && Verdict(sc, buffer).Raise?
    ensures Mute(ReaderOf(sc), buffer, pieces)
    decreases |pieces|
  {
    if pieces == [] || pieces[0] == "" { return; }
    var b := buffer + pieces[0];
    ThrowsAgain(sc, buffer, pieces[0]);
    assert ReaderOf(sc).step(b) == Wait(Rest(sc, b));
    MuteForEver(sc, Rest(sc, b), pieces[1..]);
  }

  /** Once the parser has thrown, for a chunk size without a number, the connection delivers nothing and refuses nothing
      any more, whatever arrives. */
  lemma ThrownIsMute(style: LengthStyle, buffer: string, pieces: seq<string>)
    requires Verdict(RequestScanner(style), buffer).Raise?
    ensures Mute(RequestReader(style), buffer, pieces)
  {
    RequestScannerLawful(style);
    ReaderIncremental(RequestScanner(style));
    MuteForEver(RequestScanner(style), buffer, pieces);
  }
}
