/** How a client connection can end behind the requests it has delivered: with a request that is not complete yet,
    with a refusal, or with a tunnel. */
module Endings {
  import opened Strings
  import opened Framing
  import opened Scanning
  import opened Requests
  import opened RoundTrip
  import opened Normalisation
  import opened ClientStream
  import opened Delivery
  import opened Repetition
  import opened Wire
  import opened WrittenRequests

  /** A word at the front comes before any blank line. */
  lemma FrontIsFirst<T(!new)>(sc: Scanner<T>, s: string)
    requires Lawful(sc) && WordStart(sc.words, s) == Some(0)
    ensures WordFirst(sc.words, s)
  {
    NotAtBlankLine(sc.words, s, 0);
  }

  lemma VerdictInside<T(!new)>(sc: Scanner<T>, b: string)
    requires Lawful(sc) && Verdict(sc, b).Ok?
    ensures Verdict(sc, b).next <= |b|
  {
    AcceptedConsumes(sc, b);
  }

  /** As long as a message is not complete, its parser waits for more. */
  lemma FrontWaits<T(!new)>(sc: Scanner<T>, b: string, x: string)
    requires Lawful(sc) && WordFirst(sc.words, b + x)
    requires Verdict(sc, b + x).Ok? && |b| < Verdict(sc, b + x).next
    ensures Verdict(sc, b).More?
  {
    var v := Verdict(sc, b);
    if v.Bad? {
      RefusalStable(sc, b, x);
    } else if v.Ok? {
      VerdictInside(sc, b);
      FinalVerdictStable(sc, b, x);
    } else if v.Raise? {
      FinalVerdictStable(sc, b, x);
    }
  }

  /** And it keeps all of it. */
  lemma FrontStays<T(!new)>(sc: Scanner<T>, b: string, s: string)
    requires Lawful(sc) && WordStart(sc.words, s) == Some(0) && b <= s
    ensures WordFirst(sc.words, b) && FromWord(sc.words, b) == b
  {
    FrontIsFirst(sc, s);
    if Find(b, CRLFCRLF, 0).Some? {
      WordArrived(sc.words, b, s);
    }
  }

  lemma FrontStep<T(!new)>(sc: Scanner<T>, b: string, x: string)
    requires Lawful(sc) && WordStart(sc.words, b + x) == Some(0)
    requires Verdict(sc, b + x).Ok? && |b| < Verdict(sc, b + x).next
    ensures ReaderOf(sc).step(b) == Wait(b) && ReaderOf(sc).ready(b)
  {
    FrontIsFirst(sc, b + x);
    FrontWaits(sc, b, x);
    FrontStays(sc, b, b + x);
    assert Rest(sc, b) == b;
    assert Step(sc, b) == Wait(b);
  }

  lemma ReadyAtFront(style: LengthStyle, t: string)
    requires WordStart(METHODS, t) == Some(0)
    ensures RequestReader(style).ready(t)
  {
    RequestWords();
    NotAtBlankLine(METHODS, t, 0);
  }

  /** The whole of `text` is one message. */
  ghost predicate IsMessage<T>(sc: Scanner<T>, text: string) {
    WordStart(sc.words, text) == Some(0) && Verdict(sc, text).Ok? && Verdict(sc, text).next == |text|
  }

  ghost predicate WaitsAt(rd: Reader<Request>, b: string) {
    rd.step(b) == Wait(b) && rd.ready(b)
  }

  lemma UnfinishedBy(sc: Scanner<Request>, b: string, text: string)
    requires Lawful(sc)
    ensures IsMessage(sc, text) && b < text ==> WaitsAt(ReaderOf(sc), b)
  {
    if IsMessage(sc, text) && b < text {
      var x := text[|b|..];
      assert b + x == text;
      FrontStep(sc, b, x);
    }
  }

  lemma RequestIsMessage(style: LengthStyle, text: string)
    requires WordStart(METHODS, text) == Some(0)
    requires ParseRequest(style, text).Ok? && ParseRequest(style, text).next == |text|
    ensures IsMessage(RequestScanner(style), text)
  {
  }

  lemma UnfinishedText(style: LengthStyle, b: string, text: string)
    requires IsMessage(RequestScanner(style), text) && b < text
    ensures WaitsAt(RequestReader(style), b)
  {
    RequestScannerLawful(style);
    UnfinishedBy(RequestScanner(style), b, text);
  }

  lemma UnfinishedStep(style: LengthStyle, r: Request, order: seq<string>, b: string)
    requires Shaped(r) && Faithful(r) && OrderOf(order, r.headers) && b < Serialize(r, order)
    ensures WaitsAt(RequestReader(style), b)
  {
    var text := Serialize(r, order);
    SerializedVerdict(style, r, order, "");
    assert text + "" == text;
    SerializedStartsWithMethod(r, order, text);
    RequestIsMessage(style, text);
    UnfinishedText(style, b, text);
  }

  lemma DrainWaits(rd: Reader<Request>, b: string)
    requires Incremental(rd) && WaitsAt(rd, b)
    ensures Orderly(rd, b) && Drain(rd, b) == Served([], Waiting(b))
  {
  }

  lemma DrainRefused(rd: Reader<Request>, b: string)
    requires Incremental(rd) && rd.step(b) == Refused && rd.ready(b)
    ensures Orderly(rd, b) && Drain(rd, b) == Served([Reject], Closed)
  {
  }

  lemma DrainTunnel(rd: Reader<Request>, b: string, r: Request, x: string)
    requires Incremental(rd) && rd.step(b) == Taken(r, x) && rd.ready(b) && r.verb == CONNECT
    ensures Orderly(rd, b) && Drain(rd, b) == Served([Dispatch(r)], Tunnel)
  {
  }

  lemma RefusedText(style: LengthStyle, t: string)
    requires WordStart(METHODS, t) == Some(0) && ParseRequest(style, t).Bad?
    ensures Orderly(RequestReader(style), t) && Drain(RequestReader(style), t) == Served([Reject], Closed)
  {
    ReadyAtFront(style, t);
    RefusedStep(style, t);
    DrainRefused(RequestReader(style), t);
  }

  lemma ConnectText(style: LengthStyle, t: string, r: Request, n: nat, x: string)
    requires WordStart(METHODS, t) == Some(0) && ParseRequest(style, t) == Ok(r, n) && n <= |t| && t[n..] == x
    requires r.verb == CONNECT
    ensures Orderly(RequestReader(style), t) && Drain(RequestReader(style), t) == Served([Dispatch(r)], Tunnel)
  {
    ReadyAtFront(style, t);
    TakenStep(style, t, r, n, x);
    DrainTunnel(RequestReader(style), t, r, x);
  }

  /** Behind complete requests, the front of one more: the complete ones are delivered, the rest waits in the buffer and
      nothing of it is lost, however the stream is cut. */
  lemma UnfinishedWaits(style: LengthStyle, rs: seq<Request>, orders: seq<seq<string>>, r: Request,
                        order: seq<string>, b: string, pieces: seq<string>)
    requires Writable(rs, orders) && forall i :: 0 <= i < |rs| ==> rs[i].verb != CONNECT
    requires Shaped(r) && Faithful(r) && OrderOf(order, r.headers) && b < Serialize(r, order)
    requires "" !in pieces && Join(pieces) == SerializeAll(rs, orders) + b
    ensures Serve(RequestReader(style), "", pieces) == Served(Dispatches(rs), Waiting(b))
  {
    UnfinishedStep(style, r, order, b);
    DrainWaits(RequestReader(style), b);
    DeliveredAnyCut(style, rs, orders, b, pieces);
  }

  /** Behind complete requests, a head with a name that is no token or may not be repeated, or without Host: it is
      answered with 400 and the connection closed, whatever follows and however the stream is cut. */
  lemma RefusedCloses(style: LengthStyle, rs: seq<Request>, orders: seq<seq<string>>, verb: string, url: string,
                      xs: seq<Field>, x: string, pieces: seq<string>)
    requires Writable(rs, orders) && forall i :: 0 <= i < |rs| ==> rs[i].verb != CONNECT
    requires verb in METHODS && Target(url) && AllWritten(xs) && BadHead(xs)
    requires "" !in pieces && Join(pieces) == SerializeAll(rs, orders) + RequestText(verb, url, xs, x)
    ensures Serve(RequestReader(style), "", pieces) == Served(Dispatches(rs) + [Reject], Closed)
  {
    var t := RequestText(verb, url, xs, x);
    BadHeadRefused(style, verb, url, xs, t);
    WrittenFront(verb, url, xs, t);
    RefusedText(style, t);
    DeliveredAnyCut(style, rs, orders, t, pieces);
  }

  /** Behind complete requests, a CONNECT: it is delivered last, and all that follows it goes to the tunnel. */
  lemma ConnectEnds(style: LengthStyle, rs: seq<Request>, orders: seq<seq<string>>, r: Request, order: seq<string>,
                    x: string, pieces: seq<string>)
    requires Writable(rs, orders) && forall i :: 0 <= i < |rs| ==> rs[i].verb != CONNECT
    requires Shaped(r) && Faithful(r) && OrderOf(order, r.headers) && r.verb == CONNECT
    requires "" !in pieces && Join(pieces) == SerializeAll(rs, orders) + (Serialize(r, order) + x)
    ensures Serve(RequestReader(style), "", pieces) == Served(Dispatches(rs) + [Dispatch(r)], Tunnel)
  {
    var t := Serialize(r, order) + x;
    SerializedVerdict(style, r, order, x);
    SerializedStartsWithMethod(r, order, t);
    ConnectText(style, t, r, |Serialize(r, order)|, x);
    DeliveredAnyCut(style, rs, orders, t, pieces);
  }

  /** Once the client has closed, for which `recv` returns nothing, no further bytes count. */
  lemma {:induction false} ClosedIsFinal(rd: Reader<Request>, buffer: string, pieces: seq<string>, later: seq<string>)
    requires Incremental(rd)
    ensures Serve(rd, buffer, pieces + [""] + later) == Serve(rd, buffer, pieces)
    decreases |pieces|
  {
    var all := pieces + [""] + later;
    if pieces == [] {
      assert all[0] == "";
    } else {
      assert all[0] == pieces[0] && all[1..] == pieces[1..] + [""] + later;
      var s := Drain(rd, buffer + pieces[0]);
      if s.phase.Waiting? {
        ClosedIsFinal(rd, s.phase.buffer, pieces[1..], later);
      }
    }
  }

  // ------------------------------------------------------------------ bytes in front of a request

  lemma WordBehindJunk(words: set<string>, junk: string, b: string)
    requires WordStart(words, junk + b) == Some(|junk|)
    ensures WordStart(words, b) == Some(0)
  {
    var w :| w in words && OccursAt(junk + b, w, |junk|);
    assert (junk + b)[|junk|..] == b;
    OccursShift(junk + b, |junk|, w, 0);
    assert WordAt(words, b, 0);
    WordStartIs(words, b, 0);
  }

  /** The first word of the buffer stands behind `junk`, and a blank line behind it. */
  ghost predicate StartsBehind<T>(sc: Scanner<T>, junk: string, b: string) {
    Find(b, CRLFCRLF, 0).Some? && WordStart(sc.words, junk + b) == Some(|junk|)
  }

  ghost predicate StepsAlike(rd: Reader<Request>, one: string, other: string) {
    rd.step(one) == rd.step(other)
  }

  lemma JunkBy(sc: Scanner<Request>, junk: string, b: string)
    requires Lawful(sc)
    ensures StartsBehind(sc, junk, b) ==> StepsAlike(ReaderOf(sc), junk + b, b)
  {
    if StartsBehind(sc, junk, b) {
      assert (junk + b)[|junk|..] == b && b[0..] == b;
      OccursShift(junk + b, |junk|, CRLFCRLF, Find(b, CRLFCRLF, 0).value);
      WordBehindJunk(sc.words, junk, b);
      VerdictAt(sc, junk + b, |junk|, b);
      VerdictAt(sc, b, 0, b);
      assert Step(sc, junk + b) == Step(sc, b);
    }
  }

  lemma JunkOfRequests(style: LengthStyle, junk: string, b: string)
    requires StartsBehind(RequestScanner(style), junk, b)
    ensures StepsAlike(RequestReader(style), junk + b, b)
  {
    RequestScannerLawful(style);
    JunkBy(RequestScanner(style), junk, b);
  }

  /** Bytes in front of the first method word are dropped as soon as a blank line stands behind it, whether the request
      is complete by then or not. */
  lemma JunkDropped(style: LengthStyle, junk: string, b: string)
    requires Find(b, CRLFCRLF, 0).Some? && WordStart(METHODS, junk + b) == Some(|junk|)
    ensures RequestReader(style).step(junk + b) == RequestReader(style).step(b)
  {
    assert StartsBehind(RequestScanner(style), junk, b);
    JunkOfRequests(style, junk, b);
  }
}
