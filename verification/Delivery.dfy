/** From the requests a client writes to the requests the proxy handles, however the bytes are cut on the way. */
module Delivery {
  import opened Strings
  import opened Framing
  import opened Scanning
  import opened Requests
  import opened RoundTrip
  import opened Normalisation
  import opened ClientStream

  function Dispatches(rs: seq<Request>): (events: seq<Event>)
    ensures |events| == |rs| && forall i :: 0 <= i < |rs| ==> events[i] == Dispatch(rs[i])
  {
    seq(|rs|, i requires 0 <= i < |rs| => Dispatch(rs[i]))
  }

  /** The reader takes `text` for the request `r`, whatever follows it, and finds the method word in time. */
  ghost predicate Takes(rd: Reader<Request>, text: string, r: Request) {
    forall x {:trigger rd.step(text + x)} :: rd.step(text + x) == Taken(r, x) && rd.ready(text + x)
  }

  lemma TakesOne(style: LengthStyle, r: Request, order: seq<string>, x: string)
    requires Shaped(r) && Faithful(r) && OrderOf(order, r.headers)
    ensures RequestReader(style).step(Serialize(r, order) + x) == Taken(r, x)
    ensures RequestReader(style).ready(Serialize(r, order) + x)
  {
    var t := Serialize(r, order) + x;
    FirstOfMany(style, r, order, x);
    SerializedStartsWithMethod(r, order, t);
    RequestWords();
    NotAtBlankLine(METHODS, t, 0);
  }

  lemma TakesSerialized(style: LengthStyle, r: Request, order: seq<string>)
    requires Shaped(r) && Faithful(r) && OrderOf(order, r.headers)
    ensures Takes(RequestReader(style), Serialize(r, order), r)
  {
    forall x
      ensures RequestReader(style).step(Serialize(r, order) + x) == Taken(r, x)
      ensures RequestReader(style).ready(Serialize(r, order) + x)
    {
      TakesOne(style, r, order, x);
    }
  }

  function Texts(rs: seq<Request>, orders: seq<seq<string>>): (texts: seq<string>)
    requires |rs| == |orders| && forall i :: 0 <= i < |rs| ==> forall k :: k in orders[i] ==> k in rs[i].headers
    ensures |texts| == |rs| && forall i :: 0 <= i < |rs| ==> texts[i] == Serialize(rs[i], orders[i])
  {
    seq(|rs|, i requires 0 <= i < |rs| => Serialize(rs[i], orders[i]))
  }

  lemma {:induction false} JoinTexts(rs: seq<Request>, orders: seq<seq<string>>)
    requires Writable(rs, orders)
    ensures Join(Texts(rs, orders)) == SerializeAll(rs, orders)
    decreases |rs|
  {
    if rs != [] {
      JoinTexts(rs[1..], orders[1..]);
      assert Texts(rs, orders)[1..] == Texts(rs[1..], orders[1..]);
    }
  }

  // ------------------------------------------------------------------ pipelining

  /** `n` requests read off the front of a buffer, and what is left of it. */
  ghost function ReadMany(rd: Reader<Request>, b: string, n: nat): Option<(seq<Request>, string)>
    decreases n
  {
    if n == 0 then Some(([], b))
    else
      match rd.step(b)
      case Taken(r, rest) =>
        (match ReadMany(rd, rest, n - 1)
         case Some((rs, left)) => Some(([r] + rs, left))
         case None => None)
      case _ => None
  }

  lemma ReadOneMore(rd: Reader<Request>, b: string, rs: seq<Request>, rest: string, tail: string)
    requires rs != [] && rd.step(b) == Taken(rs[0], rest) && ReadMany(rd, rest, |rs| - 1) == Some((rs[1..], tail))
    ensures ReadMany(rd, b, |rs|) == Some((rs, tail))
  {
    assert [rs[0]] + rs[1..] == rs;
  }

  lemma {:induction false} TextsReadBack(rd: Reader<Request>, texts: seq<string>, rs: seq<Request>, tail: string)
    requires |texts| == |rs| && forall i :: 0 <= i < |rs| ==> Takes(rd, texts[i], rs[i])
    ensures ReadMany(rd, Join(texts) + tail, |rs|) == Some((rs, tail))
    decreases |rs|
  {
    if rs == [] {
      assert Join(texts) + tail == tail;
      return;
    }
    var rest := Join(texts[1..]) + tail;
    assert Join(texts) + tail == texts[0] + rest;
    assert Takes(rd, texts[0], rs[0]) && rd.step(texts[0] + rest) == Taken(rs[0], rest);
    TextsReadBack(rd, texts[1..], rs[1..], tail);
    ReadOneMore(rd, texts[0] + rest, rs, rest, tail);
  }

  lemma TextsTaken(style: LengthStyle, rs: seq<Request>, orders: seq<seq<string>>)
    requires Writable(rs, orders)
    ensures forall i :: 0 <= i < |rs| ==> Takes(RequestReader(style), Texts(rs, orders)[i], rs[i])
  {
    forall i | 0 <= i < |rs|
      ensures Takes(RequestReader(style), Texts(rs, orders)[i], rs[i])
    {
      TakesSerialized(style, rs[i], orders[i]);
    }
  }

  /** Pipelined requests are read back one after the other, whatever the order of their headers, and the bytes behind
      them stay in the buffer. */
  lemma PipelinedRoundTrip(style: LengthStyle, rs: seq<Request>, orders: seq<seq<string>>, tail: string)
    requires Writable(rs, orders)
    ensures ReadMany(RequestReader(style), SerializeAll(rs, orders) + tail, |rs|) == Some((rs, tail))
  {
    TextsTaken(style, rs, orders);
    JoinTexts(rs, orders);
    TextsReadBack(RequestReader(style), Texts(rs, orders), rs, tail);
  }

  // ------------------------------------------------------------------ delivery

  /** `b` is an orderly stream, and draining it hands out the requests `rs` before what `s` tells. */
  ghost predicate Delivers(rd: Reader<Request>, b: string, rs: seq<Request>, s: Served)
    requires Incremental(rd)
  {
    Orderly(rd, b) && Drain(rd, b) == Before(Dispatches(rs), s)
  }

  lemma DeliversNone(rd: Reader<Request>, b: string)
    requires Incremental(rd) && Orderly(rd, b)
    ensures Delivers(rd, b, [], Drain(rd, b))
  {
    assert Dispatches([]) + Drain(rd, b).events == Drain(rd, b).events;
  }

  lemma DeliversOneMore(rd: Reader<Request>, text: string, r: Request, rest: string, rs: seq<Request>, s: Served)
    requires Incremental(rd) && r.verb != CONNECT
    requires Takes(rd, text, r) && Delivers(rd, rest, rs, s)
    ensures Delivers(rd, text + rest, [r] + rs, s)
  {
    assert rd.step(text + rest) == Taken(r, rest);
    assert Dispatches([r] + rs) == [Dispatch(r)] + Dispatches(rs);
    assert Dispatches([r] + rs) + s.events == [Dispatch(r)] + (Dispatches(rs) + s.events);
  }

  /** Texts of requests in front of an orderly stream make an orderly stream, and draining it hands out exactly these
      requests before whatever the rest gives. */
  lemma {:induction false} TextsDrained(rd: Reader<Request>, texts: seq<string>, rs: seq<Request>,
                                        tail: string, s: Served)
    requires Incremental(rd) && Delivers(rd, tail, [], s) && |texts| == |rs|
    requires forall i :: 0 <= i < |rs| ==> rs[i].verb != CONNECT && Takes(rd, texts[i], rs[i])
    ensures Delivers(rd, Join(texts) + tail, rs, s)
    decreases |rs|
  {
    if rs == [] {
      assert Join(texts) + tail == tail;
      return;
    }
    var rest := Join(texts[1..]) + tail;
    TextsDrained(rd, texts[1..], rs[1..], tail, s);
    DeliversOneMore(rd, texts[0], rs[0], rest, rs[1..], s);
    assert Join(texts) + tail == texts[0] + rest;
    assert rs == [rs[0]] + rs[1..];
  }

  /** End to end: requests a client writes one after the other, in any order of their headers, are delivered as they
      are and in their order, however the stream is cut; then comes what the bytes behind them give. */
  lemma DeliveredAnyCut(style: LengthStyle, rs: seq<Request>, orders: seq<seq<string>>, tail: string,
                        pieces: seq<string>)
    requires Writable(rs, orders) && forall i :: 0 <= i < |rs| ==> rs[i].verb != CONNECT
    requires Orderly(RequestReader(style), tail)
    requires "" !in pieces && Join(pieces) == SerializeAll(rs, orders) + tail
    ensures Serve(RequestReader(style), "", pieces) == Before(Dispatches(rs), Drain(RequestReader(style), tail))
  {
    var rd, texts := RequestReader(style), Texts(rs, orders);
    TextsTaken(style, rs, orders);
    JoinTexts(rs, orders);
    DeliversNone(rd, tail);
    TextsDrained(rd, texts, rs, tail, Drain(rd, tail));
    ChunkingIndependence(style, pieces, pieces);
  }

  // ------------------------------------------------------------------ behind a blank line

  lemma RefusedStep(style: LengthStyle, b: string)
    requires ParseRequest(style, b).Bad?
    ensures RequestReader(style).step(b) == Refused
  {
    RequestScannerLawful(style);
    StepRefused(RequestScanner(style), b);
  }

  lemma TakenStep(style: LengthStyle, b: string, r: Request, n: nat, x: string)
    requires ParseRequest(style, b) == Ok(r, n) && n <= |b| && b[n..] == x
    ensures RequestReader(style).step(b) == Taken(r, x)
  {
    RequestScannerLawful(style);
    StepTaken(RequestScanner(style), b, r, n);
  }

  lemma DrainAlone(rd: Reader<Request>, b: string, r: Request)
    requires Incremental(rd) && rd.step(b) == Taken(r, "")
    ensures Drain(rd, b) == Served([Dispatch(r)], if r.verb == CONNECT then Tunnel else Waiting(""))
  {
    assert [Dispatch(r)] + [] == [Dispatch(r)];
  }

  /** Two cuts of one stream that are not served alike: a blank line by itself is refused and the connection closed;
      together with the request behind it, that request is delivered. */
  lemma BlankLineTwoWays(style: LengthStyle, r: Request, order: seq<string>)
    requires Shaped(r) && Faithful(r) && OrderOf(order, r.headers)
    ensures var text := Serialize(r, order);
            && Join([CRLFCRLF, text]) == Join([CRLFCRLF + text])
            && Serve(RequestReader(style), "", [CRLFCRLF, text]) == Served([Reject], Closed)
            && Serve(RequestReader(style), "", [CRLFCRLF + text]).events == [Dispatch(r)]
  {
    var rd, text := RequestReader(style), Serialize(r, order);
    BlankLineFirst(style, r, order);
    RefusedStep(style, CRLFCRLF);
    TakenStep(style, CRLFCRLF + text, r, |CRLFCRLF + text|, "");
    ServeClosed(rd, CRLFCRLF, text);
    ServeOnce(rd, CRLFCRLF + text);
    DrainAlone(rd, CRLFCRLF + text, r);
  }
}
