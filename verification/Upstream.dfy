/** The receive loop of `RequestHandler::forward_request` over the bytes the origin sends. */
module Upstream {
  import opened Strings
  import opened Framing
  import opened Scanning
  import opened Responses
  import opened ClientStream

  /** A parsed response, the 502 reply, or an exception of the parser. */
  datatype Reply = Got(response: Response) | BadGateway | Raised

  /** One `recv` after the other until a response is complete; an empty one is the origin closing early. */
  ghost function Await(sc: Scanner<Response>, buffer: string, pieces: seq<string>): Reply
    decreases |pieces|
  {
    if pieces == [] || pieces[0] == "" then BadGateway
    else
      match Verdict(sc, buffer + pieces[0])
      case More => Await(sc, FromWord(sc.words, buffer + pieces[0]), pieces[1..])
      case Bad => BadGateway
      case Raise => Raised
      case Ok(r, _) => Got(r)
  }

  /** The reply to all the bytes at once. */
  ghost function ReplyTo(v: Scan<Response>): Reply {
    match v
    case More => BadGateway
    case Bad => BadGateway
    case Raise => Raised
    case Ok(r, _) => Got(r)
  }

  /** A piece that settles the reply settles it for the whole. */
  lemma SettledEarly(sc: Scanner<Response>, b: string, x: string)
    requires Lawful(sc) && WordFirst(sc.words, b + x) && !Verdict(sc, b).More?
    ensures ReplyTo(Verdict(sc, b + x)) == ReplyTo(Verdict(sc, b))
  {
    if Verdict(sc, b).Bad? {
      RefusalStable(sc, b, x);
    } else {
      FinalVerdictStable(sc, b, x);
    }
  }

  /** A buffer trimmed while it waits still waits. */
  lemma TrimmedWaits(sc: Scanner<Response>, b: string)
    requires Lawful(sc) && Verdict(sc, b).More?
    ensures Verdict(sc, Rest(sc, b)).More?
  {
    TrimmingHarmless(sc, b, "");
    EmptyAppended(b);
    EmptyAppended(Rest(sc, b));
  }

  lemma EmptyAppended(b: string)
    ensures b + "" == b
  {
  }

  /** A piece that does not leaves a buffer to go on with. */
  lemma NotYetSettled(sc: Scanner<Response>, b: string, x: string)
    requires Lawful(sc) && WordFirst(sc.words, b + x) && Verdict(sc, b).More?
    ensures ReplyTo(Verdict(sc, Rest(sc, b) + x)) == ReplyTo(Verdict(sc, b + x))
    ensures WordFirst(sc.words, Rest(sc, b) + x)
  {
    SameReply(sc, b, x);
    assert Step(sc, b) == Wait(Rest(sc, b));
    ReadyAfterTrim(sc, b, x);
  }

  lemma SameReply(sc: Scanner<Response>, b: string, x: string)
    requires Lawful(sc) && Verdict(sc, b).More?
    ensures ReplyTo(Verdict(sc, Rest(sc, b) + x)) == ReplyTo(Verdict(sc, b + x))
  {
    TrimmingHarmless(sc, b, x);
  }

  /** The reply does not depend on how the bytes of the origin are cut. */
  lemma {:induction false} AwaitAnyCut(sc: Scanner<Response>, buffer: string, pieces: seq<string>)
    requires Lawful(sc) && "" !in pieces && Verdict(sc, buffer).More?
    requires WordFirst(sc.words, buffer + Join(pieces))
    ensures Await(sc, buffer, pieces) == ReplyTo(Verdict(sc, buffer + Join(pieces)))
    decreases |pieces|
  {
    if pieces == [] {
      assert buffer + Join(pieces) == buffer;
      return;
    }
    var b, rest := buffer + pieces[0], Join(pieces[1..]);
    assert buffer + Join(pieces) == b + rest;
    if Verdict(sc, b).More? {
      NotYetSettled(sc, b, rest);
      TrimmedWaits(sc, b);
      AwaitAnyCut(sc, Rest(sc, b), pieces[1..]);
    } else {
      SettledEarly(sc, b, rest);
    }
  }

  /** Two cuttings of the same bytes, with "HTTP" before the first blank line, give the same reply: that to all the
      bytes at once. `sc` is the response parser, or any other lawful one. */
  lemma UpstreamChunkingIndependence(sc: Scanner<Response>, one: seq<string>, other: seq<string>)
    requires Lawful(sc) && WordFirst(sc.words, Join(one))
    requires Join(one) == Join(other) && "" !in one && "" !in other
    ensures Await(sc, "", one) == Await(sc, "", other) == ReplyTo(Verdict(sc, Join(one)))
  {
    assert Find("", CRLFCRLF, 0).None?;
    assert "" + Join(one) == Join(one) && "" + Join(other) == Join(other);
    AwaitAnyCut(sc, "", one);
    AwaitAnyCut(sc, "", other);
  }

  /** With the parser of the code. */
  lemma ResponseChunkingIndependence(style: LengthStyle, one: seq<string>, other: seq<string>)
    requires WordFirst(RESPONSE_WORDS, Join(one)) && Join(one) == Join(other) && "" !in one && "" !in other
    ensures Await(ResponseScanner(style), "", one) == Await(ResponseScanner(style), "", other)
  {
    ResponseScannerLawful(style);
    UpstreamChunkingIndependence(ResponseScanner(style), one, other);
  }

  // ------------------------------------------------------------------ the exact condition

  ghost predicate CutsAwaitAlike(sc: Scanner<Response>, s: string) {
    forall one, other {:trigger Await(sc, "", one), Await(sc, "", other)} ::
      Join(one) == s && Join(other) == s && "" !in one && "" !in other ==> Await(sc, "", one) == Await(sc, "", other)
  }

  /** Bytes that are answered with 502 are answered with 502 however they are cut. */
  lemma {:induction false} GatewayAnyCut(sc: Scanner<Response>, buffer: string, pieces: seq<string>)
    requires Lawful(sc) && ReplyTo(Verdict(sc, buffer + Join(pieces))) == BadGateway
    ensures Await(sc, buffer, pieces) == BadGateway
    decreases |pieces|
  {
    if pieces == [] || pieces[0] == "" { return; }
    var b, rest := buffer + pieces[0], Join(pieces[1..]);
    assert buffer + Join(pieces) == b + rest;
    match Verdict(sc, b)
    case More =>
      TrimmingHarmless(sc, b, rest);
      GatewayAnyCut(sc, Rest(sc, b), pieces[1..]);
    case Bad =>
    case _ => FinalVerdictStable(sc, b, rest);
  }

  lemma AwaitRefused(sc: Scanner<Response>, b: string, x: string)
    requires b != "" && Verdict(sc, b).Bad?
    ensures Await(sc, "", if x == "" then [b] else [b, x]) == BadGateway
  {
    assert "" + b == b && (if x == "" then [b] else [b, x])[0] == b;
  }

  /** The word comes late: the bytes up to the blank line are answered with 502, whatever the whole is. */
  lemma LateCut(sc: Scanner<Response>, s: string) returns (b: string, x: string)
    requires Lawful(sc) && !WordFirst(sc.words, s)
    ensures s == b + x && b != "" && Verdict(sc, b).Bad?
  {
    b := s[..Find(s, CRLFCRLF, 0).value + 4];
    x := s[|b|..];
    LateWordRefused(sc, s, b);
  }

  lemma AwaitOnce(sc: Scanner<Response>, s: string)
    requires s != ""
    ensures Join([s]) == s && Await(sc, "", [s]) == ReplyTo(Verdict(sc, s))
  {
    assert "" + s == s && [s][1..] == [];
    assert Join([s]) == s + Join([]);
  }

  lemma JoinTwo(b: string, x: string)
    ensures Join(if x == "" then [b] else [b, x]) == b + x
  {
    assert [b, x][1..] == [x] && [x][1..] == [] && [b][1..] == [];
    assert Join([x]) == x + Join([]) && Join([b]) == b + Join([]);
    assert Join([b, x]) == b + Join([x]);
  }

  lemma AwaitedAlike(sc: Scanner<Response>, s: string)
    requires Lawful(sc) && (WordFirst(sc.words, s) || ReplyTo(Verdict(sc, s)) == BadGateway)
    ensures CutsAwaitAlike(sc, s)
  {
    forall one, other | Join(one) == s && Join(other) == s && "" !in one && "" !in other
      ensures Await(sc, "", one) == Await(sc, "", other)
    {
      if WordFirst(sc.words, s) {
        UpstreamChunkingIndependence(sc, one, other);
      } else {
        assert "" + s == s;
        GatewayAnyCut(sc, "", one);
        GatewayAnyCut(sc, "", other);
      }
    }
  }

  lemma TwoReplies(sc: Scanner<Response>, s: string, one: seq<string>, other: seq<string>)
    requires Join(one) == s && Join(other) == s && "" !in one && "" !in other
    requires Await(sc, "", one) != Await(sc, "", other)
    ensures !CutsAwaitAlike(sc, s)
  {
  }

  lemma NotAwaitedAlike(sc: Scanner<Response>, s: string)
    requires Lawful(sc) && !WordFirst(sc.words, s) && ReplyTo(Verdict(sc, s)) != BadGateway
    ensures !CutsAwaitAlike(sc, s)
  {
    var b, x := LateCut(sc, s);
    AwaitRefused(sc, b, x);
    AwaitOnce(sc, s);
    JoinTwo(b, x);
    TwoReplies(sc, s, if x == "" then [b] else [b, x], [s]);
  }

  /** All cuts of an origin's bytes yield the same reply if and only if its word precedes the first blank line, or the
      whole is answered with 502 anyway. */
  lemma AwaitedAlikeExactly(sc: Scanner<Response>, s: string)
    requires Lawful(sc)
    ensures CutsAwaitAlike(sc, s) <==> WordFirst(sc.words, s) || ReplyTo(Verdict(sc, s)) == BadGateway
  {
    if WordFirst(sc.words, s) || ReplyTo(Verdict(sc, s)) == BadGateway {
      AwaitedAlike(sc, s);
    } else {
      NotAwaitedAlike(sc, s);
    }
  }
}
