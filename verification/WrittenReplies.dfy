/** Responses on their way from an origin that writes them to the client, however `recv` cuts them. */
module WrittenReplies {
  import opened Strings
  import opened Fields
  import opened Framing
  import opened Scanning
  import opened Requests
  import opened Responses
  import opened RoundTrip
  import opened Repetition
  import opened Wire
  import opened WrittenResponses
  import opened ClientStream
  import opened Upstream
  import opened Endings
  import opened Cache
  import opened Handler
  import opened EndToEnd

  /** A response as the writer of the code can write it and the parser read it: a status line of three words, names
      without colon, trimmed values without LF, at least one of them, and a Content-Length that is the length of the
      body, or no body. */
  ghost predicate Plain(r: Response, version: string, code: string, reason: string) {
    && StatusParts(version, code, reason) && r.statusLine == version + " " + code + " " + reason
    && r.headers != map[] && PlainFields(r.headers) && TRANSFER_ENCODING !in r.headers
    && FramedBy(r.headers, r.body)
  }

  /** `r` is such a response and `text` one of its texts. */
  ghost predicate Writes(r: Response, text: string) {
    exists version, code, reason, order ::
      Plain(r, version, code, reason) && OrderOf(order, r.headers) && text == SerializeResponse(r, order)
  }

  /** The message of `s` starts at its front. */
  ghost predicate AtFront<T>(sc: Scanner<T>, s: string) {
    WordStart(sc.words, s) == Some(0)
  }

  lemma SerializedFront(version: string, code: string, reason: string, r: Response, order: seq<string>, x: string)
    requires Plain(r, version, code, reason) && OrderOf(order, r.headers)
    ensures WordStart(RESPONSE_WORDS, SerializeResponse(r, order) + x) == Some(0)
  {
    var xs := InOrder(r.headers, order);
    InOrderText(r.headers, order);
    assert SerializeResponse(r, order) + x == HeadText(r.statusLine, xs) + (r.body + x);
    ResponseFront(r.statusLine, xs, SerializeResponse(r, order) + x);
  }

  lemma WrittenVerdict(style: LengthStyle, r: Response, text: string, x: string)
    requires Writes(r, text)
    ensures ParseResponse(style, text + x) == if MaxAgeRaises(r.headers) then Raise else Ok(r, |text|)
    ensures AtFront(ResponseScanner(style), text + x)
  {
    var version, code, reason, order :|
      Plain(r, version, code, reason) && OrderOf(order, r.headers) && text == SerializeResponse(r, order);
    SerializedResponseRead(style, version, code, reason, r, order, x);
    SerializedFront(version, code, reason, r, order, x);
  }

  /** However bytes that start with "HTTP" are cut, the loop gives the reply to all of them. */
  lemma AwaitedBy(sc: Scanner<Response>, pieces: seq<string>)
    requires Lawful(sc) && "" !in pieces
    ensures AtFront(sc, Join(pieces)) ==> Await(sc, "", pieces) == ReplyTo(Verdict(sc, Join(pieces)))
  {
    if AtFront(sc, Join(pieces)) {
      FrontIsFirst(sc, Join(pieces));
      UpstreamChunkingIndependence(sc, pieces, pieces);
    }
  }

  lemma Awaited(style: LengthStyle, pieces: seq<string>)
    requires "" !in pieces
    ensures AtFront(ResponseScanner(style), Join(pieces)) ==>
              Await(ResponseScanner(style), "", pieces) == ReplyTo(ParseResponse(style, Join(pieces)))
  {
    ResponseScannerLawful(style);
    AwaitedBy(ResponseScanner(style), pieces);
  }

  lemma CutShortBy(sc: Scanner<Response>, text: string, pieces: seq<string>)
    requires Lawful(sc) && "" !in pieces
    ensures IsMessage(sc, text) && Join(pieces) < text ==> Await(sc, "", pieces) == BadGateway
  {
    var b := Join(pieces);
    if IsMessage(sc, text) && b < text {
      var x := text[|b|..];
      assert b + x == text;
      FrontIsFirst(sc, text);
      FrontWaits(sc, b, x);
      FrontStays(sc, b, text);
      UpstreamChunkingIndependence(sc, pieces, pieces);
    }
  }

  lemma ResponseIsMessage(style: LengthStyle, r: Response, text: string)
    requires Writes(r, text) && !MaxAgeRaises(r.headers)
    ensures IsMessage(ResponseScanner(style), text)
  {
    WrittenVerdict(style, r, text, "");
    assert text + "" == text;
  }

  /** What an origin writes is what the loop receives, however it is cut and whatever follows; only a max-age that
      cannot be read makes it throw. */
  lemma ReceivedAnyCut(style: LengthStyle, r: Response, text: string, x: string, pieces: seq<string>)
    requires Writes(r, text) && Join(pieces) == text + x && "" !in pieces
    ensures Await(ResponseScanner(style), "", pieces) == if MaxAgeRaises(r.headers) then Raised else Got(r)
  {
    WrittenVerdict(style, r, text, x);
    Awaited(style, pieces);
  }

  /** A head without fields, or one that repeats a name it may not repeat, makes it a 502, whatever follows. */
  lemma RefusedReply(style: LengthStyle, version: string, code: string, reason: string, xs: seq<Field>, x: string,
                     pieces: seq<string>)
    requires StatusParts(version, code, reason) && AllWritten(xs) && BadFields(xs)
    requires Join(pieces) == ResponseText(version, code, reason, xs, x) && "" !in pieces
    ensures Await(ResponseScanner(style), "", pieces) == BadGateway
  {
    var t := ResponseText(version, code, reason, xs, x);
    BadFieldsRefused(style, version, code, reason, xs, t);
    ResponseFront(StatusText(version, code, reason), xs, t);
    assert AtFront(ResponseScanner(style), t);
    Awaited(style, pieces);
  }

  /** An origin that closes before the last byte of its response makes it a 502, wherever it stops. */
  lemma CutShort(style: LengthStyle, r: Response, text: string, pieces: seq<string>)
    requires Writes(r, text) && !MaxAgeRaises(r.headers) && Join(pieces) < text && "" !in pieces
    ensures Await(ResponseScanner(style), "", pieces) == BadGateway
  {
    ResponseIsMessage(style, r, text);
    ResponseScannerLawful(style);
    CutShortBy(ResponseScanner(style), text, pieces);
  }

  /** Once the origin has closed, for which `recv` returns nothing, no further bytes count. */
  lemma {:induction false} ClosedEarly(sc: Scanner<Response>, buffer: string, pieces: seq<string>, later: seq<string>)
    ensures Await(sc, buffer, pieces + [""] + later) == Await(sc, buffer, pieces)
    decreases |pieces|
  {
    var all := pieces + [""] + later;
    if pieces == [] {
      assert all[0] == "";
    } else {
      assert all[0] == pieces[0] && all[1..] == pieces[1..] + [""] + later;
      ClosedEarly(sc, FromWord(sc.words, buffer + pieces[0]), pieces[1..], later);
    }
  }

  // ------------------------------------------------------------------ end to end

  /** The origin writes a response for each request, and `recv` cuts it. */
  ghost predicate OriginWrites(sending: Sending, page: Request -> Response) {
    forall r: Request {:trigger page(r)} ::
      && Writes(page(r), sending.bytes(r)) && !MaxAgeRaises(page(r).headers)
      && Join(sending.cut(r)) == sending.bytes(r) && "" !in sending.cut(r)
  }

  lemma WrittenIsFetched(style: LengthStyle, sending: Sending, origin: Origin, page: Request -> Response, r: Request)
    requires Fetches(ResponseScanner(style), sending, origin) && OriginWrites(sending, page)
    ensures origin(r) == page(r)
  {
    assert Writes(page(r), sending.bytes(r));
    assert sending.bytes(r) + "" == sending.bytes(r);
    ReceivedAnyCut(style, page(r), sending.bytes(r), "", sending.cut(r));
    assert origin(r) == sending.Shown(Await(ResponseScanner(style), "", sending.cut(r)));
  }

  /** From writer to reader: however `recv` cuts the streams of client and origin and however the handlers interleave,
      an unconditional GET that a client has written is answered by the very response the origin has written for it. */
  lemma WrittenPageReachesClient(style: LengthStyle, sending: Sending, origin: Origin, page: Request -> Response,
                                 capacity: nat, c: Connection, j: nat, requests: seq<Request>, turns: seq<Turn>, i: nat)
    requires Fetches(ResponseScanner(style), sending, origin) && OriginWrites(sending, page) && Steady(origin)
    requires Written(style, c) && j < |c.requests| && Handles(style, c, j, requests, i)
    requires Covered(c.requests[j]) && !Conditional(c.requests[j])
    requires forall k :: 0 <= k < |requests| ==> Admissible(requests[k])
    ensures var h := Run(origin, capacity, requests, turns).handlers;
            i < |h| && (h[i].point.Done? ==> h[i].point.reply == page(c.requests[j]))
  {
    HandlesWritten(style, c, j, requests, i);
    TransparentAnswer(origin, capacity, requests, turns, i);
    WrittenIsFetched(style, sending, origin, page, c.requests[j]);
  }
}
