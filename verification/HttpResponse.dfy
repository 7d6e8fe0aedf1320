/** The class `HttpResponse`, and the receive loop that uses it. */
module HttpResponses {
  import opened Strings
  import opened Numbers
  import opened Fields
  import opened Framing
  import opened Messages
  import opened Scanning
  import opened Bounds
  import opened Words
  import opened Responses
  import opened RoundTrip
  import opened WrittenResponses
  import opened ParserCode
  import opened Upstream
  import opened ClientStream

  /** `operator>>` into a string: white space skipped, then a word. */
  method ExtractWord(s: string) returns (word: string, rest: string)
    ensures var a := SkipSpace(s); word == a[..WordLength(a)] && rest == a[WordLength(a)..]
  {
    rest := s;
    while rest != "" && IsSpace(rest[0])
      invariant SkipSpace(rest) == SkipSpace(s)
      decreases |rest|
    {
      rest := rest[1..];
    }
    var a, n := rest, 0;
    while n < |a| && !IsSpace(a[n])
      invariant n <= |a| && n + WordLength(a[n..]) == WordLength(a)
    {
      n := n + 1;
      assert a[n - 1..][1..] == a[n..];
    }
    return a[..n], a[n..];
  }

  /** What the status line and the header loop give, in terms of the grammar. */
  lemma HeadFromSection(g: Grammar<Response>, t: string, line: string, headersEnd: Option<nat>,
                        section: Option<Section>)
    requires IsResponseGrammar(g, OneChar) && headersEnd == Find(t, CRLFCRLF, 0)
    requires headersEnd.None? ==> section.None?
    requires headersEnd.Some? ==>
               var stop := headersEnd.value + 2;
               && Find(t, [LF], 0) == Some(|line|) && |line| + 1 <= stop <= |t| && line == t[..|line|]
               && t[stop - 1] == LF
               && section == if |line| + 1 == stop then None else Remaining(g.rules, EMPTY_SECTION, t, |line| + 1, stop)
    ensures match ReadHead(g, t)
            case Ok(head, n) =>
              && headersEnd == Some(n - 4) && section == Some(head.fields) && head.start == StatusLine(StatusOf(line))
            case _ => section.None?
  {
    if headersEnd.Some? {
      assert g.startLine(line) == Some(StatusLine(StatusOf(line)));
      ReadHeadFrom(g, t, headersEnd.value, |line|, StatusLine(StatusOf(line)), section);
      assert section.Some? ==> g.accept(section.value.headers);
    }
  }

  class HttpResponse {
    var statusLine: string
    var headers: Headers
    var body: string
    var parseError: bool

    ghost function Value(): Response
      reads this
    {
      Response(statusLine, headers, body)
    }

    /** The default response is the 502 reply. */
    constructor ()
      ensures Value() == BAD_GATEWAY && !parseError
    {
      statusLine, headers, body := BAD_GATEWAY.statusLine, BAD_GATEWAY.headers, BAD_GATEWAY.body;
      parseError := false;
    }

    method ParseStatusLine(line: string)
      modifies `statusLine
      ensures statusLine == StatusOf(line)
    {
      var version, code, message;
      version, message := ExtractWord(line);
      code, message := ExtractWord(message);
      while message != "" && message[0] == ' '
        invariant StatusOf(line) == DropCr(version + " " + code + " " + SkipSpaces(message))
        decreases |message|
      {
        message := message[1..];
      }
      statusLine := version + " " + code + " " + message;
      if statusLine != "" && statusLine[|statusLine| - 1] == CR {
        statusLine := statusLine[..|statusLine| - 1];
      }
    }

    /** Whether the max-age of a complete response can be read; `std::stoi` throws otherwise. */
    method ReadMaxAge() returns (throws: bool)
      ensures throws == MaxAgeRaises(headers)
    {
      if CACHE_CONTROL in headers {
        var control := headers[CACHE_CONTROL];
        var noStore := FindFrom(control, "no-store", 0);
        if noStore.None? {
          var maxAge := FindFrom(control, "max-age=", 0);
          if maxAge.Some? {
            return !StoiReturns(control[maxAge.value + 8..]);
          }
        }
      }
      return false;
    }

    /** Status line and header section of a buffer that starts with "HTTP". */
    method ParseHead(ghost g: Grammar<Response>, t: string) returns (section: Option<Section>, charsRead: int)
      requires IsResponseGrammar(g, OneChar) && |t| < TWO_31 && t != "" && t[0] != CR && t[0] != LF
      modifies `statusLine
      ensures match ReadHead(g, t)
              case Ok(head, n) => charsRead == n && section == Some(head.fields) && head.start == StatusLine(statusLine)
              case _ => section.None?
    {
      var headersEnd := FindFrom(t, CRLFCRLF, 0);
      var stream, line;
      stream, line, charsRead := FirstLine(t, headersEnd);
      if headersEnd.Some? {
        OccursCrlfCrlf(t, headersEnd.value);
      }
      ParseStatusLine(line);
      section, charsRead := ReadSection(g.rules, false, stream, line, charsRead, headersEnd);
      HeadFromSection(g, t, line, headersEnd, section);
    }

    method ParseMessage(ghost g: Grammar<Response>, t: string, ghost fuel: nat) returns (status: Status)
      requires IsResponseGrammar(g, OneChar) && |t| < TWO_31 && t != "" && t[0] != CR && t[0] != LF
      requires MessageInWords(g, t, fuel).Some? && !parseError
      modifies this
      ensures match MessageInWords(g, t, fuel).value
              case More => status == Incomplete
              case Bad => status == Finished && parseError
              case Raise => status == Threw
              case Ok(r, n) => status == Finished && !parseError && Value() == r
    {
      var section, charsRead := ParseHead(g, t);
      if section.None? {
        parseError := true;
        return Finished;
      }
      var content := DecodeBody(g.rules, false, t, charsRead, section.value, OneChar, fuel);
      match content
      case More =>
        return Incomplete;
      case Bad =>
        parseError := true;
        return Finished;
      case Raise =>
        return Threw;
      case Ok(c, next) =>
        headers, body := c.headers, c.body;
        assert g.finish(StatusLine(statusLine), section.value.headers, c) == FinishResponse(StatusLine(statusLine), c);
        var throws := ReadMaxAge();
        return if throws then Threw else Finished;
    }

    /** `parse_response`; `rest` is what it leaves of the buffer while it waits. It is called where it returns, which
        `ReturnsExactly` decides. */
    method ParseResponse(responseStr: string) returns (status: Status, rest: string)
      requires !parseError && |responseStr| < TWO_31 && Returns(ResponseGrammar(OneChar), RESPONSE_WORDS, responseStr)
      modifies this
      ensures rest == FromWord(RESPONSE_WORDS, responseStr)
      ensures match CodeVerdict(ResponseGrammar(OneChar), RESPONSE_WORDS, responseStr).value
              case More => status == Incomplete
              case Bad => status == Finished && parseError
              case Raise => status == Threw
              case Ok(r, n) => status == Finished && !parseError && Value() == r
    {
      ghost var g := ResponseGrammar(OneChar);
      VerdictEarly(g, RESPONSE_WORDS, responseStr);
      ResponseGrammarIs(OneChar);
      statusLine, headers, body := "", map[], "";
      rest := responseStr;
      var headersEnd := FindFrom(rest, CRLFCRLF, 0);
      if headersEnd.None? {
        return Incomplete, rest;
      }
      var statusStart := FindStatus(rest);
      if statusStart.None? {
        parseError := true;
        return Finished, rest;
      }
      ghost var fuel := FuelBehind(g, RESPONSE_WORDS, responseStr, statusStart.value);
      VerdictBehind(g, RESPONSE_WORDS, responseStr, statusStart.value, fuel,
                    MessageInWords(g, responseStr[statusStart.value..], fuel).value);
      rest := rest[statusStart.value..];
      status := ParseMessage(g, rest, fuel);
    }

    /** `serialize`: the header map is visited in an order the library chooses. */
    method SerializeText() returns (text: string)
      ensures exists order :: OrderOf(order, headers) && text == SerializeResponse(Value(), order)
    {
      text := statusLine + CRLF;
      ghost var order := [];
      var unvisited := headers.Keys;
      while unvisited != {}
        invariant unvisited <= headers.Keys
        invariant forall k :: k in order <==> k in headers && k !in unvisited
        invariant forall i, j :: 0 <= i < j < |order| ==> order[i] != order[j]
        invariant text == statusLine + CRLF + FieldLines(headers, order)
        decreases unvisited
      {
        var k :| k in unvisited;
        FieldLinesAppend(headers, order, k);
        assert text + FieldLine(k, headers[k])
            == statusLine + CRLF + (FieldLines(headers, order) + FieldLine(k, headers[k]));
        text := text + (k + ": " + headers[k] + CRLF);
        order := order + [k];
        unvisited := unvisited - {k};
      }
      text := text + CRLF + body;
      assert OrderOf(order, headers) && text == SerializeResponse(Value(), order);
    }

    method FindStatus(b: string) returns (m: Option<nat>)
      ensures m == WordStart(RESPONSE_WORDS, b)
      ensures m.Some? ==> b[m.value..] != "" && b[m.value..][0] == 'H'
    {
      m := FindFrom(b, HTTP, 0);
      assert HTTP in RESPONSE_WORDS;
      if m.Some? {
        OccursIndex(b, HTTP, m.value, 0);
        assert FirstWordAt(RESPONSE_WORDS, b, m.value);
      }
    }
  }

  // ------------------------------------------------------------------ the receive loop

  /** A parser on a buffer; `None` if it does not return. */
  type ReplyParse = string -> Option<Scan<Response>>

  ghost function ResponseParse(style: LengthStyle): ReplyParse {
    b => CodeVerdict(ResponseGrammar(style), RESPONSE_WORDS, b)
  }

  /** Every buffer of the loop is below 2^31 bytes, and the parser returns on it. */
  ghost predicate AwaitReturns(parse: ReplyParse, buffer: string, pieces: seq<string>)
    decreases |pieces|
  {
    pieces == [] || pieces[0] == "" ||
    (var b := buffer + pieces[0];
     && |b| < TWO_31 && parse(b).Some?
     && (parse(b).value.More? ==> AwaitReturns(parse, FromWord(RESPONSE_WORDS, b), pieces[1..])))
  }

  /** The loop over the parser in machine words. */
  ghost function AwaitInWords(parse: ReplyParse, buffer: string, pieces: seq<string>): Reply
    requires AwaitReturns(parse, buffer, pieces)
    decreases |pieces|
  {
    if pieces == [] || pieces[0] == "" then BadGateway
    else
      var b := buffer + pieces[0];
      match parse(b).value
      case More => AwaitInWords(parse, FromWord(RESPONSE_WORDS, b), pieces[1..])
      case Bad => BadGateway
      case Raise => Raised
      case Ok(r, _) => Got(r)
  }

  /** `parse` is the response parser of the code. */
  ghost predicate OfTheCode(parse: ReplyParse) {
    forall b {:trigger CodeVerdict(ResponseGrammar(OneChar), RESPONSE_WORDS, b)} ::
      parse(b) == CodeVerdict(ResponseGrammar(OneChar), RESPONSE_WORDS, b)
  }

  /** A new response object parses the buffer. */
  method ParseNext(ghost parse: ReplyParse, buffer: string)
    returns (status: Status, parseError: bool, response: Response, rest: string)
    requires OfTheCode(parse) && |buffer| < TWO_31 && parse(buffer).Some?
    ensures rest == FromWord(RESPONSE_WORDS, buffer)
    ensures match parse(buffer).value
            case More => status == Incomplete
            case Bad => status == Finished && parseError
            case Raise => status == Threw
            case Ok(r, n) => status == Finished && !parseError && response == r
  {
    assert parse(buffer) == CodeVerdict(ResponseGrammar(OneChar), RESPONSE_WORDS, buffer);
    var h := new HttpResponse();
    status, rest := h.ParseResponse(buffer);
    parseError, response := h.parseError, Response(h.statusLine, h.headers, h.body);
  }

  /** The receive loop of `forward_request`, with the successive results of `recv` as `pieces`. */
  method Receive(ghost parse: ReplyParse, pieces: seq<string>) returns (reply: Reply)
    requires OfTheCode(parse) && AwaitReturns(parse, "", pieces)
    ensures reply == AwaitInWords(parse, "", pieces)
  {
    var currMessage := "";
    var received := 0;
    while received < |pieces|
      invariant received <= |pieces|
      invariant AwaitReturns(parse, currMessage, pieces[received..])
      invariant AwaitInWords(parse, "", pieces) == AwaitInWords(parse, currMessage, pieces[received..])
    {
      if pieces[received] == "" {
        return BadGateway;
      }
      currMessage := currMessage + pieces[received];
      ghost var later := pieces[received..];
      assert later[1..] == pieces[received + 1..];
      received := received + 1;
      var status, parseError, response;
      status, parseError, response, currMessage := ParseNext(parse, currMessage);
      if status == Threw {
        return Raised;
      }
      if status == Finished {
        return if parseError then BadGateway else Got(response);
      }
    }
    return BadGateway;
  }

  /** The loop with the parser of the code. */
  method ReceiveResponse(pieces: seq<string>) returns (reply: Reply)
    requires AwaitReturns(ResponseParse(OneChar), "", pieces)
    ensures reply == AwaitInWords(ResponseParse(OneChar), "", pieces)
    ensures AwaitFits(ResponseScanner(OneChar), ResponseFits(OneChar), "", pieces) ==>
              reply == Await(ResponseScanner(OneChar), "", pieces)
  {
    if AwaitFits(ResponseScanner(OneChar), ResponseFits(OneChar), "", pieces) {
      CodeAwaitsWithin(OneChar, "", pieces);
    }
    reply := Receive(ResponseParse(OneChar), pieces);
  }

  // ------------------------------------------------------------------ within the bound

  /** Every buffer the loop parses is within the bound. */
  ghost predicate AwaitFits(sc: Scanner<Response>, fits: string -> bool, buffer: string, pieces: seq<string>)
    decreases |pieces|
  {
    pieces == [] || pieces[0] == "" ||
    (var b := buffer + pieces[0];
     && fits(b)
     && (Verdict(sc, b).More? ==> AwaitFits(sc, fits, FromWord(sc.words, b), pieces[1..])))
  }

  /** On buffers within the bound `parse` returns with the verdict of the scanner. */
  ghost predicate VerdictWithin(parse: ReplyParse, sc: Scanner<Response>, fits: string -> bool) {
    forall b :: fits(b) ==> |b| < TWO_31 && parse(b) == Some(Verdict(sc, b))
  }

  /** Within the bound the loop gives the reply of unbounded arithmetic. */
  lemma {:induction false} AwaitWithin(parse: ReplyParse, sc: Scanner<Response>, fits: string -> bool, buffer: string,
                                       pieces: seq<string>)
    requires sc.words == RESPONSE_WORDS && VerdictWithin(parse, sc, fits) && AwaitFits(sc, fits, buffer, pieces)
    ensures AwaitReturns(parse, buffer, pieces) && AwaitInWords(parse, buffer, pieces) == Await(sc, buffer, pieces)
    decreases |pieces|
  {
    if pieces == [] || pieces[0] == "" { return; }
    var b := buffer + pieces[0];
    assert fits(b);
    if Verdict(sc, b).More? {
      AwaitWithin(parse, sc, fits, FromWord(sc.words, b), pieces[1..]);
    }
  }

  lemma CodeAwaitsWithin(style: LengthStyle, buffer: string, pieces: seq<string>)
    requires AwaitFits(ResponseScanner(style), ResponseFits(style), buffer, pieces)
    ensures AwaitReturns(ResponseParse(style), buffer, pieces)
    ensures AwaitInWords(ResponseParse(style), buffer, pieces) == Await(ResponseScanner(style), buffer, pieces)
  {
    var g, sc := ResponseGrammar(style), ResponseScanner(style);
    ResponseGrammarIs(style);
    assert ScansBy(sc, g);
    forall b | Fits(g, sc.words, b)
      ensures CodeVerdict(g, sc.words, b) == Some(Verdict(sc, b))
    {
      WithinBound(sc, g, false, b);
    }
    AwaitWithin(ResponseParse(style), sc, ResponseFits(style), buffer, pieces);
  }

  ghost function ResponseFits(style: LengthStyle): string -> bool {
    FitsOf(ResponseGrammar(style), RESPONSE_WORDS)
  }

  /** If all the bytes of the origin are within the bound, so is every cut of them. */
  lemma {:induction false} AwaitFitsAnyCut<T(!new)>(sc: Scanner<Response>, g: Grammar<T>, buffer: string,
                                                           pieces: seq<string>)
    requires Lawful(sc) && WordFirst(sc.words, buffer + Join(pieces)) && Fits(g, sc.words, buffer + Join(pieces))
    ensures AwaitFits(sc, FitsOf(g, sc.words), buffer, pieces)
    decreases |pieces|
  {
    if pieces == [] || pieces[0] == "" { return; }
    var b, rest := buffer + pieces[0], Join(pieces[1..]);
    assert buffer + Join(pieces) == b + rest;
    FitsInPrefix(g, sc.words, b, rest);
    if Verdict(sc, b).More? {
      NotYetSettled(sc, b, rest);
      FitsWaiting(sc, g, b, rest);
      AwaitFitsAnyCut(sc, g, FromWord(sc.words, b), pieces[1..]);
    }
  }

  lemma FitsWaiting<T(!new)>(sc: Scanner<Response>, g: Grammar<T>, b: string, x: string)
    requires Lawful(sc) && Verdict(sc, b).More? && Fits(g, sc.words, b + x)
    ensures Fits(g, sc.words, FromWord(sc.words, b) + x)
  {
    if Find(b, CRLFCRLF, 0).Some? {
      assert Step(sc, b) == Wait(FromWord(sc.words, b));
      var m := TrimmedRest(sc, b, x);
      FitsShift(g, sc.words, b + x, m, FromWord(sc.words, b) + x);
    }
  }
}
