/** The class `HttpRequest`. */
module HttpRequests {
  import opened Strings
  import opened Numbers
  import opened Fields
  import opened Framing
  import opened Messages
  import opened Scanning
  import opened Words
  import opened Requests
  import opened ParserCode
  import opened RoundTrip
  import opened ClientStream

  function Earlier(a: Option<nat>, b: Option<nat>): Option<nat> {
    if a.None? then b
    else if b.None? || a.value <= b.value then a
    else b
  }

  /** The least of the three search results is the earliest method word. */
  method FindMethod(b: string) returns (m: Option<nat>)
    ensures m == WordStart(METHODS, b)
  {
    var getStart := FindFrom(b, GET, 0);
    var postStart := FindFrom(b, POST, 0);
    var connectStart := FindFrom(b, CONNECT, 0);
    m := Earlier(Earlier(getStart, postStart), connectStart);
    forall j
      ensures WordAt(METHODS, b, j) <==> OccursAt(b, GET, j) || OccursAt(b, POST, j) || OccursAt(b, CONNECT, j)
    {
      if OccursAt(b, GET, j) { assert GET in METHODS; }
      if OccursAt(b, POST, j) { assert POST in METHODS; }
      if OccursAt(b, CONNECT, j) { assert CONNECT in METHODS; }
    }
    if m.Some? {
      assert FirstWordAt(METHODS, b, m.value);
    }
  }

  /** The three components, empty where the line ends before them. */
  method SplitRequestLine(line: string) returns (verb: string, url: string, version: string)
    requires LF !in line
    ensures match Find(line, " ", 0)
            case None => url == ""
            case Some(p) =>
              verb == line[..p] &&
              match Find(line, " ", p + 1)
              case None => version == ""
              case Some(q) => url == line[p + 1..q] && version == line[q + 1..]
  {
    var stream, more := InStream(line, 0, true), true;
    stream, verb, more := GetLine(stream, "", ' ');
    stream, url, more := GetLine(stream, "", ' ');
    FindChar(line, LF, stream.pos);
    stream, version, more := GetLine(stream, "", LF);
  }

  class HttpRequest {
    var verb: string
    var url: string
    var host: string
    var httpVersion: string
    var headers: Headers
    var body: string
    var clientErrorCode: int

    /** No field is set yet; the error code, which the code leaves uninitialised, starts at 0. */
    predicate IsNew()
      reads this
    {
      verb == url == host == httpVersion == body == "" && headers == map[] && clientErrorCode == 0
    }

    ghost function Value(): Request
      reads this
    {
      Request(verb, url, host, headers, body)
    }

    constructor ()
      ensures IsNew()
    {
      verb, url, host, httpVersion, headers, body := "", "", "", "", map[], "";
      clientErrorCode := 0;
    }

    /** Request line: three components separated by single spaces. */
    method ParseRequestLine(ghost g: Grammar<Request>, line: string) returns (ok: bool)
      requires IsRequestGrammar(g, OneChar) && IsNew() && LF !in line
      modifies `verb, `url, `httpVersion
      ensures g.startLine(line) == if ok then Some(RequestLine(verb, url)) else None
      ensures ok ==> httpVersion == HTTP_1_1 && |line| > 1
    {
      assert g.startLine(line) == ReadRequestLine(line);
      verb, url, httpVersion := SplitRequestLine(line);
      if verb == "" || url == "" || httpVersion == "" {
        return false;
      }
      if httpVersion[|httpVersion| - 1] != CR {
        return false;
      }
      httpVersion := httpVersion[..|httpVersion| - 1];
      if verb !in METHODS {
        return false;
      }
      if httpVersion != HTTP_1_1 {
        return false;
      }
      return true;
    }

    /** Request line and header section of a buffer that starts at the method word. */
    method ParseHead(ghost g: Grammar<Request>, t: string) returns (section: Option<Section>, charsRead: int)
      requires IsRequestGrammar(g, OneChar) && IsNew() && |t| < TWO_31
      modifies `verb, `url, `httpVersion
      ensures match ReadHead(g, t)
              case Ok(head, n) =>
                httpVersion == HTTP_1_1 && charsRead == n && section == Some(head.fields) && HOST in head.fields.headers
                && head.start == RequestLine(verb, url)
              case _ => section.None? || HOST !in section.value.headers
    {
      var headersEnd := FindFrom(t, CRLFCRLF, 0);
      var stream, line;
      stream, line, charsRead := FirstLine(t, headersEnd);
      if headersEnd.Some? {
        ReadHeadIs(g, t, headersEnd.value, |line|);
      }
      var ok := ParseRequestLine(g, line);
      if !ok {
        return None, charsRead;
      }
      section, charsRead := ReadSection(g.rules, true, stream, line, charsRead, headersEnd);
    }

    /** A buffer that starts at the method word: verdict and number of bytes read. */
    method ParseMessage(ghost g: Grammar<Request>, t: string, ghost fuel: nat) returns (status: Status, charsRead: int)
      requires IsRequestGrammar(g, OneChar) && IsNew() && |t| < TWO_31 && MessageInWords(g, t, fuel).Some?
      modifies this
      ensures match MessageInWords(g, t, fuel).value
              case More => status == Incomplete
              case Bad => status == Finished && clientErrorCode == 400
              case Raise => status == Threw
              case Ok(r, n) => status == Finished && clientErrorCode == 0 && Value() == r && charsRead == n
      ensures status == Finished && clientErrorCode == 0 ==> httpVersion == HTTP_1_1
    {
      var section;
      section, charsRead := ParseHead(g, t);
      if section.None? {
        clientErrorCode := 400;
        return Finished, charsRead;
      }
      headers := section.value.headers;
      if HOST in headers {
        host := headers[HOST];
      } else {
        clientErrorCode := 400;
        return Finished, charsRead;
      }
      var content := DecodeBody(g.rules, true, t, charsRead, section.value, OneChar, fuel);
      match content
      case More =>
        return Incomplete, charsRead;
      case Bad =>
        clientErrorCode := 400;
        return Finished, charsRead;
      case Raise =>
        return Threw, charsRead;
      case Ok(c, next) =>
        headers, body := c.headers, c.body;
        return Finished, next;
    }

    /** `parse_request`: false, true or an exception, and `rest`, what it leaves of the buffer. The parser only
        ever runs on new objects. It is called where it returns, which `ReturnsExactly` decides. */
    method ParseRequest(requestStr: string) returns (status: Status, rest: string)
      requires IsNew() && |requestStr| < TWO_31 && Returns(RequestGrammar(OneChar), METHODS, requestStr)
      modifies this
      ensures match CodeVerdict(RequestGrammar(OneChar), METHODS, requestStr).value
              case More => status == Incomplete && rest == FromWord(METHODS, requestStr)
              case Bad => status == Finished && clientErrorCode == 400
              case Raise => status == Threw && rest == FromWord(METHODS, requestStr)
              case Ok(r, n) =>
                status == Finished && clientErrorCode == 0 && Value() == r && rest == requestStr[n..]
    {
      ghost var g := RequestGrammar(OneChar);
      VerdictEarly(g, METHODS, requestStr);
      RequestGrammarIs(OneChar);
      rest := requestStr;
      var headersEnd := FindFrom(rest, CRLFCRLF, 0);
      if headersEnd.None? {
        return Incomplete, rest;
      }
      var methodStart := FindMethod(rest);
      if methodStart.None? {
        clientErrorCode := 400;
        return Finished, rest;
      }
      ghost var fuel := FuelBehind(g, METHODS, requestStr, methodStart.value);
      VerdictBehind(g, METHODS, requestStr, methodStart.value, fuel,
                    MessageInWords(g, requestStr[methodStart.value..], fuel).value);
      rest := rest[methodStart.value..];
      var charsRead;
      status, charsRead := ParseMessage(g, rest, fuel);
      if status == Finished && clientErrorCode == 0 {
        rest := rest[charsRead..];
      }
    }

    /** `serialize`: the header map is visited in an order the library chooses. */
    method SerializeText() returns (text: string)
      requires httpVersion == HTTP_1_1
      ensures exists order :: OrderOf(order, headers) && text == Serialize(Value(), order)
    {
      text := verb + " " + url + " " + httpVersion + CRLF;
      ghost var order := [];
      var unvisited := headers.Keys;
      while unvisited != {}
        invariant unvisited <= headers.Keys
        invariant forall k :: k in order <==> k in headers && k !in unvisited
        invariant forall i, j :: 0 <= i < j < |order| ==> order[i] != order[j]
        invariant text == StartText(Value()) + FieldLines(headers, order)
        decreases unvisited
      {
        var k :| k in unvisited;
        FieldLinesAppend(headers, order, k);
        assert text + FieldLine(k, headers[k])
            == StartText(Value()) + (FieldLines(headers, order) + FieldLine(k, headers[k]));
        text := text + (k + ": " + headers[k] + CRLF);
        order := order + [k];
        unvisited := unvisited - {k};
      }
      text := text + CRLF + body;
      assert OrderOf(order, headers) && text == Serialize(Value(), order);
    }

    /** `add_header` replaces the value of a field, or adds the field. */
    method AddHeader(key: string, value: string)
      modifies `headers
      ensures headers == old(headers)[key := value]
    {
      headers := headers[key := value];
    }
  }
}
