/** The grammar of `HttpRequest::parse_request`. */
module Requests {
  import opened Strings
  import opened Numbers
  import opened Fields
  import opened Framing
  import opened Messages
  import opened Scanning

  const GET: string := "GET"
  const POST: string := "POST"
  const CONNECT: string := "CONNECT"
  const METHODS: set<string> := {GET, POST, CONNECT}
  const HTTP_1_1: string := "HTTP/1.1"

  datatype Request = Request(verb: string, url: string, host: string, headers: Headers, body: string)

  /** Method, target and version separated by single spaces, the version ending in CR. */
  ghost function ReadRequestLine(line: string): Option<StartLine> {
    match Find(line, " ", 0)
    case None => None
    case Some(p) =>
      match Find(line, " ", p + 1)
      case None => None
      case Some(q) =>
        var verb, url, version := line[..p], line[p + 1..q], line[q + 1..];
        if url != "" && version == HTTP_1_1 + [CR] && verb in METHODS then Some(RequestLine(verb, url))
        else None
  }

  predicate HasHost(h: Headers) {
    HOST in h
  }

  function FinishRequest(start: StartLine, h: Headers, content: Content): Option<Request> {
    if start.RequestLine? && HOST in h then
      Some(Request(start.verb, start.url, h[HOST], content.headers, content.body))
    else
      None
  }

  ghost function RequestGrammar(style: LengthStyle): Grammar<Request> {
    Grammar(RulesOf(true, style), ReadRequestLine, HasHost, FinishRequest)
  }

  /** `g` is a grammar of requests: lines are read as above, and `style` is how the Content-Length of a decoded
      body is stored. */
  ghost predicate IsRequestGrammar(g: Grammar<Request>, style: LengthStyle) {
    && ReadAs(g.rules, true)
    && (forall n: nat {:trigger g.rules.lengthText(n)} :: g.rules.lengthText(n) == LengthText(style, n))
    && (forall line {:trigger ReadRequestLine(line)} :: g.startLine(line) == ReadRequestLine(line))
    && (forall h {:trigger g.accept(h)} :: g.accept(h) == (HOST in h))
    && (forall start, h, c {:trigger g.finish(start, h, c)} :: g.finish(start, h, c) == FinishRequest(start, h, c))
  }

  lemma RequestGrammarIs(style: LengthStyle)
    ensures IsRequestGrammar(RequestGrammar(style), style)
  {
    RulesReadAs(true, style);
  }

  /** The request parser as a scanner of growing buffers. */
  ghost function RequestScanner(style: LengthStyle): Scanner<Request> {
    Scanner(METHODS, t => ReadMessage(RequestGrammar(style), t))
  }

  lemma RequestWords()
    ensures forall w :: w in METHODS ==> w != "" && CR !in w
  {
  }

  lemma RequestScannerLawful(style: LengthStyle)
    ensures Lawful(RequestScanner(style))
  {
    RequestWords();
    assert ScansBy(RequestScanner(style), RequestGrammar(style));
    GrammarLawful(RequestScanner(style), RequestGrammar(style));
  }

  lemma RequestScannerLocal(style: LengthStyle)
    ensures Local(RequestScanner(style))
  {
    assert ScansBy(RequestScanner(style), RequestGrammar(style));
    GrammarLocal(RequestScanner(style), RequestGrammar(style));
  }

  /** `parse_request` on a buffer, and what it leaves there. */
  ghost function ParseRequest(style: LengthStyle, b: string): Scan<Request> {
    Verdict(RequestScanner(style), b)
  }

  /** The verdict on a buffer whose first method word stands at `m`. */
  lemma ParsedMessage(style: LengthStyle, b: string, m: nat, t: string, r: Request, n: nat)
    requires WordStart(METHODS, b) == Some(m) && Find(b, CRLFCRLF, 0).Some? && b[m..] == t
    requires ReadMessage(RequestGrammar(style), t) == Ok(r, n)
    ensures ParseRequest(style, b) == Ok(r, m + n)
  {
    assert RequestScanner(style).message(t) == ReadMessage(RequestGrammar(style), t);
  }
}
