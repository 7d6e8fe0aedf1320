/** The grammar of `HttpResponse::parse_response`, and which responses may be cached. */
module Responses {
  import opened Strings
  import opened Numbers
  import opened Fields
  import opened Framing
  import opened Messages
  import opened Scanning

  const HTTP: string := "HTTP"
  const RESPONSE_WORDS: set<string> := {HTTP}

  datatype Response = Response(statusLine: string, headers: Headers, body: string)

  function Header(r: Response, name: string): string {
    if name in r.headers then r.headers[name] else ""
  }

  /** The reply when the origin cannot be reached or does not answer in HTTP. */
  const BAD_GATEWAY := Response(
    "HTTP/1.1 502 Bad Gateway",
    map["Content-Type" := "text/html"],
    "<html><body><h1>502 Bad Gateway</h1></body></html>")

  // ------------------------------------------------------------------ the status line

  /** The length of the first run of characters that are not white space. */
  function WordLength(s: string): (n: nat)
    ensures n <= |s| && (forall i :: 0 <= i < n ==> !IsSpace(s[i])) && (n < |s| ==> IsSpace(s[n]))
  {
    if s == "" || IsSpace(s[0]) then 0 else 1 + WordLength(s[1..])
  }

  function SkipSpaces(s: string): string {
    if s != "" && s[0] == ' ' then SkipSpaces(s[1..]) else s
  }

  function DropCr(s: string): string {
    if s != "" && s[|s| - 1] == CR then s[..|s| - 1] else s
  }

  /** Version, code and message, joined again by single spaces. */
  function StatusOf(line: string): string {
    var a := SkipSpace(line);
    var b := SkipSpace(a[WordLength(a)..]);
    var message := SkipSpaces(b[WordLength(b)..]);
    DropCr(a[..WordLength(a)] + " " + b[..WordLength(b)] + " " + message)
  }

  // ------------------------------------------------------------------ the grammar

  const CACHE_CONTROL := "Cache-Control"

  /** A max-age without a number that fits an `int` makes the parser throw. */
  ghost predicate MaxAgeRaises(h: Headers) {
    CACHE_CONTROL in h &&
    var control := h[CACHE_CONTROL];
    !Contains(control, "no-store") &&
    match Find(control, "max-age=", 0)
    case None => false
    case Some(p) => !StoiReturns(control[p + 8..])
  }

  ghost function FinishResponse(start: StartLine, content: Content): Option<Response> {
    if start.StatusLine? && !MaxAgeRaises(content.headers) then
      Some(Response(start.text, content.headers, content.body))
    else
      None
  }

  ghost function ResponseGrammar(style: LengthStyle): Grammar<Response> {
    Grammar(
      RulesOf(false, style),
      line => Some(StatusLine(StatusOf(line))),
      _ => true,
      (start, _, content) => FinishResponse(start, content))
  }

  /** `g` is a grammar of responses. */
  ghost predicate IsResponseGrammar(g: Grammar<Response>, style: LengthStyle) {
    && ReadAs(g.rules, false)
    && (forall n: nat {:trigger g.rules.lengthText(n)} :: g.rules.lengthText(n) == LengthText(style, n))
    && (forall line {:trigger StatusOf(line)} :: g.startLine(line) == Some(StatusLine(StatusOf(line))))
    && (forall h {:trigger g.accept(h)} :: g.accept(h))
    && (forall start, h, c {:trigger g.finish(start, h, c)} :: g.finish(start, h, c) == FinishResponse(start, c))
  }

  lemma ResponseGrammarIs(style: LengthStyle)
    ensures IsResponseGrammar(ResponseGrammar(style), style)
  {
    RulesReadAs(false, style);
  }

  ghost function ResponseScanner(style: LengthStyle): Scanner<Response> {
    Scanner(RESPONSE_WORDS, t => ReadMessage(ResponseGrammar(style), t))
  }

  lemma ResponseWords()
    ensures forall w :: w in RESPONSE_WORDS ==> w != "" && CR !in w
  {
  }

  lemma ResponseScannerLawful(style: LengthStyle)
    ensures Lawful(ResponseScanner(style))
  {
    ResponseWords();
    assert ScansBy(ResponseScanner(style), ResponseGrammar(style));
    GrammarLawful(ResponseScanner(style), ResponseGrammar(style));
  }

  // ------------------------------------------------------------------ cacheability

  /** `is_cacheable`: a 200 that neither forbids storing nor is for one user only. */
  ghost predicate Cacheable(r: Response) {
    && Contains(r.statusLine, "200 OK")
    && (CACHE_CONTROL in r.headers ==>
          !Contains(r.headers[CACHE_CONTROL], "no-store") && !Contains(r.headers[CACHE_CONTROL], "private"))
    && !Contains(r.statusLine, "206 Partial Content")
  }

  /** A reply for whoever asks: a complete 200 that its origin lets be stored and shared. */
  ghost predicate ForEveryone(r: Response) {
    && Holds(r.statusLine, "200 OK")
    && !Holds(r.statusLine, "206 Partial Content")
    && ("Cache-Control" in r.headers ==>
          !Holds(r.headers["Cache-Control"], "private") && !Holds(r.headers["Cache-Control"], "no-store"))
  }

  /** `is_cacheable` holds of exactly those. */
  lemma CacheableExactly(r: Response)
    ensures Cacheable(r) <==> ForEveryone(r)
  {
    ContainsExactly(r.statusLine, "200 OK");
    ContainsExactly(r.statusLine, "206 Partial Content");
    if "Cache-Control" in r.headers {
      ContainsExactly(r.headers["Cache-Control"], "no-store");
      ContainsExactly(r.headers["Cache-Control"], "private");
    }
  }

  method CheckCacheable(r: Response) returns (yes: bool)
    ensures yes == Cacheable(r) == ForEveryone(r)
  {
    CacheableExactly(r);
    var ok := FindFrom(r.statusLine, "200 OK", 0);
    if ok.None? {
      return false;
    }
    if CACHE_CONTROL in r.headers {
      var noStore := FindFrom(r.headers[CACHE_CONTROL], "no-store", 0);
      var onlyOne := FindFrom(r.headers[CACHE_CONTROL], "private", 0);
      if noStore.Some? || onlyOne.Some? {
        return false;
      }
    }
    var partial := FindFrom(r.statusLine, "206 Partial Content", 0);
    return partial.None?;
  }

  ghost predicate NotModified(r: Response) {
    Contains(r.statusLine, "304 Not Modified")
  }

  method CheckNotModified(r: Response) returns (yes: bool)
    ensures yes == NotModified(r) == Holds(r.statusLine, "304 Not Modified")
  {
    ContainsExactly(r.statusLine, "304 Not Modified");
    var found := FindFrom(r.statusLine, "304 Not Modified", 0);
    return found.Some?;
  }
}
