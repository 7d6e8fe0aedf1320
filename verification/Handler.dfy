/** `RequestHandler::handle_request` as atomic steps over the shared cache, and every interleaving of them.

    The origin is a function of the request; the clock and the expiry given to a stored response are inputs of
    each step. */
module Handler {
  import opened Strings
  import opened Fields
  import opened Requests
  import opened Responses
  import opened Cache

  const IF_MODIFIED_SINCE := "If-Modified-Since"
  const IF_NONE_MATCH := "If-None-Match"

  type Origin = Request -> Response

  predicate Conditional(r: Request) {
    IF_MODIFIED_SINCE in r.headers || IF_NONE_MATCH in r.headers
  }

  /** The validators of the cached response replace those of the client. */
  function Revalidating(r: Request, cached: Response): Request {
    var h := r.headers[IF_MODIFIED_SINCE := Header(cached, "Last-Modified")];
    r.(headers := h[IF_NONE_MATCH := Header(cached, "ETag")])
  }

  /** Where a handler is between two steps. `request` is the request as it would be forwarded now. */
  datatype Point =
    | Start
    | Known                      // is_in_cache has said yes
    | Hit(cached: Response)      // get_cached_response has returned a response
    | Fetch                      // the origin is to be asked
    | Keep(reply: Response)      // the reply is sent and still to be stored
    | Done(reply: Response)      // the reply is sent
    | Tunnelled                  // a CONNECT

  datatype Handling = Handling(original: Request, request: Request, point: Point)

  function Begin(r: Request): Handling {
    Handling(r, r, Start)
  }

  /** One atomic step of one handler. */
  ghost function Advance(origin: Origin, capacity: nat, s: State, h: Handling, now: int,
                         expiry: int): (State, Handling) {
    var r := h.request;
    match h.point
    case Start =>
      if r.verb == GET && r.url in s.index then (s, h.(point := Known))
      else if r.verb == CONNECT then (s, h.(point := Tunnelled))
      else (s, h.(point := Fetch))
    case Known =>
      var (s', found) := Get(s, r.url, now);
      (match found
       case Some(cached) => (s', h.(point := Hit(cached)))
       case None => (s', h.(point := Fetch)))
    case Hit(cached) =>
      if !Conditional(r) then (s, h.(point := Done(cached)))
      else
        var r' := Revalidating(r, cached);
        if NotModified(origin(r')) then (s, Handling(h.original, r', Done(cached)))
        else (s, Handling(h.original, r', Fetch))
    case Fetch =>
      var reply := origin(r);
      if r.verb == GET && Cacheable(reply) then (s, h.(point := Keep(reply)))
      else (s, h.(point := Done(reply)))
    case Keep(reply) =>
      (Store(s, capacity, CacheKey(r.url, reply), Entry(reply, expiry)), h.(point := Done(reply)))
    case Done(_) => (s, h)
    case Tunnelled => (s, h)
  }

  /** A handler that runs by itself for `n` steps, at one reading of the clock. */
  ghost function Alone(origin: Origin, capacity: nat, s: State, h: Handling, now: int, expiry: int,
                       n: nat): (State, Handling)
    decreases n
  {
    if n == 0 then (s, h)
    else
      var (s', h') := Advance(origin, capacity, s, h, now, expiry);
      Alone(origin, capacity, s', h', now, expiry, n - 1)
  }

  /** The origin is asked, the reply sent and, if it may be, stored. */
  ghost function Forward(origin: Origin, capacity: nat, s: State, original: Request, r: Request,
                         expiry: int): (State, Handling) {
    var reply := origin(r);
    var h := Handling(original, r, Done(reply));
    if r.verb == GET && Cacheable(reply) then (Store(s, capacity, CacheKey(r.url, reply), Entry(reply, expiry)), h)
    else (s, h)
  }

  /** `handle_request` as a whole, undisturbed by other handlers. */
  ghost function HandleAll(origin: Origin, capacity: nat, s: State, r: Request, now: int,
                           expiry: int): (State, Handling) {
    if r.verb == GET && r.url in s.index then
      var (s', found) := Get(s, r.url, now);
      match found
      case None => Forward(origin, capacity, s', r, r, expiry)
      case Some(cached) =>
        if !Conditional(r) then (s', Handling(r, r, Done(cached)))
        else
          var r' := Revalidating(r, cached);
          if NotModified(origin(r')) then (s', Handling(r, r', Done(cached)))
          else Forward(origin, capacity, s', r, r', expiry)
    else if r.verb == CONNECT then (s, Handling(r, r, Tunnelled))
    else Forward(origin, capacity, s, r, r, expiry)
  }

  /** That is what its atomic steps come to when nothing happens in between: at most five of them. */
  lemma StepsAreHandleAll(origin: Origin, capacity: nat, s: State, r: Request, now: int, expiry: int, n: nat)
    requires n >= 5
    ensures Alone(origin, capacity, s, Begin(r), now, expiry, n) == HandleAll(origin, capacity, s, r, now, expiry)
  {
    var (s1, h1) := Advance(origin, capacity, s, Begin(r), now, expiry);
    var (s2, h2) := Advance(origin, capacity, s1, h1, now, expiry);
    var (s3, h3) := Advance(origin, capacity, s2, h2, now, expiry);
    LastTwoSteps(origin, capacity, s3, h3, now, expiry, n - 3);
    assert Alone(origin, capacity, s2, h2, now, expiry, n - 2) == Alone(origin, capacity, s3, h3, now, expiry, n - 3);
    assert Alone(origin, capacity, s1, h1, now, expiry, n - 1) == Alone(origin, capacity, s2, h2, now, expiry, n - 2);
  }

  lemma LastTwoSteps(origin: Origin, capacity: nat, s: State, h: Handling, now: int, expiry: int, n: nat)
    requires n >= 2 && !h.point.Start? && !h.point.Known? && !h.point.Hit?
    ensures var (s1, h1) := Advance(origin, capacity, s, h, now, expiry);
            Alone(origin, capacity, s, h, now, expiry, n) == Advance(origin, capacity, s1, h1, now, expiry)
  {
    var (s1, h1) := Advance(origin, capacity, s, h, now, expiry);
    var (s2, h2) := Advance(origin, capacity, s1, h1, now, expiry);
    AloneRests(origin, capacity, s2, h2, now, expiry, n - 2);
    assert Alone(origin, capacity, s1, h1, now, expiry, n - 1) == (s2, h2);
  }

  lemma {:induction false} AloneRests(origin: Origin, capacity: nat, s: State, h: Handling, now: int,
                                      expiry: int, n: nat)
    requires h.point.Done? || h.point.Tunnelled?
    ensures Alone(origin, capacity, s, h, now, expiry, n) == (s, h)
    decreases n
  {
    if n > 0 {
      AloneRests(origin, capacity, s, h, now, expiry, n - 1);
    }
  }

  // ------------------------------------------------------------------ runs

  datatype System = System(cache: State, handlers: seq<Handling>)

  /** Which handler moves next, at what time, and the expiry a store would give. */
  datatype Turn = Turn(who: nat, now: int, expiry: int)

  ghost function Take(origin: Origin, capacity: nat, sys: System, turn: Turn): System {
    if turn.who >= |sys.handlers| then sys
    else
      var (s, h) := Advance(origin, capacity, sys.cache, sys.handlers[turn.who], turn.now, turn.expiry);
      System(s, sys.handlers[turn.who := h])
  }

  /** Any number of requests, each handled by its own thread, in any interleaving of their steps. */
  ghost function Run(origin: Origin, capacity: nat, requests: seq<Request>, turns: seq<Turn>): System
    decreases |turns|
  {
    if turns == [] then System(EMPTY, seq(|requests|, i requires 0 <= i < |requests| => Begin(requests[i])))
    else Take(origin, capacity, Run(origin, capacity, requests, turns[..|turns| - 1]), turns[|turns| - 1])
  }

  // ------------------------------------------------------------------ the hypotheses

  const BAR := '|'

  /** An absolute-form URL without a bar. */
  predicate PlainUrl(url: string) {
    |url| >= 7 && url[..7] == "http://" && BAR !in url
  }

  /** A GET for such a URL, asking for the whole resource. */
  predicate PlainGet(r: Request) {
    r.verb == GET && PlainUrl(r.url) && "Range" !in r.headers
  }

  ghost predicate Storable(r: Response) {
    Cacheable(r) && Header(r, "Vary") == ""
  }

  /** A storable reply to a plain GET depends on the URL alone and does not change: every other plain GET for that
      URL is given the same reply, or a 304 if it is conditional. */
  ghost predicate Steady(origin: Origin) {
    forall r, r' {:trigger origin(r), origin(r')} ::
      PlainGet(r) && PlainGet(r') && r.url == r'.url && Storable(origin(r)) ==>
        origin(r') == origin(r) || (Conditional(r') && NotModified(origin(r')))
  }

  /** The handler's reply is the one an uncached proxy would give, or, to a conditional request that would be told
      304, the storable reply that plain GETs for the URL are given. */
  ghost predicate Transparent(origin: Origin, r: Request, reply: Response) {
    || reply == origin(r)
    || (r.verb == GET && Conditional(r) && NotModified(origin(r)) && Page(origin, r.url, reply))
  }

  /** `p` is the storable reply to some plain GET for `url`. */
  ghost predicate Page(origin: Origin, url: string, p: Response) {
    Storable(p) && exists r :: PlainGet(r) && r.url == url && origin(r) == p
  }

  // ------------------------------------------------------------------ the invariant

  /** Under plain URLs the index only finds pages. */
  ghost predicate CachePure(origin: Origin, s: State) {
    forall k :: k in s.index && PlainUrl(k) ==> Lookup(s, k).Some? && Page(origin, k, Lookup(s, k).value.response)
  }

  /** The request a handler works on keeps its method and URL, and only a GET goes through the cache. */
  predicate Traced(h: Handling) {
    && h.request.verb == h.original.verb && h.request.url == h.original.url
    && (h.point.Known? || h.point.Hit? || h.point.Keep? ==> h.original.verb == GET)
    && (h.point.Start? || h.point.Known? || h.point.Hit? ==> h.request == h.original)
  }

  /** The reply a handler has sent is transparent, and so is what it still holds or is about to fetch. */
  ghost predicate HandlerPure(origin: Origin, h: Handling) {
    match h.point
    case Hit(cached) => Page(origin, h.original.url, cached)
    case Fetch => Transparent(origin, h.original, origin(h.request))
    case Keep(reply) => reply == origin(h.request) && Transparent(origin, h.original, reply) && Cacheable(reply)
    case Done(reply) => Transparent(origin, h.original, reply)
    case _ => true
  }

  /** What a run may hold: everything but GETs for parts of plain URLs. */
  predicate Admissible(r: Request) {
    r.verb == GET && PlainUrl(r.url) ==> "Range" !in r.headers
  }

  /** What the theorem speaks of: plain GETs, and all other methods. */
  predicate Covered(r: Request) {
    r.verb == GET ==> PlainGet(r)
  }

  ghost predicate HandlerSound(origin: Origin, h: Handling) {
    && Admissible(h.original) && Admissible(h.request) && Traced(h)
    && (Covered(h.original) ==> HandlerPure(origin, h))
  }

  ghost predicate SystemSound(origin: Origin, capacity: nat, sys: System) {
    && Valid(sys.cache, capacity) && CachePure(origin, sys.cache)
    && forall i :: 0 <= i < |sys.handlers| ==> HandlerSound(origin, sys.handlers[i])
  }

  // ------------------------------------------------------------------ preservation

  /** A page given in answer to a GET, as seen by any other plain GET for the URL. */
  lemma PageForAll(origin: Origin, r: Request, p: Response)
    requires Steady(origin) && PlainGet(r) && Page(origin, r.url, p)
    ensures origin(r) == p || (Conditional(r) && NotModified(origin(r)))
    ensures Transparent(origin, r, p)
  {
    var r0 :| PlainGet(r0) && r0.url == r.url && origin(r0) == p;
    assert origin(r) == origin(r0) || (Conditional(r) && NotModified(origin(r)));
  }

  lemma HitIsPage(origin: Origin, capacity: nat, s: State, url: string, now: int)
    requires Valid(s, capacity) && CachePure(origin, s)
    ensures CachePure(origin, Get(s, url, now).0)
    ensures Get(s, url, now).1.Some? && PlainUrl(url) ==> Page(origin, url, Get(s, url, now).1.value)
  {
    GetKeeps(s, capacity, url, now);
  }

  lemma VaryHasBar(url: string, reply: Response, key: string)
    requires key == CacheKey(url, reply) && Header(reply, "Vary") != ""
    ensures BAR in key
  {
    assert key[|url|] == BAR;
  }

  lemma StoreIsPure(origin: Origin, capacity: nat, s: State, r: Request, reply: Response, expiry: int)
    requires Valid(s, capacity) && CachePure(origin, s)
    requires PlainUrl(r.url) ==> PlainGet(r) && reply == origin(r) && Cacheable(reply)
    ensures CachePure(origin, Store(s, capacity, CacheKey(r.url, reply), Entry(reply, expiry)))
  {
    var key := CacheKey(r.url, reply);
    StoreKeeps(s, capacity, key, Entry(reply, expiry));
    if Header(reply, "Vary") != "" {
      VaryHasBar(r.url, reply, key);
    } else if PlainUrl(key) {
      assert Page(origin, r.url, reply);
    }
  }

  /** One step keeps cache and handler sound. */
  lemma AdvanceSound(origin: Origin, capacity: nat, s: State, h: Handling, now: int, expiry: int)
    requires Steady(origin) && Valid(s, capacity) && CachePure(origin, s) && HandlerSound(origin, h)
    ensures var (s', h') := Advance(origin, capacity, s, h, now, expiry);
            && Valid(s', capacity) && CachePure(origin, s')
            && h'.original == h.original && HandlerSound(origin, h')
  {
    var r := h.request;
    match h.point
    case Start =>
    case Known =>
      GetKeeps(s, capacity, r.url, now);
      HitIsPage(origin, capacity, s, r.url, now);
    case Hit(cached) =>
      if Covered(h.original) {
        HitPure(origin, h, cached);
      }
    case Fetch =>
    case Keep(reply) =>
      StoreKeeps(s, capacity, CacheKey(r.url, reply), Entry(reply, expiry));
      StoreIsPure(origin, capacity, s, r, reply, expiry);
    case Done(_) =>
    case Tunnelled =>
  }

  lemma HitPure(origin: Origin, h: Handling, cached: Response)
    requires Steady(origin) && PlainGet(h.original) && h.request == h.original && Page(origin, h.original.url, cached)
    ensures Transparent(origin, h.original, cached)
    ensures var r' := Revalidating(h.request, cached);
            && PlainGet(r') && r'.url == h.original.url
            && (NotModified(origin(r')) || Transparent(origin, h.original, origin(r')))
  {
    PageForAll(origin, h.original, cached);
    PageForAll(origin, Revalidating(h.request, cached), cached);
  }

  // ------------------------------------------------------------------ the theorem

  lemma {:induction false} RunSound(origin: Origin, capacity: nat, requests: seq<Request>, turns: seq<Turn>)
    requires Steady(origin) && forall i :: 0 <= i < |requests| ==> Admissible(requests[i])
    ensures var sys := Run(origin, capacity, requests, turns);
            && SystemSound(origin, capacity, sys)
            && |sys.handlers| == |requests|
            && forall i :: 0 <= i < |requests| ==> sys.handlers[i].original == requests[i]
    decreases |turns|
  {
    if turns == [] { return; }
    var turn := turns[|turns| - 1];
    RunSound(origin, capacity, requests, turns[..|turns| - 1]);
    var sys := Run(origin, capacity, requests, turns[..|turns| - 1]);
    if turn.who < |sys.handlers| {
      AdvanceSound(origin, capacity, sys.cache, sys.handlers[turn.who], turn.now, turn.expiry);
    }
  }

  /** In every interleaving of handlers, evictions and expiries, a reply sent is the one an uncached proxy would give;
      only a conditional GET that would be told 304 may get the page itself. */
  lemma TransparentCaching(origin: Origin, capacity: nat, requests: seq<Request>, turns: seq<Turn>, i: nat)
    requires Steady(origin) && forall j :: 0 <= j < |requests| ==> Admissible(requests[j])
    requires i < |requests| && Covered(requests[i])
    ensures var h := Run(origin, capacity, requests, turns).handlers;
            && |h| == |requests|
            && (h[i].point.Done? || h[i].point.Keep? ==> Transparent(origin, requests[i], h[i].point.reply))
            && ((h[i].point.Done? || h[i].point.Keep?) && !Conditional(requests[i]) ==>
                  h[i].point.reply == origin(requests[i]))
  {
    RunSound(origin, capacity, requests, turns);
    var h := Run(origin, capacity, requests, turns).handlers;
    assert HandlerSound(origin, h[i]);
  }
}
