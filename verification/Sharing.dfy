/** What the shared cache holds, and whom a reply reaches, in every interleaving of handlers. */
module Sharing {
  import opened Strings
  import opened Requests
  import opened Responses
  import opened Cache
  import opened Handler

  // ------------------------------------------------------------------ cacheability in texts

  lemma HeldIn(s: string, p: string, w: string, q: string)
    requires s == p + w + q
    ensures Holds(s, w)
  {
  }

  /** A Cache-Control with either word in it, or a partial reply, is refused whatever else it says. */
  lemma NotShared(r: Response, p: string, q: string)
    ensures r.statusLine == p + "206 Partial Content" + q ==> !Cacheable(r)
    ensures "Cache-Control" in r.headers && r.headers["Cache-Control"] == p + "private" + q ==> !Cacheable(r)
    ensures "Cache-Control" in r.headers && r.headers["Cache-Control"] == p + "no-store" + q ==> !Cacheable(r)
  {
    CacheableExactly(r);
    if r.statusLine == p + "206 Partial Content" + q {
      HeldIn(r.statusLine, p, "206 Partial Content", q);
    }
    if "Cache-Control" in r.headers && r.headers["Cache-Control"] == p + "private" + q {
      HeldIn(r.headers["Cache-Control"], p, "private", q);
    }
    if "Cache-Control" in r.headers && r.headers["Cache-Control"] == p + "no-store" + q {
      HeldIn(r.headers["Cache-Control"], p, "no-store", q);
    }
  }

  /** A complete 200 is accepted if Cache-Control is absent or has neither word at any index. */
  lemma Shared(r: Response, p: string, q: string)
    requires r.statusLine == p + "200 OK" + q
    requires forall i :: !OccursAt(r.statusLine, "206 Partial Content", i)
    requires "Cache-Control" in r.headers ==>
               forall i :: && !OccursAt(r.headers["Cache-Control"], "private", i)
                           && !OccursAt(r.headers["Cache-Control"], "no-store", i)
    ensures Cacheable(r)
  {
    HeldIn(r.statusLine, p, "200 OK", q);
    ContainsExactly(r.statusLine, "200 OK");
  }

  // ------------------------------------------------------------------ runs

  /** `q` is `r` but for the two validators. */
  ghost predicate SameRequest(r: Request, q: Request) {
    && q.verb == r.verb && q.url == r.url && q.host == r.host && q.body == r.body
    && forall k :: k != "If-None-Match" && k != "If-Modified-Since" ==>
         (k in q.headers <==> k in r.headers) && (k in r.headers ==> q.headers[k] == r.headers[k])
  }

  /** Everything in the list is for everyone. */
  ghost predicate ListShared(s: State) {
    forall i :: 0 <= i < |s.list| ==> ForEveryone(s.list[i].entry.response)
  }

  /** What a handler sends is for everyone, or its own origin's answer to its own request. */
  ghost predicate OwnOrShared(origin: Origin, h: Handling) {
    && SameRequest(h.original, h.request)
    && match h.point
       case Hit(cached) => ForEveryone(cached)
       case Keep(reply) => ForEveryone(reply) && reply == origin(h.request)
       case Done(reply) => ForEveryone(reply) || reply == origin(h.request)
       case _ => true
  }

  lemma GetShared(s: State, url: string, now: int)
    requires ListShared(s)
    ensures ListShared(Get(s, url, now).0)
    ensures Get(s, url, now).1.Some? ==> ForEveryone(Get(s, url, now).1.value)
  {
    if Get(s, url, now).1.Some? {
      ToFrontSame(s.list, PosOf(s.list, s.index[url]));
    }
  }

  lemma StoreShared(s: State, capacity: nat, key: string, entry: Entry)
    requires ListShared(s) && ForEveryone(entry.response)
    ensures ListShared(Store(s, capacity, key, entry))
  {
  }

  lemma AdvanceShared(origin: Origin, capacity: nat, s: State, h: Handling, now: int, expiry: int)
    requires ListShared(s) && OwnOrShared(origin, h)
    ensures var (s', h') := Advance(origin, capacity, s, h, now, expiry);
            ListShared(s') && OwnOrShared(origin, h') && h'.original == h.original
  {
    match h.point
    case Start =>
    case Known => GetShared(s, h.request.url, now);
    case Hit(cached) =>
    case Fetch => CacheableExactly(origin(h.request));
    case Keep(reply) => StoreShared(s, capacity, CacheKey(h.request.url, reply), Entry(reply, expiry));
    case Done(_) =>
    case Tunnelled =>
  }

  lemma {:induction false} RunShared(origin: Origin, capacity: nat, requests: seq<Request>, turns: seq<Turn>)
    ensures var sys := Run(origin, capacity, requests, turns);
            && ListShared(sys.cache) && |sys.handlers| == |requests|
            && forall i :: 0 <= i < |requests| ==>
                 sys.handlers[i].original == requests[i] && OwnOrShared(origin, sys.handlers[i])
    decreases |turns|
  {
    if turns == [] { return; }
    var turn := turns[|turns| - 1];
    RunShared(origin, capacity, requests, turns[..|turns| - 1]);
    var sys := Run(origin, capacity, requests, turns[..|turns| - 1]);
    if turn.who < |sys.handlers| {
      AdvanceShared(origin, capacity, sys.cache, sys.handlers[turn.who], turn.now, turn.expiry);
    }
  }

  /** Whatever the origin does and however the handlers interleave, no listed node holds a response whose
      Cache-Control has "private" or "no-store" in it, or whose status line is not that of a complete 200. */
  lemma OnlySharedIsListed(origin: Origin, capacity: nat, requests: seq<Request>, turns: seq<Turn>, i: nat)
    requires i < |Run(origin, capacity, requests, turns).cache.list|
    ensures var r := Run(origin, capacity, requests, turns).cache.list[i].entry.response;
            && (exists p, q :: r.statusLine == p + "200 OK" + q)
            && (forall p, q :: r.statusLine != p + "206 Partial Content" + q)
            && ("Cache-Control" in r.headers ==>
                  && (forall p, q :: r.headers["Cache-Control"] != p + "private" + q)
                  && (forall p, q :: r.headers["Cache-Control"] != p + "no-store" + q))
  {
    RunShared(origin, capacity, requests, turns);
    assert ForEveryone(Run(origin, capacity, requests, turns).cache.list[i].entry.response);
  }

  /** A private reply reaches only the client whose own request, up to the validators, its origin gave it to. */
  lemma PrivateStaysPrivate(origin: Origin, capacity: nat, requests: seq<Request>, turns: seq<Turn>, i: nat)
    requires i < |requests|
    ensures var handlers := Run(origin, capacity, requests, turns).handlers;
            && |handlers| == |requests|
            && (handlers[i].point.Done? && !ForEveryone(handlers[i].point.reply) ==>
                  exists q :: SameRequest(requests[i], q) && handlers[i].point.reply == origin(q))
  {
    RunShared(origin, capacity, requests, turns);
    var h := Run(origin, capacity, requests, turns).handlers[i];
    assert OwnOrShared(origin, h) && SameRequest(requests[i], h.request);
  }
}
