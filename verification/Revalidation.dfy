/** Conditional requests for cached pages: what the origin is asked, and what comes of its answer. */
module Revalidation {
  import opened Strings
  import opened Requests
  import opened Responses
  import opened Cache
  import opened Handler
  import opened Sharing

  /** `q` asks whether `cached` still holds: its ETag and Last-Modified are the validators, and all else stays as the
      client sent it. */
  ghost predicate AsksFor(r: Request, cached: Response, q: Request) {
    && SameRequest(r, q)
    && "If-None-Match" in q.headers && q.headers["If-None-Match"] == Header(cached, "ETag")
    && "If-Modified-Since" in q.headers && q.headers["If-Modified-Since"] == Header(cached, "Last-Modified")
  }

  /** There is only one such request. */
  lemma AsksOne(r: Request, cached: Response, q: Request, q': Request)
    requires AsksFor(r, cached, q) && AsksFor(r, cached, q')
    ensures q == q'
  {
    assert q.headers == q'.headers by {
      forall k
        ensures k in q.headers <==> k in q'.headers
        ensures k in q.headers ==> q.headers[k] == q'.headers[k]
      {
      }
    }
  }

  lemma RevalidatingAsks(r: Request, cached: Response)
    ensures AsksFor(r, cached, Revalidating(r, cached))
  {
  }

  /** The node at `p` is indexed under `url` and not expired. */
  ghost predicate Live(s: State, url: string, p: nat, now: int) {
    url in s.index && p < |s.list| && s.list[p].id == s.index[url] && now < s.list[p].entry.expiry
  }

  /** A conditional GET for a page that is indexed under its URL, at node `p`, and not expired. */
  ghost predicate Revalidates(s: State, r: Request, p: nat, now: int) {
    && r.verb == GET && ("If-Modified-Since" in r.headers || "If-None-Match" in r.headers)
    && Live(s, r.url, p, now)
  }

  /** The node at `p` has come to the front; nothing else has changed. */
  ghost predicate OnlyMoved(s: State, s': State, p: nat)
    requires p < |s.list|
  {
    s'.list == [s.list[p]] + s.list[..p] + s.list[p + 1..] && s'.index == s.index && s'.nextId == s.nextId
  }

  lemma HitMoves(s: State, capacity: nat, url: string, p: nat, now: int)
    requires Valid(s, capacity) && Live(s, url, p, now)
    ensures Get(s, url, now).1 == Some(s.list[p].entry.response) && OnlyMoved(s, Get(s, url, now).0, p)
  {
    PosIs(s.list, s.index[url], p);
  }

  /** The origin has answered `reply` to a GET: it is sent to the client, and stored if it is for everyone. */
  ghost predicate SentAndStored(s: State, capacity: nat, url: string, reply: Response, expiry: int, s': State,
                                point: Point) {
    && point == Done(reply)
    && s' == if ForEveryone(reply) then Store(s, capacity, CacheKey(url, reply), Entry(reply, expiry)) else s
  }

  /** The origin is asked about the cached page, by the one request `q`; a 304 gives the client that page, and to any
      other answer the same request is put again. */
  lemma RevalidatedAll(origin: Origin, capacity: nat, s: State, r: Request, p: nat, now: int, expiry: int, q: Request)
    requires Valid(s, capacity) && Revalidates(s, r, p, now) && AsksFor(r, s.list[p].entry.response, q)
    ensures var (s', h) := HandleAll(origin, capacity, s, r, now, expiry);
            && h.request == q
            && if Holds(origin(q).statusLine, "304 Not Modified")
               then h.point == Done(s.list[p].entry.response) && OnlyMoved(s, s', p)
               else exists moved :: && OnlyMoved(s, moved, p) && Valid(moved, capacity)
                                    && SentAndStored(moved, capacity, r.url, origin(q), expiry, s', h.point)
  {
    var cached := s.list[p].entry.response;
    HitMoves(s, capacity, r.url, p, now);
    GetKeeps(s, capacity, r.url, now);
    RevalidatingAsks(r, cached);
    AsksOne(r, cached, q, Revalidating(r, cached));
    ContainsExactly(origin(q).statusLine, "304 Not Modified");
    CacheableExactly(origin(q));
    var moved := Get(s, r.url, now).0;
    assert OnlyMoved(s, moved, p);
  }

  /** The same of the steps of a handler that nothing disturbs. */
  lemma Revalidated(origin: Origin, capacity: nat, s: State, r: Request, p: nat, now: int, expiry: int, n: nat,
                    q: Request)
    requires Valid(s, capacity) && Revalidates(s, r, p, now) && AsksFor(r, s.list[p].entry.response, q) && n >= 5
    ensures var (s', h) := Alone(origin, capacity, s, Begin(r), now, expiry, n);
            && h.request == q
            && if Holds(origin(q).statusLine, "304 Not Modified")
               then h.point == Done(s.list[p].entry.response) && OnlyMoved(s, s', p)
               else exists moved :: && OnlyMoved(s, moved, p) && Valid(moved, capacity)
                                    && SentAndStored(moved, capacity, r.url, origin(q), expiry, s', h.point)
  {
    StepsAreHandleAll(origin, capacity, s, r, now, expiry, n);
    RevalidatedAll(origin, capacity, s, r, p, now, expiry, q);
  }

  // ------------------------------------------------------------------ all other requests

  /** An unconditional GET for a live page is answered by it whatever the origin would say; every other request that is
      not a CONNECT goes to the origin as the client sent it, and only answers to GETs are stored. */
  lemma Otherwise(origin: Origin, capacity: nat, s: State, r: Request, p: nat, now: int, expiry: int, n: nat)
    requires Valid(s, capacity) && n >= 5
    ensures var (s', h) := Alone(origin, capacity, s, Begin(r), now, expiry, n);
            && (r.verb == GET && Live(s, r.url, p, now) && !Revalidates(s, r, p, now) ==>
                  h.point == Done(s.list[p].entry.response) && OnlyMoved(s, s', p))
            && (r.verb == GET && (forall i: nat :: !Live(s, r.url, i, now)) ==>
                  h.request == r && SentAndStored(s, capacity, r.url, origin(r), expiry, s', h.point))
            && (r.verb != GET && r.verb != CONNECT ==> h.request == r && h.point == Done(origin(r)) && s' == s)
            && (r.verb == CONNECT ==> h.point == Tunnelled && s' == s)
  {
    StepsAreHandleAll(origin, capacity, s, r, now, expiry, n);
    CacheableExactly(origin(r));
    if r.verb == GET && Live(s, r.url, p, now) {
      HitMoves(s, capacity, r.url, p, now);
    } else if r.verb == GET && r.url in s.index {
      assert Points(s, r.url);
      assert Live(s, r.url, PosOf(s.list, s.index[r.url]), now) || Get(s, r.url, now) == (s, None);
    }
  }

  // ------------------------------------------------------------------ what the method promises

  /** If `r` is a conditional GET for a cached page, the origin has been asked `q` about it, and `reply` is that page if
      the answer is a 304, or the answer. */
  ghost predicate AsRevalidated(origin: Origin, s: State, r: Request, now: int, q: Request, reply: Response) {
    forall p: nat {:trigger s.list[p]} :: Revalidates(s, r, p, now) ==>
      var cached := s.list[p].entry.response;
      && AsksFor(r, cached, q)
      && reply == if Holds(origin(q).statusLine, "304 Not Modified") then cached else origin(q)
  }

  lemma HandledAsRevalidated(origin: Origin, capacity: nat, s: State, r: Request, now: int, expiry: int)
    requires Valid(s, capacity)
    ensures var h := HandleAll(origin, capacity, s, r, now, expiry).1;
            h.point.Done? ==> AsRevalidated(origin, s, r, now, h.request, h.point.reply)
  {
    forall p: nat | Revalidates(s, r, p, now)
      ensures var (cached, h) := (s.list[p].entry.response, HandleAll(origin, capacity, s, r, now, expiry).1);
              && AsksFor(r, cached, h.request) && h.point.Done?
              && h.point.reply == if Holds(origin(h.request).statusLine, "304 Not Modified") then cached
                                  else origin(h.request)
    {
      var cached := s.list[p].entry.response;
      RevalidatingAsks(r, cached);
      RevalidatedAll(origin, capacity, s, r, p, now, expiry, Revalidating(r, cached));
    }
  }

  // ------------------------------------------------------------------ origins that know their pages by ETag

  /** The current page for `url` is `page`: a GET for it is answered 304 exactly if its If-None-Match is the ETag of the
      page, and otherwise by the page. */
  ghost predicate HasPage(origin: Origin, url: string, page: Response) {
    && "ETag" in page.headers && !Holds(page.statusLine, "304 Not Modified")
    && forall q: Request {:trigger origin(q)} :: q.verb == GET && q.url == url ==>
         if "If-None-Match" in q.headers && q.headers["If-None-Match"] == page.headers["ETag"]
         then Holds(origin(q).statusLine, "304 Not Modified")
         else origin(q) == page
  }

  /** While the page has the ETag of the cached one, the client gets the cached page, and the list only moves its node
      to the front. */
  lemma UnchangedPage(origin: Origin, capacity: nat, s: State, r: Request, p: nat, now: int, expiry: int, n: nat,
                      page: Response)
    requires Valid(s, capacity) && Revalidates(s, r, p, now) && HasPage(origin, r.url, page) && n >= 5
    requires Header(s.list[p].entry.response, "ETag") == page.headers["ETag"]
    ensures var (s', h) := Alone(origin, capacity, s, Begin(r), now, expiry, n);
            h.point == Done(s.list[p].entry.response) && OnlyMoved(s, s', p)
  {
    var q := Revalidating(r, s.list[p].entry.response);
    RevalidatingAsks(r, s.list[p].entry.response);
    StepsAreHandleAll(origin, capacity, s, r, now, expiry, n);
    RevalidatedAll(origin, capacity, s, r, p, now, expiry, q);
    assert Holds(origin(q).statusLine, "304 Not Modified");
  }

  lemma StoredIsFound(s: State, capacity: nat, key: string, page: Response, expiry: int, later: int)
    requires Valid(s, capacity)
    ensures Lookup(Store(s, capacity, key, Entry(page, expiry)), key) == Some(Entry(page, expiry))
    ensures later < expiry ==> Get(Store(s, capacity, key, Entry(page, expiry)), key, later).1 == Some(page)
  {
    StoreKeeps(s, capacity, key, Entry(page, expiry));
  }

  /** Once the ETag has changed, the client gets the current page, and it is what a lookup finds until it expires, if it
      is for everyone. */
  lemma ChangedPage(origin: Origin, capacity: nat, s: State, r: Request, p: nat, now: int, expiry: int, n: nat,
                    page: Response, later: int)
    requires Valid(s, capacity) && Revalidates(s, r, p, now) && HasPage(origin, r.url, page) && n >= 5
    requires Header(s.list[p].entry.response, "ETag") != page.headers["ETag"]
    ensures var (s', h) := Alone(origin, capacity, s, Begin(r), now, expiry, n);
            var key := if Header(page, "Vary") == "" then r.url else r.url + "|" + Header(page, "Vary");
            && h.point == Done(page)
            && (ForEveryone(page) ==> Lookup(s', key) == Some(Entry(page, expiry)))
            && (ForEveryone(page) && later < expiry ==> Get(s', key, later).1 == Some(page))
            && (!ForEveryone(page) ==> OnlyMoved(s, s', p))
  {
    var q := Revalidating(r, s.list[p].entry.response);
    RevalidatingAsks(r, s.list[p].entry.response);
    StepsAreHandleAll(origin, capacity, s, r, now, expiry, n);
    RevalidatedAll(origin, capacity, s, r, p, now, expiry, q);
    assert origin(q) == page;
    var (s', h) := HandleAll(origin, capacity, s, r, now, expiry);
    var moved :| && OnlyMoved(s, moved, p) && Valid(moved, capacity)
                 && SentAndStored(moved, capacity, r.url, page, expiry, s', h.point);
    if ForEveryone(page) {
      StoredIsFound(moved, capacity, CacheKey(r.url, page), page, expiry, later);
    }
  }
}
