/** Sequential GETs through the handler: a larger cache never loses a hit. */
module Inclusion {
  import opened Strings
  import opened Requests
  import opened Responses
  import opened Cache
  import opened CacheRuns
  import opened Handler

  /** A request, the time it is handled at, and the expiry a response stored then is given. */
  datatype Visit = Visit(request: Request, now: int, expiry: int)

  /** Unconditional GETs whose replies are storable and do not expire within the session. */
  ghost predicate Lasting(origin: Origin, visits: seq<Visit>) {
    && (forall i :: 0 <= i < |visits| ==>
          && visits[i].request.verb == GET && !Conditional(visits[i].request)
          && Storable(origin(visits[i].request)))
    && (forall i, j :: 0 <= i < |visits| && 0 <= j < |visits| ==> visits[i].now < visits[j].expiry)
  }

  /** `step` is the handler, run to its end on a visit. */
  ghost predicate IsHandler(step: (State, Visit) -> State, origin: Origin, capacity: nat) {
    forall s, v: Visit {:trigger HandleAll(origin, capacity, s, v.request, v.now, v.expiry)} ::
      step(s, v) == HandleAll(origin, capacity, s, v.request, v.now, v.expiry).0
  }

  ghost function TheHandler(origin: Origin, capacity: nat): (step: (State, Visit) -> State)
    ensures IsHandler(step, origin, capacity)
  {
    (s, v: Visit) => HandleAll(origin, capacity, s, v.request, v.now, v.expiry).0
  }

  /** The cache after the visits, one handler after the other. */
  ghost function Session(step: (State, Visit) -> State, visits: seq<Visit>): State
    decreases |visits|
  {
    if visits == [] then EMPTY
    else step(Session(step, visits[..|visits| - 1]), visits[|visits| - 1])
  }

  function Urls(visits: seq<Visit>): (u: seq<string>)
    ensures |u| == |visits| && forall i :: 0 <= i < |u| ==> u[i] == visits[i].request.url
  {
    if visits == [] then [] else Urls(visits[..|visits| - 1]) + [visits[|visits| - 1].request.url]
  }

  /** Every node is indexed, and none expires before any of the visits. */
  ghost predicate Live(s: State, visits: seq<Visit>) {
    && Indexed(s)
    && (forall n, v :: n in s.list && v in visits ==> v.now < n.entry.expiry)
  }

  /** The list holds the first keys of the recency order `l`. */
  ghost predicate InOrder(capacity: nat, s: State, l: seq<string>) {
    Valid(s, capacity) && Keys(s.list) == Cut(l, capacity)
  }

  /** One visit keeps all that. A miss stores under a URL with no node in the list: the handler only stores what it
      did not find, and every node is found. */
  lemma VisitKeeps(origin: Origin, capacity: nat, visits: seq<Visit>, s: State, v: Visit, urls: seq<string>)
    requires capacity >= 1 && Lasting(origin, visits) && v in visits
    requires InOrder(capacity, s, Recency(urls)) && Live(s, visits)
    ensures var s' := HandleAll(origin, capacity, s, v.request, v.now, v.expiry).0;
            InOrder(capacity, s', Recency(urls + [v.request.url])) && Live(s', visits)
  {
    var url := v.request.url;
    UsedLast(urls, url);
    RecencyDistinct(urls);
    if url in s.index {
      VisitHit(capacity, visits, s, url, v, urls);
    } else {
      VisitMiss(capacity, visits, s, url, Entry(origin(v.request), v.expiry), urls);
    }
  }

  /** At the time of a visit the hits are exactly the keys listed. */
  lemma HitIfListed(capacity: nat, visits: seq<Visit>, s: State, url: string, v: Visit)
    requires Valid(s, capacity) && Live(s, visits) && v in visits
    ensures Get(s, url, v.now).1.Some? <==> url in Keys(s.list)
    ensures url in s.index <==> url in Keys(s.list)
  {
    if url in s.index {
      assert Points(s, url);
      var p := PosOf(s.list, s.index[url]);
      assert Keys(s.list)[p] == url && s.list[p] in s.list;
    }
  }

  lemma VisitHit(capacity: nat, visits: seq<Visit>, s: State, url: string, v: Visit, urls: seq<string>)
    requires capacity >= 1 && v in visits && url in s.index
    requires InOrder(capacity, s, Recency(urls)) && Live(s, visits) && Distinct(Recency(urls))
    ensures Get(s, url, v.now).1.Some?
    ensures InOrder(capacity, Get(s, url, v.now).0, MoveFront(Recency(urls), url)) && Live(Get(s, url, v.now).0, visits)
  {
    HitIfListed(capacity, visits, s, url, v);
    GetKeeps(s, capacity, url, v.now);
    ExactHit(capacity, s, Recency(urls), url, v.now);
    HitLive(capacity, visits, s, url, v.now);
  }

  lemma HitLive(capacity: nat, visits: seq<Visit>, s: State, url: string, now: int)
    requires Valid(s, capacity) && Live(s, visits) && Get(s, url, now).1.Some?
    ensures Live(Get(s, url, now).0, visits)
  {
    AskKeepsIndexed(s, capacity, url, now);
    ToFrontSame(s.list, PosOf(s.list, s.index[url]));
  }

  lemma VisitMiss(capacity: nat, visits: seq<Visit>, s: State, url: string, entry: Entry, urls: seq<string>)
    requires capacity >= 1 && url !in s.index
    requires forall v :: v in visits ==> v.now < entry.expiry
    requires InOrder(capacity, s, Recency(urls)) && Live(s, visits) && Distinct(Recency(urls))
    ensures InOrder(capacity, Store(s, capacity, url, entry), MoveFront(Recency(urls), url))
    ensures Live(Store(s, capacity, url, entry), visits)
  {
    StoreKeeps(s, capacity, url, entry);
    MissOrder(capacity, s, url, entry, urls);
    CutDistinct(Recency(urls), capacity);
    MissLive(capacity, visits, s, url, entry);
  }

  lemma CutDistinct(l: seq<string>, c: nat)
    requires Distinct(l)
    ensures Distinct(Cut(l, c))
  {
  }

  lemma MissLive(capacity: nat, visits: seq<Visit>, s: State, url: string, entry: Entry)
    requires Valid(s, capacity) && Distinct(Keys(s.list)) && Live(s, visits)
    requires forall v :: v in visits ==> v.now < entry.expiry
    ensures Live(Store(s, capacity, url, entry), visits)
  {
    DistinctIsSafe(s, capacity, Stored(url, entry));
    StepKeepsIndexed(s, capacity, Stored(url, entry));
    assert forall n :: n in Evict(s, capacity).list ==> n in s.list;
  }

  lemma MissOrder(capacity: nat, s: State, url: string, entry: Entry, urls: seq<string>)
    requires capacity >= 1 && InOrder(capacity, s, Recency(urls)) && Distinct(Recency(urls))
    requires url !in s.index && Indexed(s)
    ensures Keys(Store(s, capacity, url, entry).list) == Cut(MoveFront(Recency(urls), url), capacity)
  {
    var e := Evict(s, capacity);
    KeysOfEvicted(s, capacity, Recency(urls));
    if i :| 0 <= i < |e.list| && Keys(e.list)[i] == url {
      assert false;
    }
    CutOfMoveOutside(Recency(urls), url, capacity);
    KeysOfPush(e, Store(s, capacity, url, entry));
  }

  lemma {:induction false} SessionInOrder(origin: Origin, capacity: nat, step: (State, Visit) -> State,
                                          all: seq<Visit>, past: seq<Visit>)
    requires capacity >= 1 && Lasting(origin, all) && past <= all && IsHandler(step, origin, capacity)
    ensures InOrder(capacity, Session(step, past), Recency(Urls(past))) && Live(Session(step, past), all)
    decreases |past|
  {
    if past == [] { return; }
    var n := |past| - 1;
    var before, v := past[..n], past[n];
    SessionInOrder(origin, capacity, step, all, before);
    assert v == all[n];
    VisitKeeps(origin, capacity, all, Session(step, before), v, Urls(before));
  }

  /** Inclusion: at every moment of the session the list at capacity `c` is a prefix of the list at capacity `c + 1`,
      and what the smaller cache hits the larger one hits. */
  lemma LargerCacheKeepsHits(origin: Origin, c: nat, small: (State, Visit) -> State, large: (State, Visit) -> State,
                             visits: seq<Visit>, past: seq<Visit>, url: string, v: Visit)
    requires c >= 1 && Lasting(origin, visits) && past <= visits && v in visits
    requires IsHandler(small, origin, c) && IsHandler(large, origin, c + 1)
    ensures NestedHits(Session(small, past), Session(large, past), url, v.now)
  {
    HitsAreListed(origin, c, small, visits, past, url, v);
    HitsAreListed(origin, c + 1, large, visits, past, url, v);
    CutNested(Recency(Urls(past)), c);
  }

  /** With the handler of the code. */
  lemma HandlerKeepsHits(origin: Origin, c: nat, visits: seq<Visit>, past: seq<Visit>, url: string, v: Visit)
    requires c >= 1 && Lasting(origin, visits) && past <= visits && v in visits
    ensures NestedHits(Session(TheHandler(origin, c), past), Session(TheHandler(origin, c + 1), past), url, v.now)
  {
    LargerCacheKeepsHits(origin, c, TheHandler(origin, c), TheHandler(origin, c + 1), visits, past, url, v);
  }

  ghost predicate NestedHits(s: State, larger: State, url: string, now: int) {
    && Keys(s.list) <= Keys(larger.list)
    && (Get(s, url, now).1.Some? ==> Get(larger, url, now).1.Some?)
  }

  /** At every moment of a session the cache hits exactly the `capacity` URLs used last. */
  lemma HitsAreListed(origin: Origin, capacity: nat, step: (State, Visit) -> State, visits: seq<Visit>,
                      past: seq<Visit>, url: string, v: Visit)
    requires capacity >= 1 && Lasting(origin, visits) && past <= visits && v in visits
    requires IsHandler(step, origin, capacity)
    ensures var s := Session(step, past);
            && Keys(s.list) == Cut(Recency(Urls(past)), capacity)
            && (Get(s, url, v.now).1.Some? <==> url in Keys(s.list))
  {
    SessionInOrder(origin, capacity, step, visits, past);
    HitIfListed(capacity, visits, Session(step, past), url, v);
  }

  lemma CutNested(l: seq<string>, c: nat)
    ensures Cut(l, c) <= Cut(l, c + 1)
    ensures forall k :: k in Cut(l, c) ==> k in Cut(l, c + 1)
  {
  }

  /** Where a reply has expired and is stored again, that ends: after GET a, GET a when its reply has expired, and GET
      b, all at capacity 2, the proxy asks the origin for `a` once more, although the reply it stored last for `a` has
      not expired, its node is listed, and only one other URL has been used since. */
  lemma RestoredKeyIsLost(origin: Origin, a: Request, b: Request, t1: int, e1: int, t2: int, e2: int, t3: int, e3: int,
                          now: int, expiry: int)
    requires a.verb == GET && !Conditional(a) && Storable(origin(a))
    requires b.verb == GET && !Conditional(b) && Storable(origin(b)) && a.url != b.url
    requires e1 <= t2 && now < e2
    ensures var s1 := HandleAll(origin, 2, EMPTY, a, t1, e1).0;
            var s2 := HandleAll(origin, 2, s1, a, t2, e2).0;
            var s3 := HandleAll(origin, 2, s2, b, t3, e3).0;
            && Keys(s3.list) == [b.url, a.url] && s3.list[1].entry == Entry(origin(a), e2)
            && HandleAll(origin, 2, s3, a, now, expiry) == Forward(origin, 2, s3, a, a, expiry)
  {
    var f1, f2, f3 := Entry(origin(a), e1), Entry(origin(a), e2), Entry(origin(b), e3);
    var s1, s2 := Store(EMPTY, 2, a.url, f1), Store(Store(EMPTY, 2, a.url, f1), 2, a.url, f2);
    assert HandleAll(origin, 2, EMPTY, a, t1, e1).0 == s1;
    assert HandleAll(origin, 2, s1, a, t2, e2).0 == s2 by {
      assert Lookup(s1, a.url) == Some(f1);
    }
    assert HandleAll(origin, 2, s2, b, t3, e3).0 == Store(s2, 2, b.url, f3);
    assert s2.list == [Node(1, a.url, f2), Node(0, a.url, f1)];
    assert s2.list[..1] == [Node(1, a.url, f2)];
    var s3 := Store(s2, 2, b.url, f3);
    assert s3.list == [Node(2, b.url, f3), Node(1, a.url, f2)] && s3.index == map[b.url := 2];
    assert Keys(s3.list)[0] == b.url && Keys(s3.list)[1] == a.url;
  }
}
