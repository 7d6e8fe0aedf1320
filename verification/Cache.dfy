/** The state of `CacheManager` and its operations, as functions.

    `list` is the `std::list` in recency order; a node keeps its identity when it is spliced, so nodes carry an
    `id`, and `index` is the map of iterators: key to node id. */
module Cache {
  import opened Strings
  import opened Responses

  /** A stored response and the time it expires, whatever way that time was computed. */
  datatype Entry = Entry(response: Response, expiry: int)

  datatype Node = Node(id: nat, key: string, entry: Entry)

  datatype State = State(list: seq<Node>, index: map<string, nat>, nextId: nat)

  const EMPTY := State([], map[], 0)

  /** The position of the node with that id; the length of the list if there is none. */
  function PosOf(list: seq<Node>, id: nat): (p: nat)
    ensures p <= |list|
    ensures p < |list| ==> list[p].id == id
    ensures forall i :: 0 <= i < p ==> list[i].id != id
    ensures p == |list| ==> forall i :: 0 <= i < |list| ==> list[i].id != id
  {
    if list == [] || list[0].id == id then 0
    else 1 + PosOf(list[1..], id)
  }

  function Without(list: seq<Node>, p: nat): seq<Node>
    requires p < |list|
  {
    list[..p] + list[p + 1..]
  }

  function ToFront(list: seq<Node>, p: nat): seq<Node>
    requires p < |list|
  {
    [list[p]] + Without(list, p)
  }

  /** `evict_if_needed`: the last node goes, and with it whatever the index holds under its key. */
  function Evict(s: State, capacity: nat): State {
    if s.list != [] && |s.list| >= capacity then
      var last := s.list[|s.list| - 1];
      s.(list := s.list[..|s.list| - 1], index := s.index - {last.key})
    else s
  }

  /** `store_response` under its cache key: room is made, and a new node becomes the first. A node already in
      the list under that key stays where it is. */
  function Store(s: State, capacity: nat, key: string, entry: Entry): State {
    var s' := Evict(s, capacity);
    State([Node(s'.nextId, key, entry)] + s'.list, s'.index[key := s'.nextId], s'.nextId + 1)
  }

  /** The entry the index finds under a key. */
  function Lookup(s: State, key: string): Option<Entry> {
    if key !in s.index then None
    else
      var p := PosOf(s.list, s.index[key]);
      if p < |s.list| then Some(s.list[p].entry) else None
  }

  /** `get_cached_response` at time `now`: an expired entry is a miss; a hit moves its node to the front. */
  function Get(s: State, key: string, now: int): (State, Option<Response>) {
    match Lookup(s, key)
    case None => (s, None)
    case Some(entry) =>
      if now >= entry.expiry then (s, None)
      else (s.(list := ToFront(s.list, PosOf(s.list, s.index[key]))), Some(entry.response))
  }

  /** The key a response is stored under: the URL, joined to the Vary field if there is one. */
  function CacheKey(url: string, r: Response): string {
    if Header(r, "Vary") == "" then url else url + "|" + Header(r, "Vary")
  }

  // ------------------------------------------------------------------ the representation invariant

  /** The index entry of `k` names a live node with key `k`, the first with that key. */
  ghost predicate Points(s: State, k: string)
    requires k in s.index
  {
    var p := PosOf(s.list, s.index[k]);
    p < |s.list| && s.list[p].key == k && forall i :: 0 <= i < p ==> s.list[i].key != k
  }

  ghost predicate DistinctIds(list: seq<Node>) {
    forall i, j :: 0 <= i < j < |list| ==> list[i].id != list[j].id
  }

  /** Every index entry points to the first node with its key; node ids are distinct and used up in order; and
      there are no more nodes than the capacity, or one. */
  ghost predicate Valid(s: State, capacity: nat) {
    && DistinctIds(s.list)
    && (forall i :: 0 <= i < |s.list| ==> s.list[i].id < s.nextId)
    && (forall k :: k in s.index ==> Points(s, k))
    && |s.list| <= Max(capacity, 1)
  }

  function Max(a: nat, b: nat): nat {
    if a < b then b else a
  }

  lemma PosIs(list: seq<Node>, id: nat, p: nat)
    requires p < |list| && list[p].id == id && DistinctIds(list)
    ensures PosOf(list, id) == p
  {
  }

  lemma ToFrontSame(list: seq<Node>, p: nat)
    requires p < |list|
    ensures forall n :: n in ToFront(list, p) ==> n in list
  {
  }

  lemma EvictKeeps(s: State, capacity: nat)
    requires Valid(s, capacity)
    ensures Valid(Evict(s, capacity), capacity)
    ensures |Evict(s, capacity).list| < Max(capacity, 1)
    ensures forall k :: k in Evict(s, capacity).index ==> k in s.index && Lookup(Evict(s, capacity), k) == Lookup(s, k)
  {
    if s.list == [] || |s.list| < capacity { return; }
    var s', last := Evict(s, capacity), s.list[|s.list| - 1];
    forall k | k in s'.index
      ensures Points(s', k) && Lookup(s', k) == Lookup(s, k)
    {
      assert Points(s, k) && k != last.key;
      PosIs(s'.list, s.index[k], PosOf(s.list, s.index[k]));
    }
  }

  /** Putting a new node in front under `key`. */
  lemma PushKeeps(s: State, s': State, key: string, entry: Entry, k: string)
    requires DistinctIds(s.list) && forall i :: 0 <= i < |s.list| ==> s.list[i].id < s.nextId
    requires s' == State([Node(s.nextId, key, entry)] + s.list, s.index[key := s.nextId], s.nextId + 1)
    requires k == key || (k in s.index && Points(s, k))
    ensures DistinctIds(s'.list) && Points(s', k)
    ensures Lookup(s', k) == if k == key then Some(entry) else Lookup(s, k)
  {
    assert forall i :: 0 <= i < |s.list| ==> s'.list[i + 1] == s.list[i];
    PosIs(s'.list, s'.index[k], if k == key then 0 else PosOf(s.list, s.index[k]) + 1);
  }

  lemma StoreKeeps(s: State, capacity: nat, key: string, entry: Entry)
    requires Valid(s, capacity)
    ensures Valid(Store(s, capacity, key, entry), capacity)
    ensures Lookup(Store(s, capacity, key, entry), key) == Some(entry)
    ensures forall k :: k in Store(s, capacity, key, entry).index && k != key ==>
              k in s.index && Lookup(Store(s, capacity, key, entry), k) == Lookup(s, k)
  {
    EvictKeeps(s, capacity);
    var e, s' := Evict(s, capacity), Store(s, capacity, key, entry);
    forall k | k in s'.index
      ensures Points(s', k) && Lookup(s', k) == if k == key then Some(entry) else Lookup(e, k)
    {
      PushKeeps(e, s', key, entry, k);
    }
    PushKeeps(e, s', key, entry, key);
  }

  /** Moving the node at `p` to the front, seen from the key `k`; `p` is the first node with its own key. */
  lemma MoveKeeps(s: State, s': State, p: nat, k: string)
    requires DistinctIds(s.list) && p < |s.list| && s' == s.(list := ToFront(s.list, p))
    requires forall i :: 0 <= i < p ==> s.list[i].key != s.list[p].key
    requires k in s.index && Points(s, k)
    ensures Points(s', k) && Lookup(s', k) == Lookup(s, k)
  {
    MovedPositions(s.list, p);
    var q := PosOf(s.list, s.index[k]);
    PosIs(s'.list, s.index[k], Moved(p, q));
    forall i | 0 <= i < Moved(p, q)
      ensures s'.list[i].key != k
    {
      var j := if i == 0 then p else if i <= p then i - 1 else i;
      assert s'.list[i] == s.list[j];
    }
  }

  /** Where the node at `q` is after the one at `p` has moved to the front. */
  function Moved(p: nat, q: nat): nat {
    if q == p then 0 else if q < p then q + 1 else q
  }

  lemma MovedPositions(list: seq<Node>, p: nat)
    requires p < |list| && DistinctIds(list)
    ensures |ToFront(list, p)| == |list| && DistinctIds(ToFront(list, p))
    ensures forall q: nat {:trigger list[q]} :: q < |list| ==> ToFront(list, p)[Moved(p, q)] == list[q]
    ensures forall i: nat {:trigger ToFront(list, p)[i]} :: i < |list| ==>
              ToFront(list, p)[i] == list[if i == 0 then p else if i <= p then i - 1 else i]
  {
  }

  lemma MovedIds(list: seq<Node>, p: nat, bound: nat)
    requires p < |list| && forall i :: 0 <= i < |list| ==> list[i].id < bound
    ensures forall i :: 0 <= i < |ToFront(list, p)| ==> ToFront(list, p)[i].id < bound
  {
    var moved := ToFront(list, p);
    forall i | 0 <= i < |moved|
      ensures moved[i].id < bound
    {
      assert moved[i] == list[if i == 0 then p else if i <= p then i - 1 else i];
    }
  }

  /** Moving the first node with its key to the front. */
  lemma MoveKeepsAll(s: State, s': State, capacity: nat, p: nat)
    requires Valid(s, capacity) && p < |s.list| && s' == s.(list := ToFront(s.list, p))
    requires forall i :: 0 <= i < p ==> s.list[i].key != s.list[p].key
    ensures Valid(s', capacity) && forall k :: k in s.index ==> Lookup(s', k) == Lookup(s, k)
  {
    MovedPositions(s.list, p);
    MovedIds(s.list, p, s.nextId);
    forall k | k in s.index
      ensures Points(s', k) && Lookup(s', k) == Lookup(s, k)
    {
      MoveKeeps(s, s', p, k);
    }
  }

  lemma GetKeeps(s: State, capacity: nat, key: string, now: int)
    requires Valid(s, capacity)
    ensures Valid(Get(s, key, now).0, capacity)
    ensures Get(s, key, now).0.index == s.index
    ensures forall k :: k in s.index ==> Lookup(Get(s, key, now).0, k) == Lookup(s, k)
  {
    if Lookup(s, key).None? || now >= Lookup(s, key).value.expiry { return; }
    assert Points(s, key);
    MoveKeepsAll(s, Get(s, key, now).0, capacity, PosOf(s.list, s.index[key]));
  }

  // ------------------------------------------------------------------ sizes

  function KeysOf(list: seq<Node>): set<string> {
    set n | n in list :: n.key
  }

  lemma {:induction false} KeysOfSize(list: seq<Node>)
    ensures |KeysOf(list)| <= |list|
    decreases |list|
  {
    if list != [] {
      KeysOfSize(list[1..]);
      assert forall n :: n in list <==> n == list[0] || n in list[1..];
      assert KeysOf(list) == KeysOf(list[1..]) + {list[0].key};
    }
  }

  lemma {:induction false} SubsetSize<T>(a: set<T>, b: set<T>)
    requires a <= b
    ensures |a| <= |b|
    decreases a
  {
    if x :| x in a {
      SubsetSize(a - {x}, b - {x});
    }
  }

  /** The index never outnumbers the list it points into. */
  lemma IndexNoLarger(s: State, capacity: nat)
    requires Valid(s, capacity)
    ensures |s.index| <= |s.list|
  {
    forall k | k in s.index
      ensures k in KeysOf(s.list)
    {
      assert Points(s, k);
      assert s.list[PosOf(s.list, s.index[k])] in s.list;
    }
    SubsetSize(s.index.Keys, KeysOf(s.list));
    KeysOfSize(s.list);
  }
}
