/** The cache over whole runs: against a last-write map, and against least-recently-used order. */
module CacheRuns {
  import opened Strings
  import opened Responses
  import opened Cache

  // ------------------------------------------------------------------ runs

  /** An operation on the cache: a response stored under a key, or a key asked for at some time. */
  datatype Op = Stored(key: string, entry: Entry) | Asked(key: string, now: int)

  function Step(s: State, capacity: nat, op: Op): State {
    match op
    case Stored(key, entry) => Store(s, capacity, key, entry)
    case Asked(key, now) => Get(s, key, now).0
  }

  function Run(capacity: nat, ops: seq<Op>): State
    decreases |ops|
  {
    if ops == [] then EMPTY else Step(Run(capacity, ops[..|ops| - 1]), capacity, ops[|ops| - 1])
  }

  /** The reference: what was stored last under a key. */
  function LastStored(ops: seq<Op>, key: string): Option<Entry>
    decreases |ops|
  {
    if ops == [] then None
    else
      var op := ops[|ops| - 1];
      if op.Stored? && op.key == key then Some(op.entry) else LastStored(ops[..|ops| - 1], key)
  }

  /** In every run the representation is valid, and whatever the index still finds is what was stored last. */
  lemma {:induction false} RunRefinesLastWrite(capacity: nat, ops: seq<Op>)
    ensures Valid(Run(capacity, ops), capacity)
    ensures forall k :: k in Run(capacity, ops).index ==> Lookup(Run(capacity, ops), k) == LastStored(ops, k)
    ensures forall k :: k in Run(capacity, ops).index ==> LastStored(ops, k).Some?
    decreases |ops|
  {
    if ops == [] { return; }
    var before, op := ops[..|ops| - 1], ops[|ops| - 1];
    RunRefinesLastWrite(capacity, before);
    var s := Run(capacity, before);
    match op
    case Stored(key, entry) =>
      StoreKeeps(s, capacity, key, entry);
    case Asked(key, now) =>
      GetKeeps(s, capacity, key, now);
  }

  /** The sizes in every run: no more index entries than nodes, no more nodes than the capacity (or one). */
  lemma RunStaysSmall(capacity: nat, ops: seq<Op>)
    ensures |Run(capacity, ops).index| <= |Run(capacity, ops).list| <= Max(capacity, 1)
  {
    RunRefinesLastWrite(capacity, ops);
    IndexNoLarger(Run(capacity, ops), capacity);
  }

  /** A hit returns the response stored last under the key, and only before its expiry. */
  lemma HitIsLastStored(capacity: nat, ops: seq<Op>, key: string, now: int)
    requires Get(Run(capacity, ops), key, now).1.Some?
    ensures LastStored(ops, key).Some?
    ensures Get(Run(capacity, ops), key, now).1.value == LastStored(ops, key).value.response
    ensures now < LastStored(ops, key).value.expiry
  {
    RunRefinesLastWrite(capacity, ops);
  }

  lemma {:induction false} NotStoredSince(ops: seq<Op>, later: seq<Op>, key: string)
    requires forall i :: 0 <= i < |later| ==> !(later[i].Stored? && later[i].key == key)
    ensures LastStored(ops + later, key) == LastStored(ops, key)
    decreases |later|
  {
    if later == [] {
      assert ops + later == ops;
    } else {
      var all := ops + later;
      assert all[..|all| - 1] == ops + later[..|later| - 1];
      NotStoredSince(ops, later[..|later| - 1], key);
    }
  }

  /** With a clock that does not run backwards, an expired key stays a miss until it is stored again. */
  lemma ExpiredStaysMiss(capacity: nat, ops: seq<Op>, later: seq<Op>, key: string, now: int, after: int)
    requires LastStored(ops, key).Some? && now >= LastStored(ops, key).value.expiry && after >= now
    requires forall i :: 0 <= i < |later| ==> !(later[i].Stored? && later[i].key == key)
    ensures Get(Run(capacity, ops + later), key, after).1.None?
  {
    NotStoredSince(ops, later, key);
    if Get(Run(capacity, ops + later), key, after).1.Some? {
      HitIsLastStored(capacity, ops + later, key, after);
    }
  }

  // ------------------------------------------------------------------ least recently used

  function Drop(l: seq<string>, k: string): seq<string> {
    if l == [] then [] else (if l[0] == k then [] else [l[0]]) + Drop(l[1..], k)
  }

  function MoveFront(l: seq<string>, k: string): seq<string> {
    [k] + Drop(l, k)
  }

  function Cut(l: seq<string>, n: nat): seq<string> {
    if |l| <= n then l else l[..n]
  }

  /** The reference: the distinct keys used, most recent first. */
  function Recency(uses: seq<string>): seq<string>
    decreases |uses|
  {
    if uses == [] then [] else MoveFront(Recency(uses[..|uses| - 1]), uses[|uses| - 1])
  }

  /** The keys used by a run: those stored, and those asked for and hit. */
  function Uses(capacity: nat, ops: seq<Op>): seq<string>
    decreases |ops|
  {
    if ops == [] then []
    else
      var before, op := ops[..|ops| - 1], ops[|ops| - 1];
      var u := Uses(capacity, before);
      if op.Stored? || Get(Run(capacity, before), op.key, op.now).1.Some? then u + [op.key] else u
  }

  function Keys(list: seq<Node>): (ks: seq<string>)
    ensures |ks| == |list| && forall i :: 0 <= i < |list| ==> ks[i] == list[i].key
  {
    if list == [] then [] else [list[0].key] + Keys(list[1..])
  }

  /** The list of the run is the recency order cut to the capacity. */
  ghost predicate ExactLru(capacity: nat, ops: seq<Op>) {
    Keys(Run(capacity, ops).list) == Cut(Recency(Uses(capacity, ops)), capacity)
  }

  /** An operation that stores only under a key with no node left in the list once room is made. */
  predicate StoresAbsent(s: State, capacity: nat, op: Op) {
    op.Stored? ==> op.key !in Keys(Evict(s, capacity).list)
  }

  /** Every store of the run is one of an absent key. */
  ghost predicate AllStoresAbsent(capacity: nat, ops: seq<Op>)
    decreases |ops|
  {
    ops == [] ||
    (var before := ops[..|ops| - 1];
     AllStoresAbsent(capacity, before) && StoresAbsent(Run(capacity, before), capacity, ops[|ops| - 1]))
  }

  /** The order is exact after every operation of the run. */
  ghost predicate AlwaysExact(capacity: nat, ops: seq<Op>)
    decreases |ops|
  {
    ops == [] || (AlwaysExact(capacity, ops[..|ops| - 1]) && ExactLru(capacity, ops))
  }

  // ------------------------------------------------------------------ facts about Drop and Recency

  ghost predicate Distinct(l: seq<string>) {
    forall i, j :: 0 <= i < j < |l| ==> l[i] != l[j]
  }

  lemma {:induction false} DropAbsent(l: seq<string>, k: string)
    requires k !in l
    ensures Drop(l, k) == l
    decreases |l|
  {
    if l != [] {
      DropAbsent(l[1..], k);
      assert [l[0]] + l[1..] == l;
    }
  }

  lemma {:induction false} DropAt(l: seq<string>, p: nat)
    requires p < |l| && Distinct(l)
    ensures Drop(l, l[p]) == l[..p] + l[p + 1..]
    decreases |l|
  {
    if p == 0 {
      DropAbsent(l[1..], l[0]);
    } else {
      assert l[1..][p - 1] == l[p];
      DropAt(l[1..], p - 1);
      assert [l[0]] + l[1..][..p - 1] == l[..p];
    }
  }

  /** Dropping a key leaves the others, in order. */
  lemma DropShape(l: seq<string>, k: string)
    requires Distinct(l)
    ensures Distinct(Drop(l, k)) && k !in Drop(l, k)
    ensures forall j :: j in Drop(l, k) <==> j in l && j != k
  {
    if k in l {
      var p :| 0 <= p < |l| && l[p] == k;
      DropAt(l, p);
    } else {
      DropAbsent(l, k);
    }
  }

  lemma {:induction false} RecencyDistinct(uses: seq<string>)
    ensures Distinct(Recency(uses))
    ensures forall k :: k in Recency(uses) <==> k in uses
    decreases |uses|
  {
    if uses != [] {
      var before, k := uses[..|uses| - 1], uses[|uses| - 1];
      RecencyDistinct(before);
      DropShape(Recency(before), k);
      assert uses == before + [k];
    }
  }

  // ------------------------------------------------------------------ exact LRU

  ghost predicate AreKeys(ks: seq<string>, list: seq<Node>) {
    |ks| == |list| && forall i :: 0 <= i < |list| ==> ks[i] == list[i].key
  }

  /** The keys of the nodes in the new order. */
  lemma KeysMoved(list: seq<Node>, p: nat, ks: seq<string>, moved: seq<string>)
    requires p < |list| && AreKeys(ks, list) && AreKeys(moved, ToFront(list, p))
    ensures moved == [ks[p]] + (ks[..p] + ks[p + 1..])
  {
    forall i | 0 <= i < |moved|
      ensures moved[i] == ([ks[p]] + (ks[..p] + ks[p + 1..]))[i]
    {
      assert ToFront(list, p)[i] == list[if i == 0 then p else if i <= p then i - 1 else i];
    }
  }

  lemma KeysOfToFront(list: seq<Node>, p: nat)
    requires p < |list| && Distinct(Keys(list))
    ensures Keys(ToFront(list, p)) == MoveFront(Keys(list), list[p].key)
  {
    KeysMoved(list, p, Keys(list), Keys(ToFront(list, p)));
    DropAt(Keys(list), p);
  }

  /** Moving a key within the cut commutes with cutting. */
  lemma CutOfMoveInside(l: seq<string>, p: nat, n: nat)
    requires p < n && p < |l| && Distinct(l)
    ensures Cut(MoveFront(l, l[p]), n) == MoveFront(Cut(l, n), l[p])
  {
    DropAt(l, p);
    DropAt(Cut(l, n), p);
    if |l| > n {
      assert (l[..p] + l[p + 1..])[..n - 1] == l[..n][..p] + l[..n][p + 1..];
    }
  }

  /** A key from outside the cut pushes the last one out. */
  lemma CutOfMoveOutside(l: seq<string>, k: string, n: nat)
    requires n >= 1 && Distinct(l) && k !in Cut(l, n - 1)
    ensures Cut(MoveFront(l, k), n) == [k] + Cut(l, n - 1)
  {
    if k !in l {
      DropAbsent(l, k);
      return;
    }
    var p :| 0 <= p < |l| && l[p] == k;
    DropAt(l, p);
    assert n - 1 <= p < |l|;
    assert (l[..p] + l[p + 1..])[..n - 1] == l[..n - 1];
  }

  lemma KeysOfEvicted(s: State, capacity: nat, l: seq<string>)
    requires capacity >= 1 && Keys(s.list) == Cut(l, capacity)
    ensures Keys(Evict(s, capacity).list) == Cut(l, capacity - 1)
  {
  }

  /** One operation keeps the order exact if it stores only an absent key. */
  lemma ExactStep(capacity: nat, ops: seq<Op>, op: Op)
    requires capacity >= 1 && ExactLru(capacity, ops)
    requires StoresAbsent(Run(capacity, ops), capacity, op)
    ensures ExactLru(capacity, ops + [op])
  {
    var s, uses := Run(capacity, ops), Uses(capacity, ops);
    var all := ops + [op];
    assert all[..|all| - 1] == ops;
    RunRefinesLastWrite(capacity, ops);
    RecencyDistinct(uses);
    match op
    case Stored(key, entry) =>
      KeysOfEvicted(s, capacity, Recency(uses));
      CutOfMoveOutside(Recency(uses), key, capacity);
      UsedLast(uses, key);
      KeysOfPush(Evict(s, capacity), Run(capacity, all));
    case Asked(key, now) =>
      if Get(s, key, now).1.Some? {
        UsedLast(uses, key);
        ExactHit(capacity, s, Recency(uses), key, now);
      }
  }

  lemma ExactHit(capacity: nat, s: State, l: seq<string>, key: string, now: int)
    requires capacity >= 1 && Valid(s, capacity) && Distinct(l) && Keys(s.list) == Cut(l, capacity)
    requires Get(s, key, now).1.Some?
    ensures Keys(Get(s, key, now).0.list) == Cut(MoveFront(l, key), capacity)
  {
    assert Points(s, key);
    var p := PosOf(s.list, s.index[key]);
    assert Keys(s.list)[p] == key;
    KeysOfToFront(s.list, p);
    CutOfMoveInside(l, p, capacity);
  }

  lemma UsedLast(uses: seq<string>, key: string)
    ensures Recency(uses + [key]) == MoveFront(Recency(uses), key)
  {
    assert (uses + [key])[..|uses|] == uses;
  }

  lemma KeysOfPush(s: State, s': State)
    requires s'.list != [] && s'.list[1..] == s.list
    ensures Keys(s'.list) == [s'.list[0].key] + Keys(s.list)
  {
  }

  /** Storing under a key whose node is still in the list leaves two nodes with that key. */
  lemma InexactStep(capacity: nat, ops: seq<Op>, op: Op)
    requires capacity >= 1 && ExactLru(capacity, ops) && !StoresAbsent(Run(capacity, ops), capacity, op)
    ensures !ExactLru(capacity, ops + [op])
  {
    var all := ops + [op];
    assert all[..|all| - 1] == ops;
    var e := Evict(Run(capacity, ops), capacity);
    var ks := Keys(Run(capacity, all).list);
    KeysOfPush(e, Run(capacity, all));
    var p :| 0 <= p < |Keys(e.list)| && Keys(e.list)[p] == op.key;
    RecencyDistinct(Uses(capacity, all));
    NoCutRepeats(Recency(Uses(capacity, all)), capacity, ks, 0, p + 1);
  }

  lemma NoCutRepeats(l: seq<string>, c: nat, ks: seq<string>, i: nat, j: nat)
    requires Distinct(l) && i < j < |ks| && ks[i] == ks[j]
    ensures ks != Cut(l, c)
  {
  }

  lemma StepExactly(capacity: nat, before: seq<Op>, op: Op, ops: seq<Op>)
    requires capacity >= 1 && ExactLru(capacity, before) && ops == before + [op]
    ensures ExactLru(capacity, ops) <==> StoresAbsent(Run(capacity, before), capacity, op)
  {
    if StoresAbsent(Run(capacity, before), capacity, op) {
      ExactStep(capacity, before, op);
    } else {
      InexactStep(capacity, before, op);
    }
  }

  /** Exactly when every store of a run is one of an absent key does the list stay in least-recently-used order
      throughout the run. */
  lemma {:induction false} LruExactly(capacity: nat, ops: seq<Op>)
    requires capacity >= 1
    ensures AllStoresAbsent(capacity, ops) <==> AlwaysExact(capacity, ops)
    decreases |ops|
  {
    if ops == [] { return; }
    var before := ops[..|ops| - 1];
    LruExactly(capacity, before);
    if AlwaysExact(capacity, before) {
      assert ExactLru(capacity, before);
      StepExactly(capacity, before, ops[|ops| - 1], ops);
    }
  }

  // ------------------------------------------------------------------ how long a key survives

  /** The keys used since `k` was used last. */
  function Since(uses: seq<string>, k: string): set<string>
    decreases |uses|
  {
    if uses == [] || uses[|uses| - 1] == k then {}
    else Since(uses[..|uses| - 1], k) + {uses[|uses| - 1]}
  }

  function SetOf(l: seq<string>): set<string> {
    set k | k in l
  }

  lemma {:induction false} DistinctSize(l: seq<string>)
    requires Distinct(l)
    ensures |SetOf(l)| == |l|
    decreases |l|
  {
    if l != [] {
      DistinctSize(l[1..]);
      assert SetOf(l) == SetOf(l[1..]) + {l[0]};
    }
  }

  lemma RotatedPrefix(l: seq<string>, i: nat, q: nat)
    requires i < q < |l|
    ensures SetOf(([l[i]] + (l[..i] + l[i + 1..]))[..q]) == SetOf(l[..q]) + {l[i]}
  {
    var rotated := ([l[i]] + (l[..i] + l[i + 1..]))[..q];
    forall k
      ensures k in rotated <==> k in l[..q]
    {
      if k in rotated {
        var a :| 0 <= a < q && rotated[a] == k;
        assert l[..q][if a == 0 then i else if a <= i then a - 1 else a] == k;
      }
      if k in l[..q] {
        var a :| 0 <= a < q && l[..q][a] == k;
        assert rotated[if a == i then 0 else if a < i then a + 1 else a] == k;
      }
    }
  }

  /** What stands in front of another key once `j` has been moved to the front. */
  lemma MoveFrontBefore(l: seq<string>, j: string, q: nat, p: nat)
    requires Distinct(l) && q < |l| && l[q] != j
    requires p < |MoveFront(l, j)| && MoveFront(l, j)[p] == l[q]
    ensures SetOf(MoveFront(l, j)[..p]) == SetOf(l[..q]) + {j}
  {
    var l' := MoveFront(l, j);
    DropShape(l, j);
    if j in l {
      var i :| 0 <= i < |l| && l[i] == j;
      DropAt(l, i);
      if i < q {
        assert l'[q] == l[q] && p == q;
        RotatedPrefix(l, i, q);
      } else {
        assert l'[q + 1] == l[q] && p == q + 1;
        assert l'[..p] == [j] + l[..q];
      }
    } else {
      DropAbsent(l, j);
      assert l'[q + 1] == l[q] && p == q + 1;
      assert l'[..p] == [j] + l[..q];
    }
  }

  /** In front of a key stand exactly the keys used since. */
  lemma {:induction false} BeforeKey(uses: seq<string>, k: string, p: nat)
    requires p < |Recency(uses)| && Recency(uses)[p] == k
    ensures SetOf(Recency(uses)[..p]) == Since(uses, k)
    decreases |uses|
  {
    var before, j := uses[..|uses| - 1], uses[|uses| - 1];
    RecencyDistinct(before);
    RecencyDistinct(uses);
    if j == k {
      assert Recency(uses)[0] == k && p == 0;
      return;
    }
    assert uses == before + [j];
    assert k in uses && k in before && k in Recency(before);
    var q :| 0 <= q < |Recency(before)| && Recency(before)[q] == k;
    BeforeKey(before, k, q);
    MoveFrontBefore(Recency(before), j, q, p);
  }

  /** While the order is exact, a key is in the list if and only if it was used and fewer than `capacity` other keys
      have been used since. */
  lemma KeyListed(capacity: nat, ops: seq<Op>, k: string)
    requires capacity >= 1 && ExactLru(capacity, ops)
    ensures k in Keys(Run(capacity, ops).list) <==>
            k in Uses(capacity, ops) && |Since(Uses(capacity, ops), k)| < capacity
  {
    var uses := Uses(capacity, ops);
    var l := Recency(uses);
    RecencyDistinct(uses);
    if k in uses {
      var p :| 0 <= p < |l| && l[p] == k;
      BeforeKey(uses, k, p);
      DistinctSize(l[..p]);
      assert k in Cut(l, capacity) <==> p < capacity by {
        if p < capacity { assert Cut(l, capacity)[p] == k; }
      }
    }
  }

  // ------------------------------------------------------------------ whether a listed key is found

  /** The key of every node is in the index. */
  ghost predicate Indexed(s: State) {
    forall i :: 0 <= i < |s.list| ==> s.list[i].key in s.index
  }

  /** A store that makes no room, or takes the node the index names under its key, or stores under that very key. */
  predicate SafeStep(s: State, capacity: nat, op: Op) {
    op.Asked? || s.list == [] || |s.list| < capacity ||
    var last := s.list[|s.list| - 1];
    op.key == last.key || (last.key in s.index && s.index[last.key] == last.id)
  }

  /** Whether the index names the last node decides whether an earlier one has its key. */
  lemma LastNamed(s: State, capacity: nat)
    requires Valid(s, capacity) && Indexed(s) && s.list != []
    ensures var n := |s.list| - 1;
            s.index[s.list[n].key] == s.list[n].id <==> forall i :: 0 <= i < n ==> s.list[i].key != s.list[n].key
  {
    var n := |s.list| - 1;
    assert Points(s, s.list[n].key);
    var p := PosOf(s.list, s.index[s.list[n].key]);
    assert p == n || (p < n && s.list[p].key == s.list[n].key && s.list[p].id != s.list[n].id);
  }

  /** The nodes and the index after a store that makes room. */
  lemma StoredNodes(s: State, capacity: nat, key: string, entry: Entry)
    requires s.list != [] && |s.list| >= capacity
    ensures var s' := Store(s, capacity, key, entry);
            && |s'.list| == |s.list| && s'.list[0].key == key
            && (forall i :: 0 < i < |s'.list| ==> s'.list[i] == s.list[i - 1])
            && s'.index.Keys == (s.index.Keys - {s.list[|s.list| - 1].key}) + {key}
  {
  }

  lemma StoreKeepsIndexed(s: State, capacity: nat, key: string, entry: Entry)
    requires Valid(s, capacity) && Indexed(s) && s.list != [] && |s.list| >= capacity
    ensures Indexed(Store(s, capacity, key, entry)) <==> SafeStep(s, capacity, Stored(key, entry))
  {
    LastNamed(s, capacity);
    StoredNodes(s, capacity, key, entry);
    IndexedAgain(s, Store(s, capacity, key, entry), key);
  }

  lemma IndexedAgain(s: State, s': State, key: string)
    requires Indexed(s) && s.list != [] && |s'.list| == |s.list| && s'.list[0].key == key
    requires forall i :: 0 < i < |s'.list| ==> s'.list[i] == s.list[i - 1]
    requires s'.index.Keys == (s.index.Keys - {s.list[|s.list| - 1].key}) + {key}
    ensures var n := |s.list| - 1;
            Indexed(s') <==> key == s.list[n].key || forall i :: 0 <= i < n ==> s.list[i].key != s.list[n].key
  {
    var n := |s.list| - 1;
    if Indexed(s') {
      forall i | 0 <= i < n
        ensures key == s.list[n].key || s.list[i].key != s.list[n].key
      {
        assert s'.list[i + 1].key in s'.index;
      }
    } else {
      var i :| 0 <= i < |s'.list| && s'.list[i].key !in s'.index;
      assert s.list[i - 1].key == s.list[n].key;
    }
  }

  lemma AskKeepsIndexed(s: State, capacity: nat, key: string, now: int)
    requires Valid(s, capacity) && Indexed(s)
    ensures Indexed(Get(s, key, now).0)
  {
    if Get(s, key, now).1.Some? {
      FrontIndexed(s, PosOf(s.list, s.index[key]));
    }
  }

  lemma FrontIndexed(s: State, p: nat)
    requires Indexed(s) && p < |s.list|
    ensures Indexed(s.(list := ToFront(s.list, p)))
  {
    ToFrontSame(s.list, p);
    var s' := s.(list := ToFront(s.list, p));
    forall i | 0 <= i < |s'.list|
      ensures s'.list[i].key in s.index
    {
      assert s'.list[i] in s.list;
    }
  }

  /** Exactly such steps leave every node indexed. */
  lemma StepKeepsIndexed(s: State, capacity: nat, op: Op)
    requires Valid(s, capacity) && Indexed(s)
    ensures Indexed(Step(s, capacity, op)) <==> SafeStep(s, capacity, op)
  {
    match op
    case Stored(key, entry) =>
      if s.list != [] && |s.list| >= capacity {
        StoreKeepsIndexed(s, capacity, key, entry);
      } else {
        PushKeepsIndexed(s, capacity, key, entry);
      }
    case Asked(key, now) => AskKeepsIndexed(s, capacity, key, now);
  }

  lemma PushKeepsIndexed(s: State, capacity: nat, key: string, entry: Entry)
    requires Indexed(s) && (s.list == [] || |s.list| < capacity)
    ensures Indexed(Store(s, capacity, key, entry))
  {
    var s' := Store(s, capacity, key, entry);
    assert forall i :: 0 < i < |s'.list| ==> s'.list[i] == s.list[i - 1];
  }

  predicate AllStepsSafe(capacity: nat, ops: seq<Op>)
    decreases |ops|
  {
    ops == [] ||
    var before := ops[..|ops| - 1];
    AllStepsSafe(capacity, before) && SafeStep(Run(capacity, before), capacity, ops[|ops| - 1])
  }

  /** Throughout the run every node is indexed. */
  ghost predicate AlwaysIndexed(capacity: nat, ops: seq<Op>)
    decreases |ops|
  {
    Indexed(Run(capacity, ops)) && (ops != [] ==> AlwaysIndexed(capacity, ops[..|ops| - 1]))
  }

  /** Whatever is listed is found throughout a run, if and only if every store of the run makes no room, or takes the
      node the index names, or stores under the key it takes. */
  lemma {:induction false} IndexedExactly(capacity: nat, ops: seq<Op>)
    ensures AllStepsSafe(capacity, ops) <==> AlwaysIndexed(capacity, ops)
    decreases |ops|
  {
    if ops == [] { return; }
    var before := ops[..|ops| - 1];
    IndexedExactly(capacity, before);
    if AlwaysIndexed(capacity, before) {
      RunRefinesLastWrite(capacity, before);
      assert Indexed(Run(capacity, before));
      StepKeepsIndexed(Run(capacity, before), capacity, ops[|ops| - 1]);
    }
  }

  /** With one node a key, the last node is the one the index names. */
  lemma DistinctIsSafe(s: State, capacity: nat, op: Op)
    requires Valid(s, capacity) && Indexed(s) && Distinct(Keys(s.list))
    ensures SafeStep(s, capacity, op)
  {
    if s.list != [] {
      LastNamed(s, capacity);
      var n, ks := |s.list| - 1, Keys(s.list);
      assert forall i :: 0 <= i < n ==> ks[i] != ks[n];
    }
  }

  lemma AbsentStep(capacity: nat, before: seq<Op>, op: Op)
    requires capacity >= 1 && AllStoresAbsent(capacity, before) && AlwaysIndexed(capacity, before)
    ensures SafeStep(Run(capacity, before), capacity, op)
  {
    RunRefinesLastWrite(capacity, before);
    RunDistinct(capacity, before);
    DistinctIsSafe(Run(capacity, before), capacity, op);
  }

  lemma RunDistinct(capacity: nat, ops: seq<Op>)
    requires capacity >= 1 && AllStoresAbsent(capacity, ops)
    ensures ExactLru(capacity, ops) && Distinct(Keys(Run(capacity, ops).list))
  {
    LruExactly(capacity, ops);
    RecencyDistinct(Uses(capacity, ops));
  }

  /** Storing absent keys only is safe throughout. */
  lemma {:induction false} AbsentIsSafe(capacity: nat, ops: seq<Op>)
    requires capacity >= 1 && AllStoresAbsent(capacity, ops)
    ensures AllStepsSafe(capacity, ops)
    decreases |ops|
  {
    if ops == [] { return; }
    var before := ops[..|ops| - 1];
    AbsentIsSafe(capacity, before);
    IndexedExactly(capacity, before);
    AbsentStep(capacity, before, ops[|ops| - 1]);
  }

  lemma FoundIfListed(capacity: nat, ops: seq<Op>, k: string)
    requires Indexed(Run(capacity, ops))
    ensures k in Run(capacity, ops).index <==> k in Keys(Run(capacity, ops).list)
  {
    RunRefinesLastWrite(capacity, ops);
    var s := Run(capacity, ops);
    if k in s.index {
      assert Points(s, k);
      assert Keys(s.list)[PosOf(s.list, s.index[k])] == k;
    }
  }

  /** While the order is exact and every node indexed, a key is found if and only if it was used and fewer than
      `capacity` other keys have been used since, and asking for it hits while it has not expired. */
  lemma KeySurvives(capacity: nat, ops: seq<Op>, k: string, now: int)
    requires capacity >= 1 && ExactLru(capacity, ops) && Indexed(Run(capacity, ops))
    ensures k in Run(capacity, ops).index <==>
            k in Uses(capacity, ops) && |Since(Uses(capacity, ops), k)| < capacity
    ensures Get(Run(capacity, ops), k, now).1.Some? <==>
            k in Run(capacity, ops).index && LastStored(ops, k).Some? && now < LastStored(ops, k).value.expiry
  {
    KeyListed(capacity, ops, k);
    FoundIfListed(capacity, ops, k);
    RunRefinesLastWrite(capacity, ops);
  }

  /** So in a run that stores absent keys only, a lookup hits if and only if the key was used, fewer than `capacity`
      other keys have been used since, and what was stored last under it has not expired. */
  lemma HitExactly(capacity: nat, ops: seq<Op>, k: string, now: int)
    requires capacity >= 1 && AllStoresAbsent(capacity, ops)
    ensures Get(Run(capacity, ops), k, now).1.Some? <==>
            && k in Uses(capacity, ops) && |Since(Uses(capacity, ops), k)| < capacity
            && LastStored(ops, k).Some? && now < LastStored(ops, k).value.expiry
  {
    AbsentIsSafe(capacity, ops);
    IndexedExactly(capacity, ops);
    RunDistinct(capacity, ops);
    KeySurvives(capacity, ops, k, now);
  }

  // ------------------------------------------------------------------ a key stored again

  /** Storing `a` again while its first node is still listed, then a third entry, at capacity 2: making room takes
      the old node of `a` and with it the index entry of the new one, so the key just stored is no longer found
      although its node is still in the list. */
  lemma LiveEntryLost(a: string, b: string, e1: Entry, e2: Entry, e3: Entry, now: int)
    requires a != b
    ensures var ops := [Stored(a, e1), Stored(a, e2), Stored(b, e3)];
            && Keys(Run(2, ops).list) == [b, a]
            && LastStored(ops, a) == Some(e2)
            && Get(Run(2, ops), a, now).1.None?
            && !Indexed(Run(2, ops)) && !AllStepsSafe(2, ops)
            && !AllStoresAbsent(2, ops)
  {
    var one, two := [Stored(a, e1)], [Stored(a, e1), Stored(a, e2)];
    var three := [Stored(a, e1), Stored(a, e2), Stored(b, e3)];
    assert one[..0] == [] && two[..1] == one && three[..2] == two;
    assert Run(2, one) == State([Node(0, a, e1)], map[a := 0], 1);
    var s2 := Run(2, two);
    assert s2.list == [Node(1, a, e2), Node(0, a, e1)] && s2.index == map[a := 1];
    assert s2.list[..1] == [Node(1, a, e2)];
    var s3 := Run(2, three);
    assert s3.list == [Node(2, b, e3), Node(1, a, e2)] && s3.index == map[b := 2];
    assert Keys(Evict(Run(2, one), 2).list)[0] == a;
    assert !AllStoresAbsent(2, two);
    assert Keys(s3.list)[0] == b && Keys(s3.list)[1] == a;
    assert s3.list[1].key !in s3.index;
    assert !SafeStep(s2, 2, Stored(b, e3));
  }
}
