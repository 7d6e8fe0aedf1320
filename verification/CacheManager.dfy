/** The class `CacheManager`: a list in recency order and a map of iterators into it, changed in place. Each
    method runs under the cache mutex, so each is one atomic step. */
module CacheManagers {
  import opened Strings
  import opened Responses
  import opened Cache

  lemma Found(s: State, capacity: nat, key: string, p: nat)
    requires Valid(s, capacity) && key in s.index && p == PosOf(s.list, s.index[key])
    ensures p < |s.list| && Lookup(s, key) == Some(s.list[p].entry)
  {
    assert Points(s, key);
  }

  lemma MovedIs(s: State, key: string, now: int, p: nat)
    requires key in s.index && p == PosOf(s.list, s.index[key]) && p < |s.list| && now < s.list[p].entry.expiry
    ensures Get(s, key, now) ==
            (State([s.list[p]] + (s.list[..p] + s.list[p + 1..]), s.index, s.nextId), Some(s.list[p].entry.response))
  {
  }

  /** The first node is one for the entry, and it is found under its key. */
  ghost predicate StoredFirst(s: State, key: string, entry: Entry) {
    s.list != [] && s.list[0].key == key && s.list[0].entry == entry && Lookup(s, key) == Some(entry)
  }

  lemma StoreIsFirst(s: State, capacity: nat, key: string, entry: Entry)
    requires Valid(s, capacity)
    ensures Valid(Store(s, capacity, key, entry), capacity) && StoredFirst(Store(s, capacity, key, entry), key, entry)
  {
    StoreKeeps(s, capacity, key, entry);
  }

  class CacheManager {
    var cacheList: seq<Node>
    var cacheMap: map<string, nat>
    var nextNode: nat
    const cacheCapacity: nat

    ghost function View(): State
      reads this
    {
      State(cacheList, cacheMap, nextNode)
    }

    ghost predicate IsValid()
      reads this
    {
      Valid(View(), cacheCapacity)
    }

    constructor (capacity: nat)
      ensures cacheCapacity == capacity && View() == EMPTY && IsValid()
    {
      cacheCapacity := capacity;
      cacheList, cacheMap, nextNode := [], map[], 0;
    }

    /** `is_in_cache`. */
    method IsInCache(url: string) returns (found: bool)
      ensures found == (url in View().index)
    {
      return url in cacheMap;
    }

    /** Follows an iterator of the map to its place in the list. */
    method Locate(id: nat) returns (p: nat)
      ensures p == PosOf(cacheList, id)
    {
      p := 0;
      while p < |cacheList| && cacheList[p].id != id
        invariant p <= |cacheList|
        invariant forall i :: 0 <= i < p ==> cacheList[i].id != id
      {
        p := p + 1;
      }
    }

    /** `get_cached_response`. */
    method GetCachedResponse(url: string, now: int) returns (response: Option<Response>)
      requires IsValid()
      modifies this
      ensures IsValid() && (View(), response) == Get(old(View()), url, now)
    {
      ghost var was := View();
      GetKeeps(was, cacheCapacity, url, now);
      if url !in cacheMap {
        return None;
      }
      var p := Locate(cacheMap[url]);
      Found(was, cacheCapacity, url, p);
      var entry := cacheList[p].entry;
      if now >= entry.expiry {
        return None;
      }
      MovedIs(was, url, now, p);
      var node := cacheList[p];
      cacheList := cacheList[..p] + cacheList[p + 1..];
      cacheList := [node] + cacheList;
      return Some(entry.response);
    }

    /** `store_response`, with the expiry computed from the response and the clock. */
    method StoreResponse(url: string, response: Response, expiry: int)
      requires IsValid()
      modifies this
      ensures IsValid()
      ensures View() == if Cacheable(response)
                        then Store(old(View()), cacheCapacity, CacheKey(url, response), Entry(response, expiry))
                        else old(View())
      ensures ForEveryone(response) ==>
                var key := if Header(response, "Vary") == "" then url else url + "|" + Header(response, "Vary");
                StoredFirst(View(), key, Entry(response, expiry))
      ensures !ForEveryone(response) ==> View() == old(View())
    {
      var cacheable := CheckCacheable(response);
      if !cacheable {
        return;
      }
      var cacheKey := url;
      if Header(response, "Vary") != "" {
        cacheKey := cacheKey + "|" + Header(response, "Vary");
      }
      ghost var was := View();
      EvictIfNeeded();
      cacheList := [Node(nextNode, cacheKey, Entry(response, expiry))] + cacheList;
      cacheMap := cacheMap[cacheKey := nextNode];
      nextNode := nextNode + 1;
      assert View() == Store(was, cacheCapacity, cacheKey, Entry(response, expiry));
      StoreIsFirst(was, cacheCapacity, cacheKey, Entry(response, expiry));
      assert cacheKey == CacheKey(url, response);
    }

    /** `evict_if_needed`. */
    method EvictIfNeeded()
      requires IsValid()
      modifies this
      ensures IsValid() && View() == Evict(old(View()), cacheCapacity)
    {
      EvictKeeps(View(), cacheCapacity);
      if cacheList != [] && |cacheList| >= cacheCapacity {
        var last := cacheList[|cacheList| - 1];
        cacheMap := cacheMap - {last.key};
        cacheList := cacheList[..|cacheList| - 1];
      }
    }
  }
}
