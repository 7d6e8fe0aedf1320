/** The keys responses are stored under. */
module CacheKeys {
  import opened Strings
  import opened Responses
  import opened Cache

  /** The key is the URL exactly if Vary is absent or empty. */
  lemma KeyIsUrlExactly(url: string, r: Response)
    ensures CacheKey(url, r) == url <==> "Vary" !in r.headers || r.headers["Vary"] == ""
  {
    if Header(r, "Vary") != "" {
      assert |CacheKey(url, r)| > |url|;
    }
  }

  /** Cut at its first bar, the key of a URL without one gives back the URL and the Vary field. */
  lemma KeyCut(url: string, r: Response)
    requires '|' !in url
    ensures var key, vary := CacheKey(url, r), if "Vary" in r.headers then r.headers["Vary"] else "";
            match Find(key, "|", 0)
            case None => key == url && vary == ""
            case Some(i) => key[..i] == url && key[i + 1..] == vary && vary != ""
  {
    var key := CacheKey(url, r);
    if Header(r, "Vary") == "" {
      FindChar(key, '|', 0);
    } else {
      assert key[|url|] == '|' && forall j :: 0 <= j < |url| ==> key[j] == url[j];
      FindCharIs(key, '|', 0, |url|);
    }
  }

  /** Two responses share a key exactly if they share URL and Vary field. */
  lemma KeyExactly(url: string, r: Response, url': string, r': Response)
    requires '|' !in url && '|' !in url'
    ensures CacheKey(url, r) == CacheKey(url', r') <==> url == url' && Header(r, "Vary") == Header(r', "Vary")
  {
    KeyCut(url, r);
    KeyCut(url', r');
  }

  /** With a bar in the URL that fails: a URL that ends in a bar and a Vary field has the key of a variant of what is in
      front of the bar. */
  lemma BarredUrl(url: string, vary: string, r: Response, r': Response)
    requires Header(r, "Vary") == vary != "" && Header(r', "Vary") == ""
    ensures CacheKey(url, r) == CacheKey(url + "|" + vary, r')
  {
  }

  /** With room for both, two responses for one URL with different Vary fields are found side by side, each under its
      own key and as it was stored. */
  lemma VariantsSideBySide(s: State, capacity: nat, url: string, r: Response, r': Response, expiry: int, expiry': int)
    requires Valid(s, capacity) && |s.list| + 2 <= capacity && '|' !in url
    requires Header(r, "Vary") != Header(r', "Vary")
    ensures var one := Store(s, capacity, CacheKey(url, r), Entry(r, expiry));
            var both := Store(one, capacity, CacheKey(url, r'), Entry(r', expiry'));
            && (forall v :: v in {r, r'} ==>
                  var key := if Header(v, "Vary") == "" then url else url + "|" + Header(v, "Vary");
                  Lookup(both, key) == Some(Entry(v, if v == r then expiry else expiry')))
            && both.list[2..] == s.list
  {
    var one := Store(s, capacity, CacheKey(url, r), Entry(r, expiry));
    StoreKeeps(s, capacity, CacheKey(url, r), Entry(r, expiry));
    var both := Store(one, capacity, CacheKey(url, r'), Entry(r', expiry'));
    StoreKeeps(one, capacity, CacheKey(url, r'), Entry(r', expiry'));
    KeyExactly(url, r, url, r');
    assert CacheKey(url, r) in both.index;
  }
}
