/** Byte strings: substring search as `std::string::find` does it, and optional-whitespace trimming. */
module Strings {

  datatype Option<+T> = None | Some(value: T)

  const CR: char := '\r'
  const LF: char := '\n'
  const CRLF: string := "\r\n"
  const CRLFCRLF: string := "\r\n\r\n"

  /** Pattern `p` occurs in `s` at index `i`. */
  predicate OccursAt(s: string, p: string, i: int) {
    0 <= i && i + |p| <= |s| && s[i..i + |p|] == p
  }

  /** `k` is the first index from `i` on at which `p` occurs in `s`. */
  ghost predicate IsFirst(s: string, p: string, i: nat, k: nat) {
    i <= k && OccursAt(s, p, k) && forall j :: i <= j < k ==> !OccursAt(s, p, j)
  }

  ghost predicate IsFind(s: string, p: string, i: nat, r: Option<nat>) {
    match r
    case Some(k) => IsFirst(s, p, i, k)
    case None => forall j :: i <= j ==> !OccursAt(s, p, j)
  }

  /** The first occurrence of `p` in `s` at or after `i` (`None` is `npos`). */
  ghost function Find(s: string, p: string, i: nat): (r: Option<nat>)
    ensures r.Some? ==> i <= r.value && OccursAt(s, p, r.value)
    ensures r.Some? ==> forall j :: i <= j < r.value ==> !OccursAt(s, p, j)
    ensures r.None? ==> forall j :: i <= j ==> !OccursAt(s, p, j)
  {
    assert exists r :: IsFind(s, p, i, r) by {
      if j :| i <= j && OccursAt(s, p, j) {
        FirstExists(s, p, i, j);
        var k: nat :| IsFirst(s, p, i, k);
        assert IsFind(s, p, i, Some(k));
      } else {
        assert IsFind(s, p, i, None);
      }
    }
    var r :| IsFind(s, p, i, r);
    r
  }

  /** An occurrence has a first one at or before it. */
  lemma {:induction false} FirstExists(s: string, p: string, i: nat, j: nat)
    requires i <= j && OccursAt(s, p, j)
    ensures exists k: nat :: IsFirst(s, p, i, k)
    decreases j
  {
    if h: nat :| i <= h < j && OccursAt(s, p, h) {
      FirstExists(s, p, i, h);
    } else {
      assert IsFirst(s, p, i, j);
    }
  }

  /** The search itself, as `std::string::find` performs it. */
  method FindFrom(s: string, p: string, i: nat) returns (r: Option<nat>)
    ensures r == Find(s, p, i)
  {
    var k := i;
    while k + |p| <= |s|
      invariant i <= k
      invariant forall j :: i <= j < k ==> !OccursAt(s, p, j)
    {
      if s[k..k + |p|] == p {
        FindIs(s, p, i, k);
        return Some(k);
      }
      k := k + 1;
    }
    assert Find(s, p, i).None?;
    return None;
  }

  ghost predicate Contains(s: string, p: string) {
    Find(s, p, 0).Some?
  }

  /** `w` stands somewhere in `s`. */
  ghost predicate Holds(s: string, w: string) {
    exists p, q :: s == p + w + q
  }

  lemma ContainsExactly(s: string, w: string)
    ensures Contains(s, w) <==> Holds(s, w)
  {
    if Contains(s, w) {
      var k := Find(s, w, 0).value;
      assert s == s[..k] + w + s[k + |w|..];
    } else if Holds(s, w) {
      var p, q :| s == p + w + q;
      assert OccursAt(s, w, |p|);
    }
  }

  /** Whatever satisfies the contract of `Find` is its result. */
  lemma FindIs(s: string, p: string, i: nat, k: nat)
    requires i <= k && OccursAt(s, p, k)
    requires forall j :: i <= j < k ==> !OccursAt(s, p, j)
    ensures Find(s, p, i) == Some(k)
  {
  }

  lemma OccursInPrefix(s: string, u: string, p: string, j: int)
    requires s <= u && j + |p| <= |s|
    ensures OccursAt(s, p, j) == OccursAt(u, p, j)
  {
    if 0 <= j {
      assert s[j..j + |p|] == u[j..j + |p|];
    }
  }

  /** A search that succeeds in a buffer succeeds at the same place once more bytes have arrived. */
  lemma FindInPrefix(s: string, u: string, p: string, i: nat)
    requires s <= u && Find(s, p, i).Some?
    ensures Find(u, p, i) == Find(s, p, i)
  {
    var k := Find(s, p, i).value;
    forall j | i <= j <= k
      ensures OccursAt(u, p, j) == OccursAt(s, p, j)
    {
      OccursInPrefix(s, u, p, j);
    }
    FindIs(u, p, i, k);
  }

  /** And back: what is found within a piece from the front of a buffer is found there. */
  lemma FindInFront(s: string, u: string, p: string, i: nat)
    requires u <= s && Find(s, p, i).Some? && Find(s, p, i).value + |p| <= |u|
    ensures Find(u, p, i) == Find(s, p, i)
  {
    var k := Find(s, p, i).value;
    OccursInPrefix(u, s, p, k);
    FindInPrefix(u, s, p, i);
  }

  lemma OccursChar(s: string, c: char, i: nat)
    ensures OccursAt(s, [c], i) <==> i < |s| && s[i] == c
  {
    if i < |s| {
      assert s[i..i + 1] == [s[i]];
    }
  }

  lemma OccursCrlf(s: string, i: nat)
    ensures OccursAt(s, CRLF, i) <==> i + 2 <= |s| && s[i] == CR && s[i + 1] == LF
  {
    if i + 2 <= |s| {
      assert s[i..i + 2] == [s[i], s[i + 1]];
    }
  }

  lemma OccursCrlfCrlf(s: string, i: nat)
    ensures OccursAt(s, CRLFCRLF, i)
       <==> i + 4 <= |s| && s[i] == CR && s[i + 1] == LF && s[i + 2] == CR && s[i + 3] == LF
  {
    if i + 4 <= |s| {
      assert s[i..i + 4] == [s[i], s[i + 1], s[i + 2], s[i + 3]];
    }
  }

  /** Searching for one character: the index found is the first one holding it. */
  lemma FindChar(s: string, c: char, i: nat)
    ensures var r := Find(s, [c], i);
            && (r.Some? ==> i <= r.value < |s| && s[r.value] == c && c !in s[i..r.value])
            && (r.None? ==> i > |s| || c !in s[i..])
  {
    forall j: nat
      ensures OccursAt(s, [c], j) <==> j < |s| && s[j] == c
    {
      OccursChar(s, c, j);
    }
    var r := Find(s, [c], i);
    if r.Some? {
      forall j | 0 <= j < |s[i..r.value]|
        ensures s[i..r.value][j] != c
      {
        assert !OccursAt(s, [c], i + j);
      }
    } else if i <= |s| {
      forall j | 0 <= j < |s[i..]|
        ensures s[i..][j] != c
      {
        assert !OccursAt(s, [c], i + j);
      }
    }
  }

  lemma FindCharIs(s: string, c: char, i: nat, k: nat)
    requires i <= k < |s| && s[k] == c
    requires forall j :: i <= j < k ==> s[j] != c
    ensures Find(s, [c], i) == Some(k)
  {
    OccursChar(s, c, k);
    forall j | i <= j < k
      ensures !OccursAt(s, [c], j)
    {
      OccursChar(s, c, j);
    }
    FindIs(s, [c], i, k);
  }

  /** Two adjacent occurrences make one of the concatenation, and back. */
  lemma OccursConcat(s: string, p: string, q: string, i: int)
    ensures OccursAt(s, p + q, i) <==> OccursAt(s, p, i) && OccursAt(s, q, i + |p|)
  {
    if 0 <= i && i + |p| + |q| <= |s| {
      var w := s[i..i + |p| + |q|];
      assert w == s[i..i + |p|] + s[i + |p|..i + |p| + |q|];
      if w == p + q {
        assert w[..|p|] == p && w[|p|..] == q;
        assert s[i..i + |p|] == w[..|p|] && s[i + |p|..i + |p| + |q|] == w[|p|..];
      }
    }
  }

  lemma OccursIndex(s: string, p: string, i: nat, k: nat)
    requires OccursAt(s, p, i) && k < |p|
    ensures s[i + k] == p[k]
  {
    assert s[i..i + |p|][k] == s[i + k];
  }

  // ------------------------------------------------------------------ optional whitespace

  predicate IsBlank(c: char) {
    c == ' ' || c == '\t'
  }

  predicate AllBlank(s: string) {
    forall i :: 0 <= i < |s| ==> IsBlank(s[i])
  }

  /** Neither end is a space or a tab. */
  predicate IsTrimmed(s: string) {
    s == "" || (!IsBlank(s[0]) && !IsBlank(s[|s| - 1]))
  }

  /** What is left of `v` when leading and trailing blanks are dropped. */
  function Trim(v: string): (r: string)
    ensures IsTrimmed(r)
    ensures forall c :: c in r ==> c in v
  {
    if v == "" then v
    else if IsBlank(v[0]) then Trim(v[1..])
    else if IsBlank(v[|v| - 1]) then Trim(v[..|v| - 1])
    else v
  }

  /** Trimming is determined by its contract: blanks around a trimmed core are exactly what goes. */
  lemma {:induction false} TrimIs(v: string, i: nat, r: string)
    requires IsTrimmed(r) && i + |r| <= |v| && v[i..i + |r|] == r
    requires AllBlank(v[..i]) && AllBlank(v[i + |r|..])
    requires r == "" ==> i == |v|
    ensures Trim(v) == r
    decreases |v|
  {
    if i > 0 {
      assert v[0] == v[..i][0];
      assert v[1..][i - 1..i - 1 + |r|] == v[i..i + |r|];
      assert v[1..][..i - 1] == v[..i][1..];
      assert v[1..][i - 1 + |r|..] == v[i + |r|..];
      TrimIs(v[1..], i - 1, r);
    } else if |r| < |v| {
      var w := v[..|v| - 1];
      assert v[|v| - 1] == v[|r|..][|v| - 1 - |r|];
      assert r[0] == v[0];
      assert w[0..|r|] == v[0..|r|];
      assert w[..0] == [];
      assert w[|r|..] == v[|r|..][..|v| - 1 - |r|];
      TrimIs(w, 0, r);
    } else {
      assert v == r;
    }
  }

  /** One space in front of a trimmed value disappears again. */
  lemma TrimAfterSpace(v: string)
    ensures Trim(" " + v) == Trim(v)
  {
    var w := " " + v;
    assert w[1..] == v;
  }

  lemma TrimTrimmed(v: string)
    requires IsTrimmed(v)
    ensures Trim(v) == v
  {
  }
}
