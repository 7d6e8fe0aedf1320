/** Fields whose names are repeated: which lists of fields are refused, and what the values of a name become. */
module Repetition {
  import opened Strings
  import opened Fields

  /** A field as it is written: blanks may stand in front of the value and behind it. */
  datatype Field = Field(name: string, before: string, value: string, after: string)

  /** The values given to a name, in their order. */
  function ValuesOf(xs: seq<Field>, name: string): (vs: seq<string>)
    ensures vs != [] <==> exists i :: 0 <= i < |xs| && xs[i].name == name
  {
    if xs == [] then [] else (if xs[0].name == name then [xs[0].value] else []) + ValuesOf(xs[1..], name)
  }

  /** The same behind the fields of `h`. */
  function AllValues(h: Headers, xs: seq<Field>, name: string): seq<string> {
    (if name in h then [h[name]] else []) + ValuesOf(xs, name)
  }

  function NonEmpty(vs: seq<string>): seq<string> {
    if vs == [] then [] else (if vs[0] == "" then [] else [vs[0]]) + NonEmpty(vs[1..])
  }

  /** The first value and the later ones that are not empty; of Set-Cookie the first one only. */
  function Kept(name: string, vs: seq<string>): seq<string>
    requires vs != []
  {
    if name == "Set-Cookie" then [vs[0]] else [vs[0]] + NonEmpty(vs[1..])
  }

  /** A list as one value. */
  function Listed(vs: seq<string>): string {
    if vs == [] then "" else if |vs| == 1 then vs[0] else vs[0] + ", " + Listed(vs[1..])
  }

  predicate TooMany(name: string, vs: seq<string>) {
    |vs| >= 2 && !CanRepeat(name)
  }

  /** Some name that is no list field is given twice. */
  ghost predicate Repeats(h: Headers, xs: seq<Field>) {
    exists name :: TooMany(name, AllValues(h, xs, name))
  }

  function NamesOf(xs: seq<Field>): (names: set<string>)
    ensures forall name :: name in names <==> ValuesOf(xs, name) != []
  {
    if xs == [] then {} else {xs[0].name} + NamesOf(xs[1..])
  }

  /** What the fields become if none of them is refused. */
  function Merged(h: Headers, xs: seq<Field>): Headers {
    map name | name in h.Keys + NamesOf(xs) :: Listed(Kept(name, AllValues(h, xs, name)))
  }

  // ------------------------------------------------------------------ adding the fields one by one

  /** `AddField`, field by field. */
  function AddedAll(h: Headers, xs: seq<Field>): Option<Headers>
    decreases |xs|
  {
    if xs == [] then Some(h)
    else
      match AddField(h, xs[0].name, xs[0].value)
      case None => None
      case Some(h') => AddedAll(h', xs[1..])
  }

  lemma ListedMerge(a: string, v: string, ws: seq<string>)
    ensures Listed([a, v] + ws) == Listed([a + ", " + v] + ws)
  {
    assert ([a, v] + ws)[1..] == [v] + ws;
    assert ([a + ", " + v] + ws)[1..] == ws;
    if ws == [] {
      assert Listed([v] + ws) == v;
    } else {
      assert ([v] + ws)[1..] == ws;
      assert Listed([v] + ws) == v + ", " + Listed(ws);
      assert (a + ", ") + (v + ", " + Listed(ws)) == (a + ", " + v) + ", " + Listed(ws);
    }
  }

  /** A repetition joined to the value there is. */
  lemma KeptMerge(name: string, a: string, v: string, vs: seq<string>, joined: string)
    requires joined == if name == "Set-Cookie" || v == "" then a else a + ", " + v
    ensures Listed(Kept(name, [a, v] + vs)) == Listed(Kept(name, [joined] + vs))
  {
    assert ([a, v] + vs)[1..] == [v] + vs && ([joined] + vs)[1..] == vs;
    if name != "Set-Cookie" {
      assert ([v] + vs)[1..] == vs;
      if v == "" {
        assert NonEmpty([v] + vs) == NonEmpty(vs);
      } else {
        assert NonEmpty([v] + vs) == [v] + NonEmpty(vs);
        assert [a] + ([v] + NonEmpty(vs)) == [a, v] + NonEmpty(vs);
        ListedMerge(a, v, NonEmpty(vs));
      }
    }
  }

  lemma ValuesBehind(x: Field, rest: seq<Field>, name: string)
    ensures ValuesOf([x] + rest, name) == (if x.name == name then [x.value] else []) + ValuesOf(rest, name)
  {
    assert ([x] + rest)[1..] == rest;
  }

  lemma RepeatedValue(h: Headers, h': Headers, x: Field, rest: seq<Field>)
    requires x.name in h && AddField(h, x.name, x.value) == Some(h')
    ensures CanRepeat(x.name)
    ensures Listed(Kept(x.name, AllValues(h', rest, x.name))) == Listed(Kept(x.name, AllValues(h, [x] + rest, x.name)))
  {
    var vs := ValuesOf(rest, x.name);
    ValuesBehind(x, rest, x.name);
    assert AllValues(h, [x] + rest, x.name) == [h[x.name], x.value] + vs;
    assert AllValues(h', rest, x.name) == [h'[x.name]] + vs;
    KeptMerge(x.name, h[x.name], x.value, vs, h'[x.name]);
  }

  lemma OtherValue(h: Headers, h': Headers, x: Field, rest: seq<Field>, name: string)
    requires (name != x.name || name !in h) && AddField(h, x.name, x.value) == Some(h')
    ensures AllValues(h', rest, name) == AllValues(h, [x] + rest, name)
  {
    ValuesBehind(x, rest, name);
  }

  lemma OneMoreName(h: Headers, h': Headers, x: Field, rest: seq<Field>, name: string)
    requires AddField(h, x.name, x.value) == Some(h')
    ensures name in h'.Keys + NamesOf(rest) <==> name in h.Keys + NamesOf([x] + rest)
  {
    ValuesBehind(x, rest, name);
  }

  lemma OneMoreValue(h: Headers, h': Headers, x: Field, rest: seq<Field>, name: string)
    requires AddField(h, x.name, x.value) == Some(h')
    ensures name in h'.Keys + NamesOf(rest) <==> name in h.Keys + NamesOf([x] + rest)
    ensures TooMany(name, AllValues(h', rest, name)) <==> TooMany(name, AllValues(h, [x] + rest, name))
    ensures name in h'.Keys + NamesOf(rest) ==>
              Listed(Kept(name, AllValues(h', rest, name))) == Listed(Kept(name, AllValues(h, [x] + rest, name)))
  {
    OneMoreName(h, h', x, rest, name);
    if name != x.name || name !in h {
      OtherValue(h, h', x, rest, name);
    } else {
      RepeatedValue(h, h', x, rest);
    }
  }

  lemma RefusedRepeats(h: Headers, x: Field, rest: seq<Field>)
    requires AddField(h, x.name, x.value).None?
    ensures Repeats(h, [x] + rest)
  {
    assert ([x] + rest)[1..] == rest;
    assert AllValues(h, [x] + rest, x.name) == [h[x.name], x.value] + ValuesOf(rest, x.name);
    assert TooMany(x.name, AllValues(h, [x] + rest, x.name));
  }

  lemma MergedNone(h: Headers)
    ensures Merged(h, []) == h && !Repeats(h, [])
  {
    forall name | name in h
      ensures Listed(Kept(name, AllValues(h, [], name))) == h[name]
    {
      assert AllValues(h, [], name) == [h[name]];
    }
  }

  lemma RepeatsAlike(h: Headers, h': Headers, x: Field, rest: seq<Field>)
    requires AddField(h, x.name, x.value) == Some(h')
    ensures Repeats(h', rest) <==> Repeats(h, [x] + rest)
  {
    if name :| TooMany(name, AllValues(h', rest, name)) {
      OneMoreValue(h, h', x, rest, name);
      assert TooMany(name, AllValues(h, [x] + rest, name));
    }
    if name :| TooMany(name, AllValues(h, [x] + rest, name)) {
      OneMoreValue(h, h', x, rest, name);
      assert TooMany(name, AllValues(h', rest, name));
    }
  }

  lemma MergedAlike(h: Headers, h': Headers, x: Field, rest: seq<Field>)
    requires AddField(h, x.name, x.value) == Some(h')
    ensures Merged(h', rest) == Merged(h, [x] + rest)
  {
    var one, other := Merged(h', rest), Merged(h, [x] + rest);
    forall name
      ensures (name in one <==> name in other) && (name in one ==> one[name] == other[name])
    {
      OneMoreValue(h, h', x, rest, name);
    }
  }

  /** Fields are refused if and only if some name that is no list field is given twice. Otherwise each name has its
      first value, followed by the later ones that are not empty, as a list; Set-Cookie keeps its first. */
  lemma {:induction false} AddedExactly(h: Headers, xs: seq<Field>)
    ensures AddedAll(h, xs) == if Repeats(h, xs) then None else Some(Merged(h, xs))
    decreases |xs|
  {
    if xs == [] {
      MergedNone(h);
      return;
    }
    assert xs == [xs[0]] + xs[1..];
    match AddField(h, xs[0].name, xs[0].value)
    case None => RefusedRepeats(h, xs[0], xs[1..]);
    case Some(h') =>
      AddedExactly(h', xs[1..]);
      RepeatsAlike(h, h', xs[0], xs[1..]);
      MergedAlike(h, h', xs[0], xs[1..]);
  }

  /** The fields `xs` give each name of `h` once, with its value there. */
  ghost predicate GivesOnce(xs: seq<Field>, h: Headers) {
    forall name :: ValuesOf(xs, name) == if name in h then [h[name]] else []
  }

  lemma NamesOnce(xs: seq<Field>, h: Headers)
    requires GivesOnce(xs, h)
    ensures NamesOf(xs) == h.Keys
  {
  }

  lemma ValueOnce(none: Headers, xs: seq<Field>, h: Headers, name: string)
    requires none == map[] && GivesOnce(xs, h)
    ensures !TooMany(name, AllValues(none, xs, name))
    ensures name in h ==> AllValues(none, xs, name) == [h[name]]
  {
    assert AllValues(none, xs, name) == ValuesOf(xs, name);
  }

  lemma ListedOnce(name: string, v: string)
    ensures Listed(Kept(name, [v])) == v
  {
  }

  lemma MergedKeys(none: Headers, xs: seq<Field>)
    requires none == map[]
    ensures Merged(none, xs).Keys == NamesOf(xs)
  {
  }

  lemma MergedAt(none: Headers, xs: seq<Field>, h: Headers, name: string)
    requires none == map[] && GivesOnce(xs, h) && name in h
    ensures name in Merged(none, xs) && Merged(none, xs)[name] == h[name]
  {
    ValueOnce(none, xs, h, name);
    ListedOnce(name, h[name]);
    NamesOnce(xs, h);
  }

  lemma NotRepeatedOnce(none: Headers, xs: seq<Field>, h: Headers)
    requires none == map[] && GivesOnce(xs, h)
    ensures !Repeats(none, xs)
  {
    forall name
      ensures !TooMany(name, AllValues(none, xs, name))
    {
      ValueOnce(none, xs, h, name);
    }
  }

  lemma SameFields(one: Headers, h: Headers)
    requires one.Keys == h.Keys && forall name :: name in h ==> one[name] == h[name]
    ensures one == h
  {
  }

  /** Fields that give every name once are merged to themselves. */
  lemma MergedOnce(none: Headers, xs: seq<Field>, h: Headers)
    requires none == map[] && GivesOnce(xs, h)
    ensures Merged(none, xs) == h && NamesOf(xs) == h.Keys && !Repeats(none, xs)
  {
    NamesOnce(xs, h);
    MergedKeys(none, xs);
    NotRepeatedOnce(none, xs, h);
    forall name | name in h
      ensures Merged(none, xs)[name] == h[name]
    {
      MergedAt(none, xs, h, name);
    }
    SameFields(Merged(none, xs), h);
  }

  // ------------------------------------------------------------------ the list in a value

  /** A value cut at the separators. */
  ghost function SplitList(s: string): (vs: seq<string>)
    decreases |s|
  {
    match Find(s, ", ", 0)
    case None => [s]
    case Some(p) => [s[..p]] + SplitList(s[p + 2..])
  }

  lemma SeparatorFirst(a: string, rest: string)
    requires Find(a, ", ", 0).None?
    ensures Find(a + ", " + rest, ", ", 0) == Some(|a|)
  {
    var s := a + ", " + rest;
    assert s[|a|..|a| + 2] == ", ";
    forall j | 0 <= j < |a|
      ensures !OccursAt(s, ", ", j)
    {
      if j + 2 <= |a| {
        assert s[j..j + 2] == a[j..j + 2];
        assert !OccursAt(a, ", ", j);
      } else {
        assert s[j..j + 2][1] == s[j + 1] == ',';
      }
    }
    FindIs(s, ", ", 0, |a|);
  }

  /** Values without separators are recovered from their list. */
  lemma {:induction false} SplitListed(vs: seq<string>)
    requires vs != [] && forall i :: 0 <= i < |vs| ==> Find(vs[i], ", ", 0).None?
    ensures SplitList(Listed(vs)) == vs
    decreases |vs|
  {
    if |vs| > 1 {
      SeparatorFirst(vs[0], Listed(vs[1..]));
      var s := Listed(vs);
      assert s[..|vs[0]|] == vs[0] && s[|vs[0]| + 2..] == Listed(vs[1..]);
      SplitListed(vs[1..]);
    }
  }
}
