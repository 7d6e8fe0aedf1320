/** Header sections as they are written, with blanks around values and with names repeated, and what either parser reads
    of them. */
module Wire {
  import opened Strings
  import opened Fields
  import opened Framing
  import opened Messages
  import opened RoundTrip
  import opened Repetition

  /** The optional whitespace of section 3.2.3 of RFC 7230. */
  predicate Ows(s: string) {
    forall c :: c in s ==> c == ' ' || c == '\t'
  }

  /** A field of section 3.2 of RFC 7230, with a value without line ends and outer blanks; its name may be no token. */
  predicate WellWritten(x: Field) {
    && LineName(x.name) && Ows(x.before) && Ows(x.after) && LF !in x.value
    && (x.value == "" || (!Ows(x.value[..1]) && !Ows(x.value[|x.value| - 1..])))
  }

  predicate AllWritten(xs: seq<Field>) {
    forall i :: 0 <= i < |xs| ==> WellWritten(xs[i])
  }

  function LineText(x: Field): string {
    x.name + ":" + (x.before + x.value + x.after)
  }

  function FieldsText(xs: seq<Field>): string {
    if xs == [] then "" else LineText(xs[0]) + CRLF + FieldsText(xs[1..])
  }

  /** Some field announces the chunked coding. */
  predicate Announces(xs: seq<Field>) {
    exists i :: 0 <= i < |xs| && xs[i].name == TRANSFER_ENCODING && xs[i].value == "chunked"
  }

  /** Some name is no token. */
  predicate SomeUnnamed(xs: seq<Field>) {
    exists i :: 0 <= i < |xs| && !ValidName(xs[i].name)
  }

  /** What a section of these fields is read as; `strict` is the request parser. */
  ghost function SectionOf(strict: bool, f: Section, xs: seq<Field>): Option<Section> {
    if (strict && SomeUnnamed(xs)) || Repeats(f.headers, xs) then None
    else Some(Section(Merged(f.headers, xs), f.chunked || Announces(xs)))
  }

  // ------------------------------------------------------------------ one line

  lemma OwsIsBlank(s: string)
    requires Ows(s)
    ensures AllBlank(s) && LF !in s && CR !in s
  {
    forall i | 0 <= i < |s|
      ensures IsBlank(s[i])
    {
      assert s[i] in s;
    }
  }

  lemma ValueTrimmed(x: Field)
    requires WellWritten(x)
    ensures IsTrimmed(x.value)
  {
    if x.value != "" {
      assert x.value[..1] == [x.value[0]] && x.value[|x.value| - 1..] == [x.value[|x.value| - 1]];
    }
  }

  lemma TrimWritten(x: Field)
    requires WellWritten(x)
    ensures Trim(x.before + x.value + x.after) == x.value
  {
    var v := x.before + x.value + x.after;
    OwsIsBlank(x.before);
    OwsIsBlank(x.after);
    ValueTrimmed(x);
    if x.value == "" {
      assert v == x.before + x.after;
      assert AllBlank(v[..|v|]) && v[|v|..] == "";
      TrimIs(v, |v|, "");
    } else {
      var i := |x.before|;
      assert v[..i] == x.before && v[i..i + |x.value|] == x.value && v[i + |x.value|..] == x.after;
      TrimIs(v, i, x.value);
    }
  }

  lemma LineClean(x: Field)
    requires WellWritten(x)
    ensures LF !in LineText(x) && LineText(x) != "" && LineText(x)[0] != CR
  {
    OwsIsBlank(x.before);
    OwsIsBlank(x.after);
    assert LineText(x)[0] == (x.name + ":")[0];
  }

  /** One more field; the request parser looks at its name first. */
  function Taken(strict: bool, f: Section, x: Field): Option<Section> {
    if strict && !ValidName(x.name) then None else AddValue(f, x.name, x.value)
  }

  /** A line is read as its name and its value. */
  lemma LineRead(strict: bool, f: Section, x: Field)
    requires WellWritten(x)
    ensures AddLine(strict, f, LineText(x) + [CR]) == Taken(strict, f, x)
  {
    var raw := x.before + x.value + x.after + [CR];
    var line := LineText(x) + [CR];
    assert line == x.name + ":" + raw;
    FindColon(x.name, raw);
    assert line[..|x.name|] == x.name && line[|x.name| + 1..] == raw;
    assert raw[..|raw| - 1] == x.before + x.value + x.after;
    TrimWritten(x);
  }

  /** A line without LF in front of one ends there. */
  lemma LineStands(t: string, c: nat, line: string, stop: nat)
    requires LF !in line && OccursAt(t, line + [LF], c) && c + |line| + 1 <= stop <= |t| && t[stop - 1] == LF
    ensures LineEnd(t, c, stop) == c + |line| && t[c..LineEnd(t, c, stop)] == line
  {
    OccursConcat(t, line, [LF], c);
    forall j | c <= j < c + |line|
      ensures t[j] != LF
    {
      OccursIndex(t, line, c, j - c);
    }
    OccursIndex(t, [LF], c + |line|, 0);
    FindCharIs(t, LF, c, c + |line|);
  }

  // ------------------------------------------------------------------ the section

  lemma LineTaken(rules: Rules, strict: bool, f: Section, x: Field)
    requires ReadAs(rules, strict) && WellWritten(x)
    ensures rules.addLine(f, LineText(x) + [CR]) == Taken(strict, f, x)
  {
    LineRead(strict, f, x);
    assert rules.addLine(f, LineText(x) + [CR]) == AddLine(strict, f, LineText(x) + [CR]);
  }

  lemma LineStep(rules: Rules, strict: bool, t: string, c: nat, f: Section, x: Field, stop: nat, c': nat)
    requires ReadAs(rules, strict) && WellWritten(x)
    requires OccursAt(t, LineText(x) + CRLF, c) && c' == c + |LineText(x)| + 2
    requires c' <= stop <= |t| && t[stop - 1] == LF
    ensures AddLines(rules, f, Lines(t, c, stop)) ==
            match Taken(strict, f, x)
            case None => None
            case Some(f') => if c' == stop then Some(f') else AddLines(rules, f', Lines(t, c', stop))
  {
    var line := LineText(x) + [CR];
    assert LineText(x) + CRLF == line + [LF];
    LineClean(x);
    LineStands(t, c, line, stop);
    LineTaken(rules, strict, f, x);
    AddLinesStep(rules, f, t, c, stop);
  }

  /** `t[c..stop]` are these fields. */
  predicate FieldsStandAt(t: string, c: nat, xs: seq<Field>, stop: nat) {
    xs != [] && OccursAt(t, FieldsText(xs), c) && stop == c + |FieldsText(xs)|
  }

  lemma {:induction false} FieldsEnd(xs: seq<Field>)
    requires xs != []
    ensures var s := FieldsText(xs); |s| > 2 && s[|s| - 2] == CR && s[|s| - 1] == LF
    decreases |xs|
  {
    if |xs| > 1 {
      FieldsEnd(xs[1..]);
    } else {
      assert FieldsText(xs[1..]) == "";
      assert FieldsText(xs) == LineText(xs[0]) + CRLF;
    }
  }

  lemma FirstFieldStands(t: string, c: nat, xs: seq<Field>, stop: nat, c': nat)
    requires FieldsStandAt(t, c, xs, stop) && c' == c + |LineText(xs[0])| + 2
    ensures c < c' <= stop <= |t| && t[stop - 1] == LF && OccursAt(t, LineText(xs[0]) + CRLF, c)
    ensures c' == stop <==> xs[1..] == []
    ensures xs[1..] != [] ==> FieldsStandAt(t, c', xs[1..], stop)
  {
    FieldsEnd(xs);
    OccursIndex(t, FieldsText(xs), c, |FieldsText(xs)| - 1);
    OccursConcat(t, LineText(xs[0]) + CRLF, FieldsText(xs[1..]), c);
    if xs[1..] != [] {
      FieldsEnd(xs[1..]);
    }
  }

  /** The header loop, as the fields added one by one. */
  ghost function Folded(strict: bool, f: Section, xs: seq<Field>): Option<Section>
    decreases |xs|
  {
    if xs == [] then Some(f)
    else
      match Taken(strict, f, xs[0])
      case None => None
      case Some(f') => Folded(strict, f', xs[1..])
  }

  lemma {:induction false} LoopFolds(rules: Rules, strict: bool, t: string, c: nat, f: Section, xs: seq<Field>,
                                     stop: nat)
    requires ReadAs(rules, strict) && AllWritten(xs) && FieldsStandAt(t, c, xs, stop)
    ensures c < stop <= |t| && t[stop - 1] == LF && AddLines(rules, f, Lines(t, c, stop)) == Folded(strict, f, xs)
    decreases |xs|
  {
    var c' := c + |LineText(xs[0])| + 2;
    FirstFieldStands(t, c, xs, stop, c');
    LineStep(rules, strict, t, c, f, xs[0], stop, c');
    match Taken(strict, f, xs[0])
    case None =>
    case Some(f') =>
      if xs[1..] != [] {
        assert forall i :: 0 <= i < |xs[1..]| ==> xs[1..][i] == xs[i + 1];
        LoopFolds(rules, strict, t, c', f', xs[1..], stop);
      }
  }

  lemma {:induction false} FoldedIs(strict: bool, f: Section, xs: seq<Field>)
    ensures Folded(strict, f, xs) ==
            if strict && SomeUnnamed(xs) then None
            else
              match AddedAll(f.headers, xs)
              case None => None
              case Some(h) => Some(Section(h, f.chunked || Announces(xs)))
    decreases |xs|
  {
    if xs == [] { return; }
    UnnamedFirst(xs);
    match Taken(strict, f, xs[0])
    case None =>
    case Some(f') =>
      FoldedIs(strict, f', xs[1..]);
      AnnouncesFirst(xs);
  }

  lemma UnnamedFirst(xs: seq<Field>)
    requires xs != []
    ensures SomeUnnamed(xs) <==> !ValidName(xs[0].name) || SomeUnnamed(xs[1..])
  {
    if SomeUnnamed(xs[1..]) {
      var i :| 0 <= i < |xs[1..]| && !ValidName(xs[1..][i].name);
      assert xs[i + 1] == xs[1..][i];
    }
    if i :| 0 < i < |xs| && !ValidName(xs[i].name) {
      assert xs[1..][i - 1] == xs[i];
    }
  }

  lemma AnnouncesFirst(xs: seq<Field>)
    requires xs != []
    ensures Announces(xs) <==> (xs[0].name == TRANSFER_ENCODING && xs[0].value == "chunked") || Announces(xs[1..])
  {
    if Announces(xs[1..]) {
      var i :| 0 <= i < |xs[1..]| && xs[1..][i].name == TRANSFER_ENCODING && xs[1..][i].value == "chunked";
      assert xs[i + 1] == xs[1..][i];
    }
    if i :| 0 < i < |xs| && xs[i].name == TRANSFER_ENCODING && xs[i].value == "chunked" {
      assert xs[1..][i - 1] == xs[i];
    }
  }

  /** What the header loop of either parser makes of a section as it is written. */
  lemma SectionRead(rules: Rules, strict: bool, t: string, c: nat, f: Section, xs: seq<Field>, stop: nat)
    requires ReadAs(rules, strict) && AllWritten(xs) && FieldsStandAt(t, c, xs, stop)
    ensures c < stop <= |t| && t[stop - 1] == LF && AddLines(rules, f, Lines(t, c, stop)) == SectionOf(strict, f, xs)
  {
    LoopFolds(rules, strict, t, c, f, xs, stop);
    FoldedIs(strict, f, xs);
    AddedExactly(f.headers, xs);
  }

  // ------------------------------------------------------------------ the head

  /** First line, fields and blank line. */
  function HeadText(first: string, xs: seq<Field>): string {
    first + CRLF + FieldsText(xs) + CRLF
  }

  lemma {:induction false} FieldsTight(xs: seq<Field>)
    requires AllWritten(xs)
    ensures var s := FieldsText(xs); Tight(s) && (s != "" ==> s[|s| - 1] == LF && s[0] != CR)
    decreases |xs|
  {
    if xs == [] { return; }
    var line, rest := LineText(xs[0]) + CRLF, FieldsText(xs[1..]);
    LineClean(xs[0]);
    LineTight(LineText(xs[0]));
    assert forall i :: 0 <= i < |xs[1..]| ==> xs[1..][i] == xs[i + 1];
    FieldsTight(xs[1..]);
    TightConcat(line, rest);
    FieldsEnd(xs);
    assert FieldsText(xs) == line + rest;
  }

  lemma LineTight(line: string)
    requires LF !in line
    ensures Tight(line + CRLF) && (line + CRLF)[|line| + 1] == LF
    ensures forall j :: 0 <= j < |line| + 1 ==> (line + CRLF)[j] != LF
  {
    var s := line + CRLF;
    forall j | 0 <= j < |line| + 1
      ensures s[j] != LF
    {
      if j < |line| { assert s[j] == line[j] && line[j] in line; }
    }
  }

  lemma PartsStand(first: string, fl: string, t: string, n: nat)
    requires LF !in first && |fl| > 2 && fl[|fl| - 2] == CR && fl[|fl| - 1] == LF && fl[0] != CR && Tight(fl)
    requires first + CRLF + fl + CRLF <= t && n == |first| + |fl| + 4
    ensures Find(t, CRLFCRLF, 0) == Some(n - 4) && Find(t, [LF], 0) == Some(|first| + 1)
    ensures t[..|first| + 1] == first + [CR] && OccursAt(t, fl, |first| + 2)
  {
    var st := first + CRLF;
    LineTight(first);
    TightConcat(st, fl);
    assert st + fl + CRLF + "" == first + CRLF + fl + CRLF;
    PartsOccur(t, st, fl, "");
    FirstLfOf(t, st);
    assert st[..|st| - 1] == first + [CR];
    assert (st + fl)[|st + fl| - 2] == fl[|fl| - 2] && (st + fl)[|st + fl| - 1] == fl[|fl| - 1];
    BlankLineBehind(t, st + fl);
  }

  /** Where the parts of a head stand. */
  lemma HeadStands(first: string, xs: seq<Field>, t: string, n: nat)
    requires LF !in first && xs != [] && AllWritten(xs) && HeadText(first, xs) <= t && n == |HeadText(first, xs)|
    ensures n >= |first| + 7 && Find(t, CRLFCRLF, 0) == Some(n - 4) && Find(t, [LF], 0) == Some(|first| + 1)
    ensures t[..|first| + 1] == first + [CR] && FieldsStandAt(t, |first| + 2, xs, n - 2)
  {
    FieldsEnd(xs);
    FieldsTight(xs);
    PartsStand(first, FieldsText(xs), t, n);
  }

  /** A section that is accepted makes a head of `n` bytes. */
  ghost function HeadOf<T>(g: Grammar<T>, start: StartLine, section: Option<Section>, n: nat): Scan<Head> {
    if section.Some? && g.accept(section.value.headers) then Ok(Head(start, section.value), n) else Bad
  }

  /** `t` has its first line end behind `first` and CR, and its first blank line end at `n`. */
  ghost predicate FirstLineAt(first: string, t: string, n: nat) {
    && |first| + 7 <= n && Find(t, CRLFCRLF, 0) == Some(n - 4) && Find(t, [LF], 0) == Some(|first| + 1)
    && |first| + 1 <= |t| && t[..|first| + 1] == first + [CR]
  }

  lemma HeadIsThere(first: string, xs: seq<Field>, t: string, n: nat)
    requires LF !in first && xs != [] && AllWritten(xs) && HeadText(first, xs) <= t && n == |HeadText(first, xs)|
    ensures FirstLineAt(first, t, n) && FieldsStandAt(t, |first| + 2, xs, n - 2)
  {
    HeadStands(first, xs, t, n);
  }

  /** The header loop, with `f` in front, reads `t[c..stop]` as `section`. */
  ghost predicate LoopGives(rules: Rules, f: Section, t: string, c: nat, stop: nat, section: Option<Section>) {
    c < stop <= |t| && t[stop - 1] == LF && AddLines(rules, f, Lines(t, c, stop)) == section
  }

  lemma LoopReads(rules: Rules, strict: bool, f: Section, xs: seq<Field>, t: string, c: nat, stop: nat)
    requires ReadAs(rules, strict) && AllWritten(xs)
    ensures FieldsStandAt(t, c, xs, stop) ==> LoopGives(rules, f, t, c, stop, SectionOf(strict, f, xs))
  {
    if FieldsStandAt(t, c, xs, stop) {
      SectionRead(rules, strict, t, c, f, xs, stop);
    }
  }

  lemma HeadJudged<T>(g: Grammar<T>, first: string, start: StartLine, t: string, n: nat, section: Option<Section>)
    requires g.startLine(first + [CR]) == Some(start)
    ensures FirstLineAt(first, t, n) && LoopGives(g.rules, EMPTY_SECTION, t, |first| + 2, n - 2, section) ==>
              ReadHead(g, t) == HeadOf(g, start, section, n)
  {
    if FirstLineAt(first, t, n) && LoopGives(g.rules, EMPTY_SECTION, t, |first| + 2, n - 2, section) {
      ReadHeadFrom(g, t, n - 4, |first| + 1, start, section);
    }
  }

  lemma HeadReadAt<T>(g: Grammar<T>, strict: bool, first: string, start: StartLine, xs: seq<Field>, t: string, n: nat)
    requires ReadAs(g.rules, strict) && AllWritten(xs) && g.startLine(first + [CR]) == Some(start)
    ensures FirstLineAt(first, t, n) && FieldsStandAt(t, |first| + 2, xs, n - 2) ==>
              ReadHead(g, t) == HeadOf(g, start, SectionOf(strict, EMPTY_SECTION, xs), n)
  {
    if FirstLineAt(first, t, n) {
      LoopReads(g.rules, strict, EMPTY_SECTION, xs, t, |first| + 2, n - 2);
      HeadJudged(g, first, start, t, n, SectionOf(strict, EMPTY_SECTION, xs));
    }
  }

  /** What either parser makes of a head as it is written: refused if a name that is no list field is repeated or, in a
      request, a name is no token; otherwise its start line and the fields as they are merged. */
  lemma HeadRead<T>(g: Grammar<T>, strict: bool, first: string, start: StartLine, xs: seq<Field>, t: string)
    requires ReadAs(g.rules, strict) && LF !in first && g.startLine(first + [CR]) == Some(start)
    requires xs != [] && AllWritten(xs) && HeadText(first, xs) <= t
    ensures ReadHead(g, t) == HeadOf(g, start, SectionOf(strict, EMPTY_SECTION, xs), |HeadText(first, xs)|)
  {
    HeadIsThere(first, xs, t, |HeadText(first, xs)|);
    HeadReadAt(g, strict, first, start, xs, t, |HeadText(first, xs)|);
  }

  /** A head without fields is refused. */
  lemma EmptyHeadRefused<T>(g: Grammar<T>, first: string, t: string)
    requires LF !in first && HeadText(first, []) <= t
    ensures ReadHead(g, t).Bad? && Find(t, CRLFCRLF, 0).Some?
  {
    var st := first + CRLF;
    LineTight(first);
    assert st + "" + CRLF + "" == HeadText(first, []);
    PartsOccur(t, st, "", "");
    FirstLfOf(t, st);
    assert st + "" == st;
    BlankLineBehind(t, st);
    ReadHeadIs(g, t, |first|, |first| + 1);
  }
}
