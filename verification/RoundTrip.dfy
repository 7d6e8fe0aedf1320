/** Serialised requests, and what the parser makes of them. */
module RoundTrip {
  import opened Strings
  import opened Numbers
  import opened Fields
  import opened Framing
  import opened Messages
  import opened Scanning
  import opened Requests

  // ------------------------------------------------------------------ serialize

  function FieldLine(name: string, value: string): string {
    name + ": " + value + CRLF
  }

  /** The header map written out in the order an iteration visits it. */
  function FieldLines(h: Headers, order: seq<string>): string
    requires forall k :: k in order ==> k in h
  {
    if order == [] then "" else FieldLine(order[0], h[order[0]]) + FieldLines(h, order[1..])
  }

  /** `order` visits every key of `h` exactly once. */
  ghost predicate OrderOf(order: seq<string>, h: Headers) {
    && (forall i, j :: 0 <= i < j < |order| ==> order[i] != order[j])
    && (forall k :: k in order <==> k in h)
  }

  function StartText(r: Request): string {
    r.verb + " " + r.url + " " + HTTP_1_1 + CRLF
  }

  function Serialize(r: Request, order: seq<string>): string
    requires forall k :: k in order ==> k in r.headers
  {
    StartText(r) + FieldLines(r.headers, order) + CRLF + r.body
  }

  // ------------------------------------------------------------------ the shape of requests

  ghost predicate NoCrlf(s: string) {
    forall i :: 0 <= i && i + 1 < |s| ==> !(s[i] == CR && s[i + 1] == LF)
  }

  /** Field names are tokens, and no value holds a line end; a trailer may leave a bare LF in one. */
  ghost predicate ShapedFields(h: Headers) {
    forall k :: k in h ==> ValidName(k) && NoCrlf(h[k])
  }

  /** A request whose head can be written: whatever its body stands for. */
  ghost predicate ShapedHead(r: Request) {
    && r.verb in METHODS
    && r.url != "" && ' ' !in r.url && LF !in r.url
    && HOST in r.headers && r.host == r.headers[HOST]
    && ShapedFields(r.headers)
  }

  /** What every accepted request satisfies, the framing of its body apart. */
  ghost predicate Shaped(r: Request) {
    ShapedHead(r) && TRANSFER_ENCODING !in r.headers
  }

  /** The fields ask for the chunked coding. */
  predicate SaysChunked(h: Headers) {
    TRANSFER_ENCODING in h && Trim(h[TRANSFER_ENCODING]) == "chunked"
  }

  predicate Framed(r: Request) {
    FramedBy(r.headers, r.body)
  }

  /** The Content-Length says how long the body is; without one there is no body. */
  predicate FramedBy(h: Headers, body: string) {
    if CONTENT_LENGTH in h then BodyLength(h[CONTENT_LENGTH]) == Some(|body|) else body == ""
  }

  predicate NoLineFeed(h: Headers) {
    forall k :: k in h ==> LF !in h[k]
  }

  predicate AllTrimmed(h: Headers) {
    forall k :: k in h ==> IsTrimmed(h[k])
  }

  /** A request that survives being written and read. */
  predicate Faithful(r: Request) {
    NoLineFeed(r.headers) && AllTrimmed(r.headers) && Framed(r)
  }

  function TrimValues(h: Headers): Headers {
    map k | k in h :: Trim(h[k])
  }

  /** The fields as the header loop leaves them. */
  function TrimmedSection(h: Headers): Section {
    Section(TrimValues(h), SaysChunked(h))
  }

  /** The iteration writes one more field. */
  lemma {:induction false} FieldLinesAppend(h: Headers, order: seq<string>, k: string)
    requires k in h && forall j :: j in order ==> j in h
    ensures FieldLines(h, order + [k]) == FieldLines(h, order) + FieldLine(k, h[k])
    decreases |order|
  {
    if order == [] {
      assert order + [k] == [k];
      assert FieldLines(h, [k][1..]) == "";
    } else {
      assert (order + [k])[1..] == order[1..] + [k];
      FieldLinesAppend(h, order[1..], k);
    }
  }

  // ------------------------------------------------------------------ one field line

  /** A section with one more field. */
  function WithField(f: Section, name: string, value: string): Section {
    Section(f.headers[name := Trim(value)], f.chunked || (name == TRANSFER_ENCODING && Trim(value) == "chunked"))
  }

  /** What can stand in front of the colon of a field line. */
  predicate LineName(name: string) {
    ':' !in name && CR !in name && LF !in name
  }

  lemma NameHasNoColon(name: string)
    requires ValidName(name)
    ensures LineName(name)
  {
    forall i | 0 <= i < |name|
      ensures name[i] != ':' && name[i] != CR && name[i] != LF
    {
      assert IsTokenChar(name[i]);
    }
  }

  lemma FindColon(name: string, rest: string)
    requires LineName(name)
    ensures Find(name + ":" + rest, ":", 0) == Some(|name|)
  {
    var line := name + ":" + rest;
    forall j | 0 <= j < |name|
      ensures line[j] != ':'
    {
      assert line[j] == name[j];
    }
    FindCharIs(line, ':', 0, |name|);
  }

  /** A serialised line is read back. */
  lemma LineReadBack(f: Section, name: string, value: string)
    requires ValidName(name) && name !in f.headers
    ensures AddLine(true, f, name + ": " + value + [CR]) == Some(WithField(f, name, value))
  {
    var raw := " " + value + [CR];
    var line := name + ": " + value + [CR];
    assert line == name + ":" + raw;
    NameHasNoColon(name);
    FindColon(name, raw);
    assert line[..|name|] == name;
    assert line[|name| + 1..] == raw;
    assert raw[..|raw| - 1] == " " + value;
    TrimAfterSpace(value);
    assert AddField(f.headers, name, Trim(value)) == Some(f.headers[name := Trim(value)]);
  }

  /** A line cut short by an LF inside the value does not end in CR and is refused. */
  lemma CutLineRefused(f: Section, name: string, cut: string)
    requires ValidName(name) && (cut == "" || cut[|cut| - 1] != CR)
    ensures AddLine(true, f, name + ": " + cut).None?
  {
    var raw := " " + cut;
    var line := name + ": " + cut;
    assert line == name + ":" + raw;
    NameHasNoColon(name);
    FindColon(name, raw);
    assert line[|name| + 1..] == raw;
  }

  // ------------------------------------------------------------------ the header section

  /** What the header loop makes of the fields of `h` in that order: each value trimmed. */
  ghost function AddAll(f: Section, h: Headers, order: seq<string>): Section
    requires forall k :: k in order ==> k in h
    decreases |order|
  {
    if order == [] then f
    else AddAll(WithField(f, order[0], h[order[0]]), h, order[1..])
  }

  lemma {:induction false} AddAllIs(f: Section, h: Headers, order: seq<string>)
    requires forall k :: k in order ==> k in h
    requires forall i, j :: 0 <= i < j < |order| ==> order[i] != order[j]
    ensures AddAll(f, h, order).chunked ==
            (f.chunked || (TRANSFER_ENCODING in order && Trim(h[TRANSFER_ENCODING]) == "chunked"))
    ensures forall k :: k in AddAll(f, h, order).headers <==> k in f.headers || k in order
    ensures forall k :: k in order ==> AddAll(f, h, order).headers[k] == Trim(h[k])
    ensures forall k :: k in f.headers && k !in order ==> AddAll(f, h, order).headers[k] == f.headers[k]
    decreases |order|
  {
    if order != [] {
      var f' := WithField(f, order[0], h[order[0]]);
      AddAllIs(f', h, order[1..]);
      assert forall k :: k in order <==> k == order[0] || k in order[1..];
    }
  }

  /** The fields of `h` in that order are ones the header loop can take, none of them known to `f` yet. */
  ghost predicate Readable(f: Section, h: Headers, order: seq<string>) {
    && (forall k :: k in order ==> k in h && ValidName(k) && NoCrlf(h[k]) && k !in f.headers)
    && (forall i, j :: 0 <= i < j < |order| ==> order[i] != order[j])
  }

  lemma ReadableRest(f: Section, h: Headers, order: seq<string>)
    requires Readable(f, h, order) && order != []
    ensures Readable(WithField(f, order[0], h[order[0]]), h, order[1..])
  {
    forall k | k in order[1..]
      ensures k in order && k != order[0]
    {
      var i :| 0 <= i < |order[1..]| && order[1..][i] == k;
      assert order[i + 1] == k;
    }
  }

  /** Where the first line of a serialised field ends: at its CRLF, or at an LF inside the value. */
  lemma FirstLineOfField(t: string, c: nat, name: string, value: string, stop: nat)
    requires ValidName(name) && OccursAt(t, FieldLine(name, value), c)
    requires c + |FieldLine(name, value)| <= stop <= |t| && t[stop - 1] == LF
    ensures LF !in value ==>
              && LineEnd(t, c, stop) == c + |FieldLine(name, value)| - 1
              && t[c..LineEnd(t, c, stop)] == name + ": " + value + [CR]
    ensures LF in value ==>
              exists i: nat :: i < |value| && value[i] == LF && t[c..LineEnd(t, c, stop)] == name + ": " + value[..i]
  {
    var text := FieldLine(name, value);
    NameHasNoColon(name);
    FindChar(value, LF, 0);
    var i := if LF in value then Find(value, [LF], 0).value else |value| + 1;
    var e := c + |name| + 2 + i;
    forall j | c <= j <= e
      ensures t[j] == text[j - c]
    {
      OccursIndex(t, text, c, j - c);
    }
    assert value[0..] == value;
    forall j | c <= j < e
      ensures t[j] != LF
    {
      if c + |name| + 2 <= j < c + |name| + 2 + |value| {
        assert text[j - c] == value[j - c - |name| - 2];
        assert LF in value ==> value[0..i][j - c - |name| - 2] != LF;
      }
    }
    FindCharIs(t, LF, c, e);
    assert t[c..e] == text[..e - c] by {
      assert t[c..c + |text|] == text;
      assert t[c..e] == t[c..c + |text|][..e - c];
    }
    assert text[..e - c] == name + ": " + if LF in value then value[..i] else value + [CR];
  }

  /** The first turn of the header loop over a serialised field. */
  lemma FirstFieldReadBack(rules: Rules, t: string, c: nat, f: Section, name: string, value: string, stop: nat)
    requires ReadAs(rules, true) && ValidName(name) && name !in f.headers && NoCrlf(value)
    requires OccursAt(t, FieldLine(name, value), c)
    requires c + |FieldLine(name, value)| <= stop <= |t| && t[stop - 1] == LF
    ensures rules.addLine(f, t[c..LineEnd(t, c, stop)]) ==
            if LF in value then None else Some(WithField(f, name, value))
    ensures LF !in value ==> LineEnd(t, c, stop) == c + |FieldLine(name, value)| - 1
  {
    FirstLineOfField(t, c, name, value, stop);
    var line := t[c..LineEnd(t, c, stop)];
    assert rules.addLine(f, line) == AddLine(true, f, line);
    if LF in value {
      var i: nat :| i < |value| && value[i] == LF && line == name + ": " + value[..i];
      CutLineRefused(f, name, value[..i]);
    } else {
      LineReadBack(f, name, value);
    }
  }

  /** No value of these fields holds an LF. */
  ghost predicate Clean(h: Headers, order: seq<string>) {
    forall k :: k in order ==> k in h && LF !in h[k]
  }

  /** Serialised fields taken apart: the first one and the others. */
  lemma FieldLinesSplit(t: string, c: nat, h: Headers, order: seq<string>)
    requires order != [] && (forall k :: k in order ==> k in h) && OccursAt(t, FieldLines(h, order), c)
    ensures var text := FieldLine(order[0], h[order[0]]);
            && OccursAt(t, text, c)
            && OccursAt(t, FieldLines(h, order[1..]), c + |text|)
            && |FieldLines(h, order)| == |text| + |FieldLines(h, order[1..])|
  {
    OccursConcat(t, FieldLine(order[0], h[order[0]]), FieldLines(h, order[1..]), c);
  }

  lemma {:induction false} FieldLinesEnd(t: string, c: nat, h: Headers, order: seq<string>)
    requires order != [] && (forall k :: k in order ==> k in h) && OccursAt(t, FieldLines(h, order), c)
    ensures |FieldLines(h, order)| > 0 && t[c + |FieldLines(h, order)| - 1] == LF
    decreases |order|
  {
    FieldLinesSplit(t, c, h, order);
    var text := FieldLine(order[0], h[order[0]]);
    if |order| > 1 {
      FieldLinesEnd(t, c + |text|, h, order[1..]);
    } else {
      OccursIndex(t, text, c, |text| - 1);
    }
  }

  /** One serialised field taken off the front. */
  lemma FieldStep(rules: Rules, t: string, c: nat, f: Section, name: string, value: string, stop: nat, c': nat)
    requires ReadAs(rules, true) && ValidName(name) && name !in f.headers && NoCrlf(value)
    requires OccursAt(t, FieldLine(name, value), c) && c' == c + |FieldLine(name, value)|
    requires c' <= stop <= |t| && t[stop - 1] == LF
    ensures AddLines(rules, f, Lines(t, c, stop)) ==
            if LF in value then None
            else if c' == stop then Some(WithField(f, name, value))
            else AddLines(rules, WithField(f, name, value), Lines(t, c', stop))
  {
    FirstFieldReadBack(rules, t, c, f, name, value, stop);
    AddLinesStep(rules, f, t, c, stop);
  }

  /** What the header loop makes of these fields. */
  ghost function ReadBack(f: Section, h: Headers, order: seq<string>): Option<Section>
    requires forall k :: k in order ==> k in h
  {
    if Clean(h, order) then Some(AddAll(f, h, order)) else None
  }

  lemma ReadBackStep(f: Section, h: Headers, order: seq<string>, value: string)
    requires order != [] && (forall k :: k in order ==> k in h) && value == h[order[0]]
    ensures ReadBack(f, h, order) ==
            if LF in value then None else ReadBack(WithField(f, order[0], value), h, order[1..])
  {
    if LF !in value {
      CleanRest(h, order);
    } else {
      assert !Clean(h, order);
    }
  }

  /** `t[c..stop]` are the lines of these fields. */
  predicate FieldsStand(t: string, c: nat, h: Headers, order: seq<string>, stop: nat) {
    && order != [] && (forall k :: k in order ==> k in h)
    && OccursAt(t, FieldLines(h, order), c) && stop == c + |FieldLines(h, order)| && t[stop - 1] == LF
  }

  lemma FirstStands(t: string, c: nat, h: Headers, order: seq<string>, stop: nat, c': nat)
    requires FieldsStand(t, c, h, order, stop) && c' == c + |FieldLine(order[0], h[order[0]])|
    ensures c' <= stop <= |t| && OccursAt(t, FieldLine(order[0], h[order[0]]), c)
    ensures c' == stop <==> order[1..] == []
    ensures order[1..] != [] ==> FieldsStand(t, c', h, order[1..], stop)
  {
    FieldLinesSplit(t, c, h, order);
    if order[1..] != [] {
      FieldLinesEnd(t, c', h, order[1..]);
    }
  }

  /** The header loop over serialised fields: all of them if no value holds an LF, refused otherwise. */
  lemma {:induction false} FieldsReadBack(rules: Rules, t: string, c: nat, f: Section, h: Headers,
                                          order: seq<string>, stop: nat)
    requires ReadAs(rules, true) && Readable(f, h, order) && FieldsStand(t, c, h, order, stop)
    ensures c < stop <= |t| && AddLines(rules, f, Lines(t, c, stop)) == ReadBack(f, h, order)
    decreases |order|
  {
    var k, value := order[0], h[order[0]];
    var c' := c + |FieldLine(k, value)|;
    FirstStands(t, c, h, order, stop, c');
    ReadBackStep(f, h, order, value);
    FieldStep(rules, t, c, f, k, value, stop, c');
    if LF !in value && order[1..] != [] {
      ReadableRest(f, h, order);
      FieldsReadBack(rules, t, c', WithField(f, k, value), h, order[1..], stop);
    }
  }

  lemma CleanRest(h: Headers, order: seq<string>)
    requires order != [] && order[0] in h && LF !in h[order[0]]
    ensures Clean(h, order) == Clean(h, order[1..])
  {
    assert forall k :: k in order <==> k == order[0] || k in order[1..];
  }

  // ------------------------------------------------------------------ where the head ends

  /** No CRLF of `s` is followed by CR, so `s` holds no blank line. */
  ghost predicate Tight(s: string) {
    forall j :: 0 <= j && j + 2 < |s| && s[j] == CR && s[j + 1] == LF ==> s[j + 2] != CR
  }

  lemma TightConcat(a: string, b: string)
    requires Tight(a) && Tight(b)
    requires a == "" || a[|a| - 1] == LF
    requires b == "" || b[0] != CR
    ensures Tight(a + b)
  {
    var s := a + b;
    forall j | 0 <= j && j + 2 < |s| && s[j] == CR && s[j + 1] == LF
      ensures s[j + 2] != CR
    {
      if j + 2 < |a| {
        assert a[j] == CR && a[j + 1] == LF && a[j + 2] == s[j + 2];
      } else if j >= |a| {
        assert b[j - |a|] == CR && b[j + 1 - |a|] == LF && b[j + 2 - |a|] == s[j + 2];
      }
    }
  }

  lemma FieldLineTight(name: string, value: string)
    requires ValidName(name) && NoCrlf(value)
    ensures var s := FieldLine(name, value); Tight(s) && s[|s| - 1] == LF && s[0] != CR
  {
    NameHasNoColon(name);
    var s, p := FieldLine(name, value), |name| + 2;
    assert s[0] == name[0];
    assert forall j :: 0 <= j < |name| ==> s[j] == name[j];
    assert forall j :: p <= j < p + |value| ==> s[j] == value[j - p];
  }

  lemma {:induction false} FieldLinesTight(h: Headers, order: seq<string>)
    requires forall k :: k in order ==> k in h && ValidName(k) && NoCrlf(h[k])
    ensures var s := FieldLines(h, order); Tight(s) && (s != "" ==> s[|s| - 1] == LF && s[0] != CR)
    decreases |order|
  {
    if order != [] {
      FieldLineTight(order[0], h[order[0]]);
      FieldLinesTight(h, order[1..]);
      TightConcat(FieldLine(order[0], h[order[0]]), FieldLines(h, order[1..]));
    }
  }

  /** The first blank line stands right behind a tight head that ends in CRLF. */
  lemma BlankLineBehind(t: string, head: string)
    requires Tight(head) && |head| >= 2 && OccursAt(t, head + CRLF, 0)
    requires head[|head| - 2] == CR && head[|head| - 1] == LF
    ensures Find(t, CRLFCRLF, 0) == Some(|head| - 2)
  {
    var n := |head|;
    OccursConcat(t, head, CRLF, 0);
    OccursCrlf(t, n);
    forall j: nat | j < n
      ensures t[j] == head[j]
    {
      OccursIndex(t, head, 0, j);
    }
    OccursCrlfCrlf(t, n - 2);
    forall j: nat | j < n - 2
      ensures !OccursAt(t, CRLFCRLF, j)
    {
      OccursCrlfCrlf(t, j);
    }
    FindIs(t, CRLFCRLF, 0, n - 2);
  }

  // ------------------------------------------------------------------ the request line

  lemma StartTextIs(r: Request)
    requires ShapedHead(r)
    ensures var s := StartText(r);
            && Tight(s) && |s| > 2 && s[|s| - 2] == CR && s[|s| - 1] == LF
            && (forall j :: 0 <= j < |s| - 1 ==> s[j] != LF)
            && s[..|s| - 1] == r.verb + " " + r.url + " " + HTTP_1_1 + [CR]
  {
    var s := StartText(r);
    var line := r.verb + " " + r.url + " " + HTTP_1_1 + [CR];
    assert s == line + [LF];
    assert LF !in r.verb;
    assert LF !in HTTP_1_1;
    assert LF !in line;
  }

  lemma RequestLineReadBack(verb: string, url: string)
    requires verb in METHODS && url != "" && ' ' !in url
    ensures ReadRequestLine(verb + " " + url + " " + HTTP_1_1 + [CR]) == Some(RequestLine(verb, url))
  {
    var line := verb + " " + url + " " + HTTP_1_1 + [CR];
    var p, q := |verb|, |verb| + 1 + |url|;
    assert ' ' !in verb;
    assert line[..p] == verb && line[p + 1..q] == url && line[q + 1..] == HTTP_1_1 + [CR];
    assert forall j :: 0 <= j < p ==> line[j] == verb[j];
    FindCharIs(line, ' ', 0, p);
    assert forall j :: p + 1 <= j < q ==> line[j] == url[j - p - 1];
    FindCharIs(line, ' ', p + 1, q);
  }

  // ------------------------------------------------------------------ the whole message

  /** The length of what comes before the body. */
  function HeadLength(r: Request, order: seq<string>): nat
    requires forall k :: k in order ==> k in r.headers
  {
    |StartText(r)| + |FieldLines(r.headers, order)| + 2
  }

  lemma PartsOccur(t: string, st: string, fl: string, body: string)
    requires st + fl + CRLF + body <= t
    ensures OccursAt(t, st, 0) && OccursAt(t, fl, |st|) && OccursAt(t, st + fl + CRLF, 0)
    ensures OccursAt(t, body, |st| + |fl| + 2)
  {
    var whole := st + fl + CRLF + body;
    assert t[0..|whole|] == whole;
    OccursConcat(t, st + fl + CRLF, body, 0);
    OccursConcat(t, st + fl, CRLF, 0);
    OccursConcat(t, st, fl, 0);
  }

  lemma FirstLfOf(t: string, st: string)
    requires OccursAt(t, st, 0) && |st| > 0 && st[|st| - 1] == LF
    requires forall j :: 0 <= j < |st| - 1 ==> st[j] != LF
    ensures Find(t, [LF], 0) == Some(|st| - 1)
    ensures t[..|st| - 1] == st[..|st| - 1]
  {
    forall j: nat | j < |st|
      ensures t[j] == st[j]
    {
      OccursIndex(t, st, 0, j);
    }
    FindCharIs(t, LF, 0, |st| - 1);
  }

  predicate FieldsAt(fl: string, t: string, s: nat, n: nat) {
    OccursAt(t, fl, s) && n == s + |fl| + 2
  }

  /** The request line ends at `s`, the head at `n`, and the body follows. */
  ghost predicate LaidOut(r: Request, fl: string, t: string, s: nat, n: nat) {
    && FieldsAt(fl, t, s, n)
    && 2 < s < n - 2 && n + |r.body| <= |t|
    && Find(t, CRLFCRLF, 0) == Some(n - 4)
    && Find(t, [LF], 0) == Some(s - 1)
    && s == |StartText(r)| && t[..s - 1] == StartText(r)[..s - 1]
    && OccursAt(t, r.body, n)
  }

  lemma SerializedParts(r: Request, order: seq<string>, t: string)
    requires ShapedHead(r) && OrderOf(order, r.headers) && Serialize(r, order) <= t
    ensures LaidOut(r, FieldLines(r.headers, order), t, |StartText(r)|, HeadLength(r, order))
  {
    var st, fl := StartText(r), FieldLines(r.headers, order);
    PartsOccur(t, st, fl, r.body);
    StartTextIs(r);
    FirstLfOf(t, st);
    HeadTight(r, order, st, fl);
    BlankLineBehind(t, st + fl);
  }

  lemma HeadTight(r: Request, order: seq<string>, st: string, fl: string)
    requires ShapedHead(r) && OrderOf(order, r.headers) && st == StartText(r) && fl == FieldLines(r.headers, order)
    ensures |fl| > 2 && Tight(st + fl)
    ensures (st + fl)[|st + fl| - 2] == CR && (st + fl)[|st + fl| - 1] == LF
  {
    StartTextIs(r);
    assert HOST in order;
    FieldLinesTight(r.headers, order);
    FieldLinesEndInCrlf(r.headers, order);
    TightConcat(st, fl);
    assert (st + fl)[|st + fl| - 2] == fl[|fl| - 2] && (st + fl)[|st + fl| - 1] == fl[|fl| - 1];
  }

  lemma {:induction false} FieldLinesEndInCrlf(h: Headers, order: seq<string>)
    requires order != [] && forall k :: k in order ==> k in h
    ensures var s := FieldLines(h, order); |s| > 2 && s[|s| - 2] == CR && s[|s| - 1] == LF
    decreases |order|
  {
    if |order| > 1 {
      FieldLinesEndInCrlf(h, order[1..]);
    }
  }

  /** The head of a serialised request is read back if no header value holds an LF, and refused otherwise. */
  lemma SerializedHead(g: Grammar<Request>, style: LengthStyle, r: Request, order: seq<string>, t: string,
                       s: nat, n: nat)
    requires IsRequestGrammar(g, style) && ShapedHead(r) && OrderOf(order, r.headers)
    requires LaidOut(r, FieldLines(r.headers, order), t, s, n)
    ensures ReadHead(g, t) ==
            if NoLineFeed(r.headers) then Ok(Head(RequestLine(r.verb, r.url), TrimmedSection(r.headers)), n)
            else Bad
  {
    HeadReadable(g, style, r, order, t, s, n);
    HeadFromParts(g, t, s, n - 2, RequestLine(r.verb, r.url), TrimmedSection(r.headers), NoLineFeed(r.headers));
  }

  lemma HeadReadable(g: Grammar<Request>, style: LengthStyle, r: Request, order: seq<string>, t: string, s: nat, n: nat)
    requires IsRequestGrammar(g, style) && ShapedHead(r) && OrderOf(order, r.headers)
    requires LaidOut(r, FieldLines(r.headers, order), t, s, n)
    ensures HeadIs(g, t, s, n - 2, RequestLine(r.verb, r.url), TrimmedSection(r.headers), NoLineFeed(r.headers))
  {
    SerializedFields(g, style, r, order, t, s, n);
    SerializedStart(g, style, r, t[..s - 1]);
  }

  /** The lines of `t[c..stop]` are read as these fields, or refused. */
  ghost predicate SectionIs(g: Grammar<Request>, t: string, c: nat, stop: nat, section: Section, readable: bool) {
    && c < stop <= |t| && t[stop - 1] == LF && g.accept(section.headers)
    && AddLines(g.rules, EMPTY_SECTION, Lines(t, c, stop)) == if readable then Some(section) else None
  }

  /** The head of `t`: its first line and the lines up to `stop`, where the blank line stands. */
  ghost predicate HeadIs(g: Grammar<Request>, t: string, c: nat, stop: nat, start: StartLine, section: Section,
                         readable: bool) {
    && 2 < c < stop && Find(t, CRLFCRLF, 0) == Some(stop - 2) && Find(t, [LF], 0) == Some(c - 1)
    && g.startLine(t[..c - 1]) == Some(start) && SectionIs(g, t, c, stop, section, readable)
  }

  lemma HeadFromParts(g: Grammar<Request>, t: string, c: nat, stop: nat, start: StartLine, section: Section,
                      readable: bool)
    requires HeadIs(g, t, c, stop, start, section, readable)
    ensures ReadHead(g, t) == if readable then Ok(Head(start, section), stop + 2) else Bad
  {
    ReadHeadIs(g, t, stop - 2, c - 1);
  }

  lemma SerializedStart(g: Grammar<Request>, style: LengthStyle, r: Request, line: string)
    requires IsRequestGrammar(g, style) && ShapedHead(r)
    requires |StartText(r)| > 0 && line == StartText(r)[..|StartText(r)| - 1]
    ensures g.startLine(line) == Some(RequestLine(r.verb, r.url))
  {
    StartTextIs(r);
    RequestLineReadBack(r.verb, r.url);
    assert g.startLine(line) == ReadRequestLine(line);
  }

  lemma SerializedFields(g: Grammar<Request>, style: LengthStyle, r: Request, order: seq<string>, t: string,
                         s: nat, n: nat)
    requires IsRequestGrammar(g, style) && ShapedHead(r) && OrderOf(order, r.headers)
    requires FieldsAt(FieldLines(r.headers, order), t, s, n)
    ensures SectionIs(g, t, s, n - 2, TrimmedSection(r.headers), NoLineFeed(r.headers))
  {
    AcceptsTrimmed(g, style, r.headers);
    assert HOST in order;
    WholeReadBack(g.rules, t, s, r.headers, order, n - 2);
  }

  lemma AcceptsTrimmed(g: Grammar<Request>, style: LengthStyle, h: Headers)
    requires IsRequestGrammar(g, style) && HOST in h
    ensures g.accept(TrimmedSection(h).headers)
  {
  }

  lemma WholeReadBack(rules: Rules, t: string, c: nat, h: Headers, order: seq<string>, stop: nat)
    requires ReadAs(rules, true) && ShapedFields(h) && OrderOf(order, h) && order != []
    requires OccursAt(t, FieldLines(h, order), c) && stop == c + |FieldLines(h, order)|
    ensures c < stop <= |t| && t[stop - 1] == LF
    ensures AddLines(rules, EMPTY_SECTION, Lines(t, c, stop)) ==
            if NoLineFeed(h) then Some(TrimmedSection(h)) else None
  {
    FieldLinesEnd(t, c, h, order);
    WholeReadable(h, order);
    AddAllWhole(h, order);
    FieldsReadBack(rules, t, c, EMPTY_SECTION, h, order, stop);
  }

  lemma WholeReadable(h: Headers, order: seq<string>)
    requires ShapedFields(h) && OrderOf(order, h)
    ensures Readable(EMPTY_SECTION, h, order) && (Clean(h, order) <==> NoLineFeed(h))
  {
  }

  lemma AddAllWhole(h: Headers, order: seq<string>)
    requires OrderOf(order, h)
    ensures AddAll(EMPTY_SECTION, h, order) == TrimmedSection(h)
  {
    AddAllIs(EMPTY_SECTION, h, order);
    assert AddAll(EMPTY_SECTION, h, order).headers.Keys == h.Keys;
  }

  lemma TrimValuesSame(h: Headers)
    ensures TrimValues(h) == h <==> AllTrimmed(h)
  {
    if AllTrimmed(h) {
      forall k | k in h
        ensures Trim(h[k]) == h[k]
      {
        TrimTrimmed(h[k]);
      }
    } else {
      var k :| k in h && !IsTrimmed(h[k]);
      assert TrimValues(h)[k] != h[k];
    }
  }

  lemma SameFields(h: Headers)
    requires AllTrimmed(h)
    ensures TrimmedSection(h).headers == h
  {
    TrimValuesSame(h);
  }

  /** The body of a framed request is read back, whatever follows it. */
  lemma SerializedBody(g: Grammar<Request>, style: LengthStyle, r: Request, t: string, n: nat)
    requires IsRequestGrammar(g, style) && Shaped(r) && OccursAt(t, r.body, n)
    ensures var content := ReadBody(g.rules, t, n, TrimmedSection(r.headers));
            if AllTrimmed(r.headers) && Framed(r) then content == Ok(Content(r.headers, r.body), n + |r.body|)
            else content.Ok? ==> content.value != Content(r.headers, r.body)
  {
    TrimValuesSame(r.headers);
    FramedBodyRead(g.rules, true, t, n, TrimmedSection(r.headers), r.headers, r.body);
  }

  lemma FramedBodyRead(rules: Rules, strict: bool, t: string, n: nat, f: Section, h: Headers, body: string)
    requires ReadAs(rules, strict) && TRANSFER_ENCODING !in f.headers && OccursAt(t, body, n)
    ensures f.headers == h && FramedBy(h, body) ==> ReadBody(rules, t, n, f) == Ok(Content(h, body), n + |body|)
    ensures ReadBody(rules, t, n, f).Ok? && ReadBody(rules, t, n, f).value == Content(h, body) ==>
              f.headers == h && FramedBy(h, body)
  {
    if CONTENT_LENGTH in f.headers {
      assert rules.bodyLength(f.headers[CONTENT_LENGTH]) == BodyLength(f.headers[CONTENT_LENGTH]);
    }
  }

  lemma SerializedMessage(g: Grammar<Request>, style: LengthStyle, r: Request, order: seq<string>, t: string)
    requires IsRequestGrammar(g, style)
    requires Shaped(r) && OrderOf(order, r.headers) && Serialize(r, order) <= t
    ensures if Faithful(r) then ReadMessage(g, t) == Ok(r, |Serialize(r, order)|)
            else ReadMessage(g, t).Ok? ==> ReadMessage(g, t).value != r
  {
    SerializedParts(r, order, t);
    LaidOutMessage(g, style, r, order, t, |StartText(r)|, HeadLength(r, order));
  }

  lemma LaidOutMessage(g: Grammar<Request>, style: LengthStyle, r: Request, order: seq<string>, t: string,
                       s: nat, n: nat)
    requires IsRequestGrammar(g, style) && Shaped(r) && OrderOf(order, r.headers)
    requires LaidOut(r, FieldLines(r.headers, order), t, s, n)
    ensures if Faithful(r) then ReadMessage(g, t) == Ok(r, n + |r.body|)
            else ReadMessage(g, t).Ok? ==> ReadMessage(g, t).value != r
  {
    SerializedHead(g, style, r, order, t, s, n);
    SerializedBody(g, style, r, t, n);
    TrimValuesSame(r.headers);
  }

  lemma SerializedStartsWithMethod(r: Request, order: seq<string>, t: string)
    requires ShapedHead(r) && OrderOf(order, r.headers) && Serialize(r, order) <= t
    ensures WordStart(METHODS, t) == Some(0) && Find(t, CRLFCRLF, 0).Some?
  {
    SerializedParts(r, order, t);
    PartsOccur(t, StartText(r), FieldLines(r.headers, order), r.body);
    VerbInFront(t, r);
    assert WordAt(METHODS, t, 0);
  }

  lemma VerbInFront(t: string, r: Request)
    requires OccursAt(t, StartText(r), 0)
    ensures OccursAt(t, r.verb, 0)
  {
    var rest := " " + r.url + " " + HTTP_1_1 + CRLF;
    assert StartText(r) == r.verb + rest;
    OccursConcat(t, r.verb, rest, 0);
  }

  /** The verdict on a serialised request and any bytes behind it, whatever the order of its headers: a faithful
      request is read back, consuming exactly its text; any other gets a different verdict. */
  lemma SerializedVerdict(style: LengthStyle, r: Request, order: seq<string>, x: string)
    requires Shaped(r) && OrderOf(order, r.headers)
    ensures var v := ParseRequest(style, Serialize(r, order) + x);
            if Faithful(r) then v == Ok(r, |Serialize(r, order)|) else v.Ok? ==> v.value != r
  {
    var t := Serialize(r, order) + x;
    SerializedStartsWithMethod(r, order, t);
    RequestGrammarIs(style);
    SerializedMessage(RequestGrammar(style), style, r, order, t);
    assert t[0..] == t;
    assert RequestScanner(style).message(t) == ReadMessage(RequestGrammar(style), t);
  }
}
