/** The converse of what is proved of written heads: whatever head the request parser accepts is a written one. */
module WrittenExactly {
  import opened Strings
  import opened Fields
  import opened Framing
  import opened Messages
  import opened Scanning
  import opened Requests
  import opened RoundTrip
  import opened Repetition
  import opened Wire
  import opened WrittenRequests
  import opened FieldRules

  // ------------------------------------------------------------------ lines

  /** What trimming takes away are blanks on either side. */
  lemma {:induction false} TrimSplit(v: string) returns (before: string, after: string)
    ensures v == before + Trim(v) + after && Ows(before) && Ows(after)
    decreases |v|
  {
    before, after := "", "";
    if v == "" { return; }
    if IsBlank(v[0]) {
      var b, a := TrimSplit(v[1..]);
      before, after := [v[0]] + b, a;
      assert v == [v[0]] + v[1..];
    } else if IsBlank(v[|v| - 1]) {
      var b, a := TrimSplit(v[..|v| - 1]);
      before, after := b, a + [v[|v| - 1]];
      assert v == v[..|v| - 1] + [v[|v| - 1]];
    }
  }

  /** A value with the blanks around it. */
  lemma ValueSplit(name: string, v: string) returns (x: Field)
    requires LineName(name) && LF !in v
    ensures x.name == name && WellWritten(x) && x.before + x.value + x.after == v
  {
    var before, after := TrimSplit(v);
    x := Field(name, before, Trim(v), after);
    if x.value != "" {
      assert x.value[..1] == [x.value[0]] && x.value[|x.value| - 1..] == [x.value[|x.value| - 1]];
      assert x.value[0] in x.value[..1] && x.value[|x.value| - 1] in x.value[|x.value| - 1..];
    }
  }

  /** A line the request parser takes is a field line. */
  lemma LineSplit(f: Section, line: string) returns (x: Field)
    requires LF !in line && AddLine(true, f, line).Some?
    ensures WellWritten(x) && line == LineText(x) + [CR]
  {
    var p := Find(line, ":", 0).value;
    FindChar(line, ':', 0);
    var name, raw := line[..p], line[p + 1..];
    NameHasNoColon(name);
    x := ValueSplit(name, raw[..|raw| - 1]);
    assert raw == raw[..|raw| - 1] + [CR];
    assert line == name + ":" + raw;
  }

  lemma OneMoreField(x: Field, rest: seq<Field>)
    requires WellWritten(x) && AllWritten(rest)
    ensures AllWritten([x] + rest) && FieldsText([x] + rest) == LineText(x) + CRLF + FieldsText(rest)
  {
    assert ([x] + rest)[1..] == rest;
  }

  lemma FieldInFront(t: string, c: nat, e: nat, stop: nat, x: Field, rest: string)
    requires c <= e < stop <= |t| && t[e] == LF && t[c..e] == LineText(x) + [CR] && t[e + 1..stop] == rest
    ensures t[c..stop] == LineText(x) + CRLF + rest
  {
    assert t[c..stop] == t[c..e] + [LF] + t[e + 1..stop];
    assert LineText(x) + [CR] + [LF] == LineText(x) + CRLF;
  }

  lemma LoopTakesFirst(rules: Rules, t: string, c: nat, f: Section, stop: nat, e: nat) returns (f': Section)
    requires ReadAs(rules, true) && c < stop <= |t| && t[stop - 1] == LF && e == LineEnd(t, c, stop)
    requires AddLines(rules, f, Lines(t, c, stop)).Some?
    ensures AddLine(true, f, t[c..e]).Some?
    ensures e + 1 < stop ==> AddLines(rules, f', Lines(t, e + 1, stop)).Some?
  {
    AddLinesStep(rules, f, t, c, stop);
    assert rules.addLine(f, t[c..e]) == AddLine(true, f, t[c..e]);
    f' := AddLine(true, f, t[c..e]).value;
  }

  /** Lines the header loop takes are the text of some fields. */
  lemma {:induction false} LinesSplit(rules: Rules, t: string, c: nat, f: Section, stop: nat) returns (xs: seq<Field>)
    requires ReadAs(rules, true) && c < stop <= |t| && t[stop - 1] == LF
    requires AddLines(rules, f, Lines(t, c, stop)).Some?
    ensures xs != [] && AllWritten(xs) && t[c..stop] == FieldsText(xs)
    decreases stop - c
  {
    var e := LineEnd(t, c, stop);
    var f' := LoopTakesFirst(rules, t, c, f, stop, e);
    var x := LineSplit(f, t[c..e]);
    var rest: seq<Field> := [];
    if e + 1 < stop {
      rest := LinesSplit(rules, t, e + 1, f', stop);
    }
    OneMoreField(x, rest);
    FieldInFront(t, c, e, stop, x, FieldsText(rest));
    xs := [x] + rest;
  }

  // ------------------------------------------------------------------ heads

  /** `t` starts with the head of a request that can be accepted. */
  ghost predicate StartsWritten(t: string, verb: string, url: string, xs: seq<Field>) {
    && verb in METHODS && Target(url) && AllWritten(xs) && !BadHead(xs)
    && HeadText(RequestLineText(verb, url), xs) <= t
  }

  lemma HeadTextOf(t: string, h: nat, e: nat, first: string, xs: seq<Field>)
    requires Find(t, CRLFCRLF, 0) == Some(h) && e + 1 < h + 2 && h + 4 <= |t| && t[e] == LF
    requires t[..e] == first + [CR] && t[e + 1..h + 2] == FieldsText(xs)
    ensures HeadText(first, xs) <= t
  {
    OccursCrlfCrlf(t, h);
    assert t[h + 2..h + 4] == CRLF;
    assert t[..h + 4] == t[..e] + [LF] + t[e + 1..h + 2] + t[h + 2..h + 4];
    assert first + [CR] + [LF] == first + CRLF;
  }

  lemma FirstLineEnds(t: string, h: nat) returns (e: nat)
    requires Find(t, CRLFCRLF, 0) == Some(h)
    ensures Find(t, [LF], 0) == Some(e) && h + 4 <= |t| && t[e] == LF && LF !in t[..e]
  {
    OccursCrlfCrlf(t, h);
    FindChar(t, LF, 0);
    e := Find(t, [LF], 0).value;
    assert t[0..e] == t[..e];
  }

  /** A head that is accepted is a written one. */
  lemma HeadSplit(g: Grammar<Request>, style: LengthStyle, t: string)
    returns (verb: string, url: string, xs: seq<Field>)
    requires IsRequestGrammar(g, style) && ReadHead(g, t).Ok?
    ensures verb in METHODS && Target(url) && AllWritten(xs) && HeadText(RequestLineText(verb, url), xs) <= t
  {
    var h := Find(t, CRLFCRLF, 0).value;
    var e := FirstLineEnds(t, h);
    ReadHeadIs(g, t, h, e);
    assert g.startLine(t[..e]) == ReadRequestLine(t[..e]);
    verb, url := StartSplit(t[..e]);
    xs := LinesSplit(g.rules, t, e + 1, EMPTY_SECTION, h + 2);
    HeadTextOf(t, h, e, RequestLineText(verb, url), xs);
  }

  lemma StartSplit(line: string) returns (verb: string, url: string)
    requires ReadRequestLine(line).Some? && LF !in line
    ensures verb in METHODS && Target(url) && line == RequestLineText(verb, url) + [CR]
  {
    verb, url := ReadRequestLine(line).value.verb, ReadRequestLine(line).value.url;
    RequestLineParts(line, verb, url);
    assert line == RequestLineText(verb, url) + [CR];
    assert forall c :: c in url ==> c in line;
  }

  /** The request parser accepts the head of a buffer if and only if the buffer starts with a written head, in which
      every name is a token, no name is repeated that may not be, and Host is there. */
  lemma HeadExactly(g: Grammar<Request>, style: LengthStyle, t: string)
    requires IsRequestGrammar(g, style)
    ensures ReadHead(g, t).Ok? <==> exists verb, url, xs :: StartsWritten(t, verb, url, xs)
  {
    if ReadHead(g, t).Ok? {
      var verb, url, xs := HeadSplit(g, style, t);
      WrittenHead(g, style, verb, url, xs, t, |HeadText(RequestLineText(verb, url), xs)|);
      assert StartsWritten(t, verb, url, xs);
    }
    if verb, url, xs :| StartsWritten(t, verb, url, xs) {
      WrittenHead(g, style, verb, url, xs, t, |HeadText(RequestLineText(verb, url), xs)|);
    }
  }

  // ------------------------------------------------------------------ requests

  /** `t` starts with the text of a request that is framed by its Content-Length, or has no body: that request is `r`,
      and its text has `n` bytes. */
  ghost predicate HoldsPlain(t: string, r: Request, n: nat) {
    exists xs ::
      && StartsWritten(t, r.verb, r.url, xs) && TRANSFER_ENCODING !in NamesOf(xs)
      && r.headers == Merged(map[], xs) && HOST in r.headers && r.host == r.headers[HOST]
      && FramedBy(r.headers, r.body) && RequestText(r.verb, r.url, xs, r.body) <= t
      && n == |RequestText(r.verb, r.url, xs, r.body)|
  }

  lemma PlainBody(rules: Rules, strict: bool, t: string, n: nat, f: Section)
    requires ReadAs(rules, strict) && TRANSFER_ENCODING !in f.headers && n <= |t| && ReadBody(rules, t, n, f).Ok?
    ensures var r := ReadBody(rules, t, n, f);
            && r.value.headers == f.headers && FramedBy(f.headers, r.value.body)
            && OccursAt(t, r.value.body, n) && r.next == n + |r.value.body|
  {
    if CONTENT_LENGTH in f.headers {
      assert rules.bodyLength(f.headers[CONTENT_LENGTH]) == BodyLength(f.headers[CONTENT_LENGTH]);
    }
  }

  lemma TextOfParts(t: string, head: string, body: string)
    requires head <= t && OccursAt(t, body, |head|)
    ensures head + body <= t
  {
    assert t[..|head| + |body|] == t[..|head|] + t[|head|..|head| + |body|];
  }

  lemma RequestFromParts(g: Grammar<Request>, style: LengthStyle, t: string, start: StartLine, f: Section, k: nat,
                         r: Request, n: nat)
    requires IsRequestGrammar(g, style) && k <= |t| && ReadHead(g, t) == Ok(Head(start, f), k) && start.RequestLine?
    requires ReadMessage(g, t) == Ok(r, n)
    ensures ReadBody(g.rules, t, k, f).Ok? && n == ReadBody(g.rules, t, k, f).next
    ensures var c := ReadBody(g.rules, t, k, f).value;
            HOST in f.headers && r == Request(start.verb, start.url, f.headers[HOST], c.headers, c.body)
  {
    if ReadBody(g.rules, t, k, f).Ok? {
      var c := ReadBody(g.rules, t, k, f).value;
      assert g.finish(start, f.headers, c) == FinishRequest(start, f.headers, c);
    }
  }

  lemma AcceptedPlain(g: Grammar<Request>, style: LengthStyle, t: string, verb: string, url: string, xs: seq<Field>,
                      k: nat, f: Section, r: Request, n: nat)
    requires IsRequestGrammar(g, style) && StartsWritten(t, verb, url, xs) && TRANSFER_ENCODING !in NamesOf(xs)
    requires k == |HeadText(RequestLineText(verb, url), xs)| && f == Section(Merged(map[], xs), Announces(xs))
    requires ReadMessage(g, t) == Ok(r, n)
    ensures HoldsPlain(t, r, n)
  {
    WrittenHead(g, style, verb, url, xs, t, k);
    RequestFromParts(g, style, t, RequestLine(verb, url), f, k, r, n);
    PlainBody(g.rules, true, t, k, f);
    TextOfParts(t, HeadText(RequestLineText(verb, url), xs), r.body);
    PlainHeld(t, xs, r, n);
  }

  lemma PlainHeld(t: string, xs: seq<Field>, r: Request, n: nat)
    requires StartsWritten(t, r.verb, r.url, xs) && TRANSFER_ENCODING !in NamesOf(xs)
    requires r.headers == Merged(map[], xs) && HOST in r.headers && r.host == r.headers[HOST]
    requires FramedBy(r.headers, r.body) && HeadText(RequestLineText(r.verb, r.url), xs) + r.body <= t
    requires n == |HeadText(RequestLineText(r.verb, r.url), xs)| + |r.body|
    ensures HoldsPlain(t, r, n)
  {
    assert RequestText(r.verb, r.url, xs, r.body) <= t;
  }

  /** `t` starts with a written head, and, unless that names a Transfer-Encoding, with the text of `r`. */
  ghost predicate HoldsWritten(t: string, r: Request, n: nat) {
    exists verb, url, xs ::
      StartsWritten(t, verb, url, xs) && (TRANSFER_ENCODING !in NamesOf(xs) ==> HoldsPlain(t, r, n))
  }

  lemma AcceptedText(g: Grammar<Request>, style: LengthStyle, t: string, r: Request, n: nat)
    requires IsRequestGrammar(g, style)
    ensures ReadMessage(g, t) == Ok(r, n) ==> HoldsWritten(t, r, n)
  {
    if ReadMessage(g, t) == Ok(r, n) {
      HeadExactly(g, style, t);
      var verb, url, xs :| StartsWritten(t, verb, url, xs);
      if TRANSFER_ENCODING !in NamesOf(xs) {
        AcceptedPlain(g, style, t, verb, url, xs, |HeadText(RequestLineText(verb, url), xs)|,
                      Section(Merged(map[], xs), Announces(xs)), r, n);
      }
      assert HoldsWritten(t, r, n);
    }
  }

  /** Without a first method word, a blank line behind it and a written head in between, a request is refused. */
  lemma NotWrittenRefused(style: LengthStyle, b: string, m: nat)
    requires Find(b, CRLFCRLF, 0).Some? && WordStart(METHODS, b) == Some(m)
    requires !exists verb, url, xs :: StartsWritten(b[m..], verb, url, xs)
    ensures ParseRequest(style, b).Bad?
  {
    var g := RequestGrammar(style);
    RequestGrammarIs(style);
    HeadExactly(g, style, b[m..]);
    assert RequestScanner(style).message(b[m..]) == ReadMessage(g, b[m..]);
  }

  /** What is accepted is written behind the first method word: some head, and, unless it names a Transfer-Encoding, the
      body it declares. */
  lemma AcceptedIsWritten(style: LengthStyle, b: string, m: nat, r: Request, n: nat)
    requires WordStart(METHODS, b) == Some(m) && ParseRequest(style, b) == Ok(r, m + n)
    ensures HoldsWritten(b[m..], r, n)
  {
    RequestGrammarIs(style);
    assert RequestScanner(style).message(b[m..]) == ReadMessage(RequestGrammar(style), b[m..]);
    AcceptedText(RequestGrammar(style), style, b[m..], r, n);
  }
}
