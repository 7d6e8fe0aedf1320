/** Accepted requests written out and parsed again, and several of them in a row. */
module Normalisation {
  import opened Strings
  import opened Numbers
  import opened Fields
  import opened Framing
  import opened Messages
  import opened Scanning
  import opened Requests
  import opened RoundTrip
  import opened ClientStream

  // ------------------------------------------------------------------ what the loops keep

  /** Names are tokens; values are trimmed and hold no line end. */
  ghost predicate WellKept(h: Headers) {
    ShapedFields(h) && AllTrimmed(h)
  }

  lemma {:induction false} TrimNoCrlf(v: string)
    requires NoCrlf(v)
    ensures NoCrlf(Trim(v))
    decreases |v|
  {
    if v == "" { return; }
    if IsBlank(v[0]) {
      assert forall i :: 0 <= i < |v| - 1 ==> v[1..][i] == v[i + 1];
      TrimNoCrlf(v[1..]);
    } else if IsBlank(v[|v| - 1]) {
      TrimNoCrlf(v[..|v| - 1]);
    }
  }

  lemma AddFieldKeeps(h: Headers, name: string, value: string)
    requires WellKept(h) && ValidName(name) && IsTrimmed(value) && NoCrlf(value)
    requires AddField(h, name, value).Some?
    ensures WellKept(AddField(h, name, value).value)
    ensures NoLineFeed(h) && LF !in value ==> NoLineFeed(AddField(h, name, value).value)
    ensures AddField(h, name, value).value.Keys == h.Keys + {name}
    ensures forall k :: k in h && k != name ==> AddField(h, name, value).value[k] == h[k]
    ensures name !in h ==> AddField(h, name, value).value[name] == value
    ensures name in h ==> CanRepeat(name) && h[name] <= AddField(h, name, value).value[name]
    ensures name in h && name != "Set-Cookie" && value != "" ==>
              AddField(h, name, value).value[name] == h[name] + ", " + value
    ensures name in h && (name == "Set-Cookie" || value == "") ==> AddField(h, name, value).value == h
  {
    var h' := AddField(h, name, value).value;
    if name in h && value != "" {
      var joined := h[name] + ", " + value;
      assert joined[|joined| - 1] == value[|value| - 1];
      assert joined[0] == if h[name] == "" then ',' else h[name][0];
      assert IsTrimmed(joined) && NoCrlf(joined);
    }
  }

  lemma AddLineKeeps(f: Section, line: string)
    requires WellKept(f.headers) && NoLineFeed(f.headers) && LF !in line && AddLine(true, f, line).Some?
    ensures WellKept(AddLine(true, f, line).value.headers) && NoLineFeed(AddLine(true, f, line).value.headers)
  {
    var p := Find(line, ":", 0).value;
    var name, raw := line[..p], line[p + 1..];
    var value := Trim(raw[..|raw| - 1]);
    assert LF !in raw[..|raw| - 1];
    AddFieldKeeps(f.headers, name, value);
  }

  lemma {:induction false} AddLinesKeep(rules: Rules, f: Section, lines: seq<string>)
    requires ReadAs(rules, true) && WellKept(f.headers) && NoLineFeed(f.headers)
    requires forall i :: 0 <= i < |lines| ==> LF !in lines[i]
    requires AddLines(rules, f, lines).Some?
    ensures WellKept(AddLines(rules, f, lines).value.headers) && NoLineFeed(AddLines(rules, f, lines).value.headers)
    decreases |lines|
  {
    if lines == [] { return; }
    assert rules.addLine(f, lines[0]) == AddLine(true, f, lines[0]);
    AddLineKeeps(f, lines[0]);
    AddLinesKeep(rules, rules.addLine(f, lines[0]).value, lines[1..]);
  }

  lemma AddTrailerKeeps(h: Headers, line: string)
    requires WellKept(h) && NoCrlf(line) && AddTrailer(true, h, line).Some?
    ensures WellKept(AddTrailer(true, h, line).value)
    ensures forall k :: k in h ==> k in AddTrailer(true, h, line).value
    ensures HOST in h ==> AddTrailer(true, h, line).value[HOST] == h[HOST]
  {
    var p := Find(line, ":", 0).value;
    var value := line[p + 1..];
    assert forall i :: 0 <= i < |value| ==> value[i] == line[p + 1 + i];
    TrimNoCrlf(value);
    AddFieldKeeps(h, line[..p], Trim(value));
  }

  /** Between a cursor and the next CRLF there is none. */
  lemma LineHasNoCrlf(t: string, c: nat, e: nat)
    requires Find(t, CRLF, c) == Some(e)
    ensures NoCrlf(t[c..e])
  {
    var line := t[c..e];
    forall i | 0 <= i && i + 1 < |line|
      ensures !(line[i] == CR && line[i + 1] == LF)
    {
      OccursCrlf(t, c + i);
      assert !OccursAt(t, CRLF, c + i);
      assert line[i] == t[c + i] && line[i + 1] == t[c + i + 1];
    }
  }

  lemma {:induction false} TrailersKeep(rules: Rules, t: string, c: nat, h: Headers)
    requires ReadAs(rules, true) && WellKept(h) && ReadTrailers(rules, t, c, h).Ok?
    ensures WellKept(ReadTrailers(rules, t, c, h).value)
    ensures forall k :: k in h ==> k in ReadTrailers(rules, t, c, h).value
    ensures HOST in h ==> ReadTrailers(rules, t, c, h).value[HOST] == h[HOST]
    decreases |t| - c
  {
    var e := Find(t, CRLF, c).value;
    if e == c { return; }
    var line := t[c..e];
    LineHasNoCrlf(t, c, e);
    assert rules.addTrailer(h, line) == AddTrailer(true, h, line);
    var h' := rules.addTrailer(h, line).value;
    AddTrailerKeeps(h, line);
    TrailersKeep(rules, t, e + 2, h');
  }

  // ------------------------------------------------------------------ what an accepted request is like

  lemma AcceptedStart(line: string)
    requires LF !in line && ReadRequestLine(line).Some?
    ensures var s := ReadRequestLine(line).value;
            s.RequestLine? && s.verb in METHODS && s.url != "" && ' ' !in s.url && LF !in s.url
  {
    var p := Find(line, " ", 0).value;
    var q := Find(line, " ", p + 1).value;
    FindChar(line, ' ', p + 1);
    assert line[p + 1..q] == ReadRequestLine(line).value.url;
  }

  lemma AcceptedHead(g: Grammar<Request>, style: LengthStyle, t: string)
    requires IsRequestGrammar(g, style) && ReadHead(g, t).Ok?
    ensures var head := ReadHead(g, t).value;
            && head.start.RequestLine? && head.start.verb in METHODS
            && head.start.url != "" && ' ' !in head.start.url && LF !in head.start.url
            && HOST in head.fields.headers
            && WellKept(head.fields.headers) && NoLineFeed(head.fields.headers)
  {
    var h := Find(t, CRLFCRLF, 0).value;
    var lines := HeadLines(t, h);
    assert g.startLine(lines[0]) == ReadRequestLine(lines[0]);
    AcceptedStart(lines[0]);
    assert forall i :: 0 <= i < |lines[1..]| ==> LF !in lines[1..][i];
    AddLinesKeep(g.rules, EMPTY_SECTION, lines[1..]);
  }

  lemma DigitsStored(s: string, n: nat)
    requires s != "" && AllDigits(s, 10) && (n < TWO_64 ==> Stoul(s, 10) == Some(n))
    ensures NoCrlf(s) && IsTrimmed(s) && (BodyLength(s) == Some(n) <==> n < TWO_32)
  {
    assert forall i :: 0 <= i < |s| ==> IsDigit(s[i], 10);
  }

  lemma DecimalStored(n: nat)
    ensures NoCrlf(Decimal(n)) && IsTrimmed(Decimal(n)) && (BodyLength(Decimal(n)) == Some(n) <==> n < TWO_32)
  {
    if n < TWO_64 {
      DecimalReads(n);
    }
    DigitsStored(Decimal(n), n);
  }

  lemma OneCharStored(c: char, n: nat)
    requires c as int == n % 256
    ensures BodyLength([c]) != Some(n)
  {
    StoulOfOneChar(c);
  }

  /** Content-Length as it is stored behind a chunked body. */
  lemma StoredLength(style: LengthStyle, n: nat)
    ensures NoCrlf(LengthText(style, n)) && ValidName(CONTENT_LENGTH)
    ensures style == InDecimal ==> IsTrimmed(LengthText(style, n))
    ensures style == InDecimal ==> (BodyLength(LengthText(style, n)) == Some(n) <==> n < TWO_32)
    ensures style == OneChar ==> BodyLength(LengthText(style, n)) != Some(n)
  {
    if style == InDecimal {
      DecimalStored(n);
    } else {
      OneCharStored((n % 256) as char, n);
    }
  }

  /** The headers of a decoded chunked body. */
  lemma NormalisedKeeps(rules: Rules, style: LengthStyle, h: Headers, n: nat)
    requires forall k: nat {:trigger rules.lengthText(k)} :: rules.lengthText(k) == LengthText(style, k)
    requires WellKept(h)
    ensures var h' := Normalised(rules, h, n);
            && ShapedFields(h') && TRANSFER_ENCODING !in h'
            && (HOST in h ==> HOST in h' && h'[HOST] == h[HOST])
            && CONTENT_LENGTH in h' && h'[CONTENT_LENGTH] == LengthText(style, n)
            && (style == InDecimal ==> AllTrimmed(h'))
  {
    StoredLength(style, n);
    var h' := Normalised(rules, h, n);
    assert h'[CONTENT_LENGTH] == rules.lengthText(n);
    forall k | k in h'
      ensures ValidName(k) && NoCrlf(h'[k]) && (style == InDecimal ==> IsTrimmed(h'[k]))
    {
      if k != CONTENT_LENGTH {
        assert h'[k] == h[k];
      }
    }
  }

  /** An accepted body: headers that can be written out, and for which body. */
  lemma AcceptedBody(g: Grammar<Request>, style: LengthStyle, t: string, n: nat, f: Section)
    requires IsRequestGrammar(g, style) && WellKept(f.headers) && NoLineFeed(f.headers) && HOST in f.headers
    requires n <= |t| && ReadBody(g.rules, t, n, f).Ok?
    ensures var c := ReadBody(g.rules, t, n, f).value;
            var chunked := TRANSFER_ENCODING in f.headers;
            && ShapedFields(c.headers) && TRANSFER_ENCODING !in c.headers
            && HOST in c.headers && c.headers[HOST] == f.headers[HOST]
            && (!chunked ==> AllTrimmed(c.headers) && NoLineFeed(c.headers) && FramedBy(c.headers, c.body))
            && (chunked && style == InDecimal ==> AllTrimmed(c.headers))
            && (chunked && style == InDecimal ==> (FramedBy(c.headers, c.body) <==> |c.body| < TWO_32))
            && (chunked && style == OneChar ==> !FramedBy(c.headers, c.body))
  {
    var h := DropLength(f.headers);
    if CONTENT_LENGTH in h {
      assert g.rules.bodyLength(h[CONTENT_LENGTH]) == BodyLength(h[CONTENT_LENGTH]);
      return;
    }
    if TRANSFER_ENCODING !in h { return; }
    var chunks := ReadChunks(g.rules, t, n, "");
    TrailersKeep(g.rules, t, chunks.next, h);
    var h' := ReadTrailers(g.rules, t, chunks.next, h).value;
    NormalisedKeeps(g.rules, style, h', |chunks.value|);
    StoredLength(style, |chunks.value|);
  }

  /** The message in buffer `b` announces a Transfer-Encoding. */
  ghost predicate IsChunked(style: LengthStyle, b: string) {
    WordStart(METHODS, b).Some? &&
    var head := ReadHead(RequestGrammar(style), b[WordStart(METHODS, b).value..]);
    head.Ok? && TRANSFER_ENCODING in head.value.fields.headers
  }

  lemma AcceptedMessage(g: Grammar<Request>, style: LengthStyle, t: string)
    requires IsRequestGrammar(g, style) && ReadMessage(g, t).Ok?
    ensures ReadHead(g, t).Ok?
    ensures var r := ReadMessage(g, t).value;
            var chunked := TRANSFER_ENCODING in ReadHead(g, t).value.fields.headers;
            && Shaped(r)
            && (!chunked ==> Faithful(r))
            && (chunked && style == InDecimal ==> AllTrimmed(r.headers) && (Framed(r) <==> |r.body| < TWO_32))
            && (chunked && style == OneChar ==> !Framed(r))
  {
    AcceptedHead(g, style, t);
    var head := ReadHead(g, t);
    AcceptedBody(g, style, t, head.next, head.value.fields);
    var content := ReadBody(g.rules, t, head.next, head.value.fields).value;
    assert g.finish(head.value.start, head.value.fields.headers, content)
        == FinishRequest(head.value.start, head.value.fields.headers, content);
  }

  lemma AcceptedRequest(style: LengthStyle, b: string)
    requires ParseRequest(style, b).Ok?
    ensures var r := ParseRequest(style, b).value;
            && Shaped(r)
            && (!IsChunked(style, b) ==> Faithful(r))
            && (IsChunked(style, b) && style == InDecimal ==>
                  AllTrimmed(r.headers) && (Framed(r) <==> |r.body| < TWO_32))
            && (IsChunked(style, b) && style == OneChar ==> !Framed(r))
  {
    var t := b[WordStart(METHODS, b).value..];
    RequestGrammarIs(style);
    assert RequestScanner(style).message(t) == ReadMessage(RequestGrammar(style), t);
    AcceptedMessage(RequestGrammar(style), style, t);
  }

  // ------------------------------------------------------------------ normalisation

  /** Writing an accepted request and parsing it again gives the same request, with nothing left over. */
  ghost predicate Idempotent(style: LengthStyle, r: Request, order: seq<string>)
    requires forall k :: k in order ==> k in r.headers
  {
    ParseRequest(style, Serialize(r, order)) == Ok(r, |Serialize(r, order)|)
  }

  /** With the decimal length the comment asks for, normalisation is idempotent exactly when no trailer left a
      bare LF in a value and the length fits the word it is read into. */
  lemma NormalisationInDecimal(b: string, order: seq<string>)
    requires ParseRequest(InDecimal, b).Ok? && OrderOf(order, ParseRequest(InDecimal, b).value.headers)
    ensures var r := ParseRequest(InDecimal, b).value;
            Idempotent(InDecimal, r, order) <==> NoLineFeed(r.headers) && |r.body| < TWO_32
  {
    NormalisationExact(InDecimal, b, order);
    var r := ParseRequest(InDecimal, b).value;
    AcceptedRequest(InDecimal, b);
    if Framed(r) {
      FramedIsShort(r.headers, r.body);
    }
  }

  lemma FramedIsShort(h: Headers, body: string)
    requires FramedBy(h, body)
    ensures |body| < TWO_32
  {
  }

  /** As the code stores the length, it is idempotent exactly for messages without a Transfer-Encoding. */
  lemma NormalisationAsWritten(b: string, order: seq<string>)
    requires ParseRequest(OneChar, b).Ok? && OrderOf(order, ParseRequest(OneChar, b).value.headers)
    ensures Idempotent(OneChar, ParseRequest(OneChar, b).value, order) <==> !IsChunked(OneChar, b)
  {
    NormalisationExact(OneChar, b, order);
    AcceptedRequest(OneChar, b);
  }

  lemma NormalisationExact(style: LengthStyle, b: string, order: seq<string>)
    requires ParseRequest(style, b).Ok? && OrderOf(order, ParseRequest(style, b).value.headers)
    ensures Idempotent(style, ParseRequest(style, b).value, order) <==> Faithful(ParseRequest(style, b).value)
  {
    AcceptedRequest(style, b);
    var r := ParseRequest(style, b).value;
    SerializedVerdict(style, r, order, "");
    assert Serialize(r, order) + "" == Serialize(r, order);
  }

  // ------------------------------------------------------------------ pipelining

  /** Requests that can be written out, each with an order of its headers. */
  ghost predicate Writable(rs: seq<Request>, orders: seq<seq<string>>) {
    |rs| == |orders| &&
    forall i :: 0 <= i < |rs| ==> Shaped(rs[i]) && Faithful(rs[i]) && OrderOf(orders[i], rs[i].headers)
  }

  ghost function SerializeAll(rs: seq<Request>, orders: seq<seq<string>>): string
    requires Writable(rs, orders)
  {
    if rs == [] then "" else Serialize(rs[0], orders[0]) + SerializeAll(rs[1..], orders[1..])
  }

  lemma FirstOfMany(style: LengthStyle, r: Request, order: seq<string>, x: string)
    requires Shaped(r) && Faithful(r) && OrderOf(order, r.headers)
    ensures RequestReader(style).step(Serialize(r, order) + x) == Taken(r, x)
  {
    SerializedVerdict(style, r, order, x);
    RequestScannerLawful(style);
    var s, n := Serialize(r, order) + x, |Serialize(r, order)|;
    assert s[n..] == x;
    StepTaken(RequestScanner(style), s, r, n);
  }

  /** Why the method word must come before the first blank line: behind a blank line, any such request is
      accepted if it arrives together with it, while the blank line alone is refused and ends the connection. */
  lemma BlankLineFirst(style: LengthStyle, r: Request, order: seq<string>)
    requires Shaped(r) && Faithful(r) && OrderOf(order, r.headers)
    ensures ParseRequest(style, CRLFCRLF).Bad?
    ensures var b := CRLFCRLF + Serialize(r, order); ParseRequest(style, b) == Ok(r, |b|)
  {
    BlankLineAlone(style);
    var b := CRLFCRLF + Serialize(r, order);
    OccursCrlfCrlf(b, 0);
    MethodBehindBlankLine(r, order);
    ParsedFrom(style, r, order, b, 4);
  }

  /** A serialised request at the first method word of a buffer. */
  lemma ParsedFrom(style: LengthStyle, r: Request, order: seq<string>, b: string, m: nat)
    requires Shaped(r) && Faithful(r) && OrderOf(order, r.headers)
    requires FirstWordAt(METHODS, b, m) && b[m..] == Serialize(r, order) && Find(b, CRLFCRLF, 0).Some?
    ensures ParseRequest(style, b) == Ok(r, |b|)
  {
    RequestGrammarIs(style);
    SerializedMessage(RequestGrammar(style), style, r, order, b[m..]);
    WordStartIs(METHODS, b, m);
    ParsedMessage(style, b, m, b[m..], r, |Serialize(r, order)|);
  }

  lemma BlankLineAlone(style: LengthStyle)
    ensures ParseRequest(style, CRLFCRLF).Bad?
  {
    OccursCrlfCrlf(CRLFCRLF, 0);
    NoWordInBlankLine(CRLFCRLF);
  }

  lemma MethodBehindBlankLine(r: Request, order: seq<string>)
    requires Shaped(r) && OrderOf(order, r.headers)
    ensures FirstWordAt(METHODS, CRLFCRLF + Serialize(r, order), 4)
    ensures (CRLFCRLF + Serialize(r, order))[4..] == Serialize(r, order)
  {
    var s := Serialize(r, order);
    var b := CRLFCRLF + s;
    SerializedStartsWithMethod(r, order, s);
    var w :| w in METHODS && OccursAt(s, w, 0);
    assert b[4..] == s;
    OccursShift(b, 4, w, 0);
    NoWordInBlankLine(b);
  }

  lemma NoWordInBlankLine(b: string)
    requires CRLFCRLF <= b
    ensures forall j :: 0 <= j < 4 ==> !WordAt(METHODS, b, j)
    ensures |b| == 4 ==> WordStart(METHODS, b).None?
  {
    forall j: nat, w | j < 4 && w in METHODS
      ensures !OccursAt(b, w, j)
    {
      assert b[j] == CRLFCRLF[j];
      if OccursAt(b, w, j) {
        OccursIndex(b, w, j, 0);
      }
    }
  }
}
