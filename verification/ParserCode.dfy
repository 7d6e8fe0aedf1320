/** The loops of `parse_request` and `parse_response`, on the library's streams and in machine words. The two
    parsers of the code repeat these loops; `strict` is the request side. */
module ParserCode {
  import opened Strings
  import opened Numbers
  import opened Fields
  import opened Framing
  import opened Words

  /** A parser returns false, returns true, or lets an exception through. */
  datatype Status = Incomplete | Finished | Threw

  // ------------------------------------------------------------------ std::istringstream

  datatype InStream = InStream(data: string, pos: nat, good: bool)

  /** `std::getline`: at the end of the data the stream turns bad, and a stream that was bad before leaves
      the line untouched. */
  method GetLine(s: InStream, old_: string, delim: char) returns (s': InStream, line: string, ok: bool)
    requires s.pos <= |s.data|
    ensures s'.data == s.data && s'.pos <= |s.data|
    ensures !s.good ==> !ok && s' == s && line == old_
    ensures s.good ==>
              match Find(s.data, [delim], s.pos)
              case Some(e) => ok && e < |s.data| && line == s.data[s.pos..e] && s' == InStream(s.data, e + 1, true)
              case None => line == s.data[s.pos..] && s' == InStream(s.data, |s.data|, false) && ok == (line != "")
  {
    if !s.good {
      return s, old_, false;
    }
    var e := FindFrom(s.data, [delim], s.pos);
    match e
    case Some(e) =>
      return InStream(s.data, e + 1, true), s.data[s.pos..e], true;
    case None =>
      return InStream(s.data, |s.data|, false), s.data[s.pos..], s.data[s.pos..] != "";
  }

  // ------------------------------------------------------------------ field names and values

  method ValidFieldName(field: string) returns (ok: bool)
    ensures ok == ValidName(field)
  {
    if field == "" {
      return false;
    }
    for i := 0 to |field|
      invariant forall k :: 0 <= k < i ==> IsTokenChar(field[k])
    {
      if !IsTokenChar(field[i]) {
        return false;
      }
    }
    return true;
  }

  method TrimFieldValue(value: string) returns (r: string)
    ensures r == Trim(value)
  {
    var start := 0;
    while start < |value| && IsBlank(value[start])
      invariant start <= |value| && AllBlank(value[..start])
    {
      assert value[..start + 1] == value[..start] + [value[start]];
      start := start + 1;
    }
    if start == |value| {
      assert value[..|value|] == value && value[|value|..] == "";
      TrimIs(value, |value|, "");
      return "";
    }
    var end := |value| - 1;
    while IsBlank(value[end])
      invariant start <= end < |value| && AllBlank(value[end + 1..])
      decreases end
    {
      assert value[end..] == [value[end]] + value[end + 1..];
      end := end - 1;
    }
    r := value[start..end + 1];
    TrimIs(value, start, r);
  }

  method StoreField(h: Headers, name: string, value: string) returns (r: Option<Headers>)
    ensures r == AddField(h, name, value)
  {
    if name in h {
      if !CanRepeat(name) {
        return None;
      }
      if name != "Set-Cookie" && value != "" {
        return Some(h[name := h[name] + ", " + value]);
      }
      return Some(h);
    }
    return Some(h[name := value]);
  }

  method StoreValue(f: Section, name: string, value: string) returns (r: Option<Section>)
    ensures r == AddValue(f, name, value)
  {
    var chunked := f.chunked;
    if name == TRANSFER_ENCODING && value == "chunked" {
      chunked := true;
    }
    var h := StoreField(f.headers, name, value);
    if h.None? {
      return None;
    }
    return Some(Section(h.value, chunked));
  }

  /** One turn of the header loop. */
  method ReadField(ghost rules: Rules, strict: bool, f: Section, line: string) returns (r: Option<Section>)
    requires ReadAs(rules, strict)
    ensures r == rules.addLine(f, line)
    ensures line == [CR] ==> r.None?
  {
    assert rules.addLine(f, line) == AddLine(strict, f, line);
    FindChar(line, ':', 0);
    var pos := FindFrom(line, ":", 0);
    if pos.None? {
      return None;
    }
    var name, value := line[..pos.value], line[pos.value + 1..];
    if strict {
      var valid := ValidFieldName(name);
      if !valid {
        return None;
      }
    }
    if value == "" || value[|value| - 1] != CR {
      return None;
    }
    value := TrimFieldValue(value[..|value| - 1]);
    r := StoreValue(f, name, value);
  }

  /** One turn of the trailer loop. */
  method ReadTrailer(ghost rules: Rules, strict: bool, h: Headers, line: string) returns (r: Option<Headers>)
    requires ReadAs(rules, strict)
    ensures r == rules.addTrailer(h, line)
  {
    assert rules.addTrailer(h, line) == AddTrailer(strict, h, line);
    var pos := FindFrom(line, ":", 0);
    if pos.None? {
      return None;
    }
    var name := line[..pos.value];
    if strict {
      var valid := ValidFieldName(name);
      if !valid {
        return None;
      }
    }
    var value := TrimFieldValue(line[pos.value + 1..]);
    if ForbiddenInTrailer(name) {
      return None;
    }
    r := StoreField(h, name, value);
  }

  // ------------------------------------------------------------------ the start line

  /** The first line of the message, and `chars_read` behind it. */
  method FirstLine(t: string, headersEnd: Option<nat>) returns (s: InStream, line: string, charsRead: int)
    requires headersEnd == Find(t, CRLFCRLF, 0) && |t| < TWO_31
    ensures s.data == t && s.pos <= |t| && LF !in line
    ensures s.good ==> |line| < charsRead == s.pos
    ensures t != "" && t[0] != LF ==> line != "" && line[0] == t[0]
    ensures headersEnd.Some? ==>
              && Find(t, [LF], 0) == Some(|line|) && |line| + 1 <= headersEnd.value + 2
              && line == t[..|line|] && s == InStream(t, |line| + 1, true)
  {
    var more;
    if headersEnd.Some? {
      OccursCrlfCrlf(t, headersEnd.value);
      OccursChar(t, LF, headersEnd.value + 1);
    }
    FindChar(t, LF, 0);
    s, line, more := GetLine(InStream(t, 0, true), "", LF);
    charsRead := I32(0 + |line| + 1);
    assert t[0..|line|] == t[..|line|];
  }

  // ------------------------------------------------------------------ the header loop

  /** `chars_read == headers_end + 2` in `size_t`; with `headers_end` at `npos` the right side wraps to 1. */
  predicate AtHeadersEnd(charsRead: int, headersEnd: Option<nat>) {
    match headersEnd
    case None => charsRead == 1
    case Some(h) => charsRead == h + 2
  }

  /** `rest` header lines of `t[c..stop]` folded onto `f`; nothing is left at `stop`. */
  ghost function Remaining(rules: Rules, f: Section, t: string, c: nat, stop: nat): Option<Section>
    requires c <= stop <= |t| && 0 < stop && t[stop - 1] == LF
  {
    if c == stop then Some(f) else AddLines(rules, f, Lines(t, c, stop))
  }

  /** One turn of the header loop: a line is taken off the stream and folded in. */
  method Turn(ghost rules: Rules, strict: bool, s: InStream, old_: string, f: Section, ghost stop: nat)
    returns (s': InStream, line: string, more: bool, f': Option<Section>)
    requires ReadAs(rules, strict) && s.pos <= |s.data|
    requires stop > 0 ==> s.good && s.pos < stop <= |s.data| && s.data[stop - 1] == LF
    ensures s'.data == s.data && s'.pos <= |s.data|
    ensures !s.good ==> !more && s' == s && line == old_
    ensures s.good ==> s.pos <= s'.pos && more == (s'.good || line != "")
    ensures s.good && s'.good ==> s'.pos == s.pos + |line| + 1
    ensures s.good && !s'.good ==> s'.pos == s.pos + |line|
    ensures !more ==> !s'.good && (line == old_ || line == "")
    ensures more && f'.Some? ==> line != [CR]
    ensures stop > 0 ==> more && s'.good && s'.pos <= stop
    ensures stop > 0 ==> Remaining(rules, f, s.data, s.pos, stop) ==
                         if f'.None? then None else Remaining(rules, f'.value, s.data, s'.pos, stop)
    ensures s.good && OccursAt(s.data, CRLF, s.pos) ==> more && line == [CR]
  {
    if stop > 0 {
      AddLinesStep(rules, f, s.data, s.pos, stop);
    }
    OccursCrlf(s.data, s.pos);
    if OccursAt(s.data, CRLF, s.pos) {
      FindCharIs(s.data, LF, s.pos, s.pos + 1);
    }
    s', line, more := GetLine(s, old_, LF);
    f' := None;
    if more {
      f' := ReadField(rules, strict, f, line);
    }
  }

  /** The header loop behind the start line, up to and including the blank line it must stop at. Cursor
      accounting: with the end of the header section at `h`, stream position and `chars_read` agree, the
      loop stops at `h + 2` exactly and the line behind it is the empty one; without it the section is refused. */
  method ReadSection(ghost rules: Rules, strict: bool, s: InStream, first: string, chars: int, headersEnd: Option<nat>)
    returns (r: Option<Section>, charsRead: int)
    requires ReadAs(rules, strict)
    requires headersEnd == Find(s.data, CRLFCRLF, 0) && |s.data| < TWO_31
    requires s.pos <= |s.data| && first != [CR]
    requires s.good ==> 2 <= chars == s.pos
    requires headersEnd.Some? ==> s.good && s.pos <= headersEnd.value + 2
    ensures headersEnd.None? ==> r.None?
    ensures headersEnd.Some? && s.pos == headersEnd.value + 2 ==> r.None?
    ensures headersEnd.Some? && s.pos < headersEnd.value + 2 ==>
              && s.data[headersEnd.value + 1] == LF
              && r == Remaining(rules, EMPTY_SECTION, s.data, s.pos, headersEnd.value + 2)
    ensures r.Some? ==> charsRead == headersEnd.value + 4
  {
    var t := s.data;
    if headersEnd.Some? {
      OccursCrlfCrlf(t, headersEnd.value);
      OccursCrlf(t, headersEnd.value + 2);
      FindCharIs(t, LF, headersEnd.value + 2, headersEnd.value + 3);
    }
    ghost var stop := if headersEnd.Some? then headersEnd.value + 2 else 0;
    ghost var target := if stop > 0 then Remaining(rules, EMPTY_SECTION, t, s.pos, stop) else None;
    var stream, line, more := s, first, true;
    charsRead := chars;
    var f := EMPTY_SECTION;
    var next: Option<Section>;
    while true
      invariant stream.data == t && stream.pos <= |t| && line != [CR]
      invariant stream.good ==> 2 <= charsRead == stream.pos
      invariant stop > 0 ==> stream.good
      invariant stop > 0 && s.pos == stop ==> stream.pos == stop
      invariant stop > 0 && s.pos < stop ==> stream.pos < stop && Remaining(rules, f, t, stream.pos, stop) == target
      decreases |t| - stream.pos, stream.good
    {
      stream, line, more, next := Turn(rules, strict, stream, line, f, if s.pos < stop then stop else 0);
      if !more {
        break;
      }
      charsRead := I32(charsRead + |line| + 1);
      if next.None? {
        return None, charsRead;
      }
      f := next.value;
      if AtHeadersEnd(charsRead, headersEnd) {
        break;
      }
    }
    assert stop == 0 ==> !stream.good;
    assert stop > 0 ==> stream.pos == stop && s.pos < stop && target == Some(f);
    stream, line, more := GetLine(stream, line, LF);
    charsRead := I32(charsRead + |line| + 1);
    if line != [CR] {
      return None, charsRead;
    }
    return Some(f), charsRead;
  }

  // ------------------------------------------------------------------ the body

  /** The number in a chunk header, extensions dropped, as it is stored in a `uint32_t`. */
  method ReadSize(ghost rules: Rules, strict: bool, line: string) returns (size: Option<nat>)
    requires ReadAs(rules, strict)
    ensures size == rules.chunkSize(line) && (size.Some? ==> size.value < TWO_32)
  {
    assert rules.chunkSize(line) == ChunkSize(line);
    var semicolon := FindFrom(line, ";", 0);
    var text := if semicolon.Some? then line[..semicolon.value] else line;
    return Word(Stoul(text, 16));
  }

  /** The number in a Content-Length field, as it is stored in a `uint32_t`. */
  method ReadLength(ghost rules: Rules, strict: bool, text: string) returns (size: Option<nat>)
    requires ReadAs(rules, strict)
    ensures size == rules.bodyLength(text) && (size.Some? ==> size.value < TWO_32)
  {
    assert rules.bodyLength(text) == BodyLength(text);
    return Word(Stoul(text, 10));
  }

  /** Sums of `uint32_t` may be taken in any order. */
  lemma SumInWords(a: nat, b: nat, c: nat)
    ensures U32(a + U32(b + c)) == U32(U32(a + b) + c)
  {
  }

  /** The test for completeness, the CRLF behind the data, and the data. */
  method ChunkData(t: string, currPtr: int, chunkSize: nat) returns (r: WordTurn)
    requires 0 <= currPtr <= |t| < TWO_31
    ensures r == DataInWords(t, currPtr, chunkSize)
  {
    var charsRead := currPtr;
    if U32(U32(currPtr + chunkSize) + 2) > |t| {
      return Halted(More);
    }
    if U32(currPtr + chunkSize) > |t| {
      return Halted(Raise);
    }
    if !OccursAt(t, CRLF, U32(currPtr + chunkSize)) {
      return Halted(Bad);
    }
    var data := Substr(t, currPtr, chunkSize);
    SumInWords(charsRead, chunkSize, 2);
    charsRead := I32(U32(charsRead + U32(chunkSize + 2)));
    return OneChunk(data, chunkSize, charsRead);
  }

  /** One turn of the chunk loop. Cursors are `int` and sizes `uint32_t`. */
  method DecodeChunk(ghost rules: Rules, strict: bool, t: string, cursor: int) returns (r: WordTurn)
    requires ReadAs(rules, strict) && 0 <= cursor <= |t| < TWO_31
    ensures r == TurnInWords(rules, t, cursor)
  {
    var charsRead, currPtr := cursor, cursor;
    var lineEnd := FindFrom(t, CRLF, currPtr);
    if lineEnd.None? {
      return Halted(More);
    }
    charsRead := I32(charsRead + lineEnd.value - currPtr + 2);
    var line := t[currPtr..lineEnd.value];
    currPtr := charsRead;
    var size := ReadSize(rules, strict, line);
    if size.None? {
      return Halted(Raise);
    }
    var chunkSize := size.value;
    if chunkSize <= 0 {
      return LastChunk(currPtr);
    }
    r := ChunkData(t, currPtr, chunkSize);
  }

  /** What has been decoded so far, after one more turn: the answer of the loop, or where it goes on. */
  method NextChunk(ghost rules: Rules, strict: bool, t: string, cursor: int, sofar: Decoded, ghost left: nat)
    returns (answer: Option<Scan<Decoded>>, next: int, grown: Decoded)
    requires ReadAs(rules, strict) && 0 <= cursor <= |t| < TWO_31
    requires ChunksInWords(rules, t, cursor, sofar, left).Some?
    ensures answer.Some? ==> ChunksInWords(rules, t, cursor, sofar, left) == answer
    ensures answer.None? ==>
              && left > 0 && 0 <= next <= |t|
              && ChunksInWords(rules, t, cursor, sofar, left) == ChunksInWords(rules, t, next, grown, left - 1)
  {
    answer, next, grown := None, cursor, sofar;
    var turn := DecodeChunk(rules, strict, t, cursor);
    match turn
    case Halted(More) => answer := Some(More);
    case Halted(Bad) => answer := Some(Bad);
    case Halted(_) => answer := Some(Raise);
    case LastChunk(d) => answer := Some(Ok(sofar, d));
    case OneChunk(data, size, d) => next, grown := d, Grown(sofar, data, size);
  }

  /** The chunk loop; it is entered where it returns. */
  method DecodeChunks(ghost rules: Rules, strict: bool, t: string, chars: int, empty: Decoded, ghost fuel: nat)
    returns (r: Scan<Decoded>)
    requires ReadAs(rules, strict) && 0 <= chars <= |t| < TWO_31
    requires ChunksInWords(rules, t, chars, empty, fuel).Some?
    ensures Some(r) == ChunksInWords(rules, t, chars, empty, fuel)
  {
    var currPtr, decoded := chars, empty;
    ghost var left := fuel;
    while true
      invariant 0 <= currPtr <= |t|
      invariant ChunksInWords(rules, t, currPtr, decoded, left) == ChunksInWords(rules, t, chars, empty, fuel)
      decreases left
    {
      var answer;
      answer, currPtr, decoded := NextChunk(rules, strict, t, currPtr, decoded, left);
      if answer.Some? {
        return answer.value;
      }
      left := left - 1;
    }
  }

  /** The trailer loop. */
  method DecodeTrailers(ghost rules: Rules, strict: bool, t: string, chars: int, headers: Headers)
    returns (r: Scan<Headers>)
    requires ReadAs(rules, strict) && 0 <= chars <= |t| < TWO_31
    ensures r == ReadTrailers(rules, t, chars, headers)
  {
    var charsRead, currPtr := chars, chars;
    var h := headers;
    while true
      invariant 0 <= charsRead == currPtr <= |t|
      invariant ReadTrailers(rules, t, chars, headers) == ReadTrailers(rules, t, currPtr, h)
      decreases |t| - currPtr
    {
      var lineEnd := FindFrom(t, CRLF, currPtr);
      if lineEnd.None? {
        return More;
      }
      charsRead := I32(charsRead + lineEnd.value - currPtr + 2);
      var line := t[currPtr..lineEnd.value];
      currPtr := charsRead;
      if line == "" {
        return Ok(h, currPtr);
      }
      var next := ReadTrailer(rules, strict, h, line);
      if next.None? {
        return Bad;
      }
      h := next.value;
    }
  }

  /** Length-delimited, chunked or empty body. The completeness test adds an `int` and a `uint32_t`. */
  method DecodeBody(ghost rules: Rules, strict: bool, t: string, chars: int, f: Section, style: LengthStyle,
                    ghost fuel: nat)
    returns (r: Scan<Content>)
    requires ReadAs(rules, strict) && 0 <= chars <= |t| < TWO_31
    requires forall n: nat {:trigger rules.lengthText(n)} :: rules.lengthText(n) == LengthText(style, n)
    requires BodyInWords(rules, t, chars, f, fuel).Some?
    ensures Some(r) == BodyInWords(rules, t, chars, f, fuel)
  {
    var charsRead := chars;
    var headers := f.headers;
    if CONTENT_LENGTH in headers && TRANSFER_ENCODING in headers {
      headers := headers - {CONTENT_LENGTH};
    }
    if CONTENT_LENGTH in headers {
      var size := ReadLength(rules, strict, headers[CONTENT_LENGTH]);
      if size.None? {
        return Bad;
      }
      var len := size.value;
      if U32(charsRead + len) > |t| {
        return More;
      }
      var body := Substr(t, charsRead, len);
      charsRead := I32(U32(charsRead + len));
      return Ok(Content(headers, body), charsRead);
    }
    if TRANSFER_ENCODING in headers {
      if !f.chunked {
        return Bad;
      }
      var chunks := DecodeChunks(rules, strict, t, charsRead, Decoded("", 0), fuel);
      r := DecodeRest(rules, strict, t, headers, chunks, style);
      return;
    }
    return Ok(Content(headers, ""), charsRead);
  }

  /** Behind the chunk loop: the trailer loop, and the header fields of the decoded message. */
  method DecodeRest(ghost rules: Rules, strict: bool, t: string, h: Headers, chunks: Scan<Decoded>, style: LengthStyle)
    returns (r: Scan<Content>)
    requires ReadAs(rules, strict) && |t| < TWO_31 && (chunks.Ok? ==> chunks.next <= |t|)
    requires forall n: nat {:trigger rules.lengthText(n)} :: rules.lengthText(n) == LengthText(style, n)
    ensures r == WithTrailers(rules, t, h, chunks)
  {
    if !chunks.Ok? {
      return match chunks case More => More case Bad => Bad case _ => Raise;
    }
    var trailers := DecodeTrailers(rules, strict, t, chunks.next, h);
    if !trailers.Ok? {
      return match trailers case More => More case Bad => Bad case _ => Raise;
    }
    var headers := trailers.value;
    headers := headers[CONTENT_LENGTH := LengthText(style, chunks.value.total)];
    headers := headers - {TRANSFER_ENCODING};
    headers := headers - {TRAILER};
    assert headers == Normalised(rules, trailers.value, chunks.value.total);
    return Ok(Content(headers, chunks.value.body), trailers.next);
  }
}
