/** Trailers as they are written, which may repeat a header field or one another, and the coded bodies they end. */
module WrittenTrailers {
  import opened Strings
  import opened Fields
  import opened Framing
  import opened RoundTrip
  import opened Repetition
  import opened Wire
  import opened Chunked
  import opened StandardCoding

  /** The trailers as fields. */
  function FieldsOf(ts: seq<Trailer>): (xs: seq<Field>)
    ensures |xs| == |ts| && forall i :: 0 <= i < |ts| ==> xs[i] == Field(ts[i].name, "", Trim(ts[i].raw), "")
  {
    seq(|ts|, i requires 0 <= i < |ts| => Field(ts[i].name, "", Trim(ts[i].raw), ""))
  }

  /** Each can stand on a line of its own; its name may be no token. */
  ghost predicate AllNamed(ts: seq<Trailer>) {
    forall i :: 0 <= i < |ts| ==> LineName(ts[i].name) && NoCrlf(ts[i].raw)
  }

  /** A trailer frames or routes the message. */
  ghost predicate SomeForbidden(ts: seq<Trailer>) {
    exists i :: 0 <= i < |ts| && ForbiddenInTrailer(ts[i].name)
  }

  /** The trailers are refused behind the fields `h`; `strict` is the request parser. */
  ghost predicate BadTrailers(strict: bool, h: Headers, ts: seq<Trailer>) {
    (strict && SomeUnnamed(FieldsOf(ts))) || SomeForbidden(ts) || Repeats(h, FieldsOf(ts))
  }

  ghost function Added(strict: bool, h: Headers, x: Trailer): Option<Headers> {
    if (strict && !ValidName(x.name)) || ForbiddenInTrailer(x.name) then None else AddField(h, x.name, Trim(x.raw))
  }

  /** The trailer loop, as the trailers added one by one. */
  ghost function TrailersAdded(strict: bool, h: Headers, ts: seq<Trailer>): Option<Headers>
    decreases |ts|
  {
    if ts == [] then Some(h)
    else
      match Added(strict, h, ts[0])
      case None => None
      case Some(h') => TrailersAdded(strict, h', ts[1..])
  }

  lemma ForbiddenFirst(ts: seq<Trailer>)
    requires ts != []
    ensures SomeForbidden(ts) <==> ForbiddenInTrailer(ts[0].name) || SomeForbidden(ts[1..])
  {
    if SomeForbidden(ts[1..]) {
      var i :| 0 <= i < |ts[1..]| && ForbiddenInTrailer(ts[1..][i].name);
      assert ts[i + 1] == ts[1..][i];
    }
    if i :| 0 < i < |ts| && ForbiddenInTrailer(ts[i].name) {
      assert ts[1..][i - 1] == ts[i];
    }
  }

  lemma {:induction false} TrailersAddedIs(strict: bool, h: Headers, ts: seq<Trailer>)
    ensures TrailersAdded(strict, h, ts) ==
            if (strict && SomeUnnamed(FieldsOf(ts))) || SomeForbidden(ts) then None else AddedAll(h, FieldsOf(ts))
    decreases |ts|
  {
    if ts == [] { return; }
    ForbiddenFirst(ts);
    assert FieldsOf(ts)[1..] == FieldsOf(ts[1..]);
    UnnamedFirst(FieldsOf(ts));
    match Added(strict, h, ts[0])
    case None =>
    case Some(h') => TrailersAddedIs(strict, h', ts[1..]);
  }

  lemma NamedTrailer(rules: Rules, strict: bool, t: string, c: nat, h: Headers, x: Trailer)
    requires ReadAs(rules, strict) && LineName(x.name) && NoCrlf(x.raw) && LineAt(t, c, TrailerLine(x))
    ensures ReadTrailers(rules, t, c, h) ==
            match Added(strict, h, x)
            case None => Bad
            case Some(h') => ReadTrailers(rules, t, c + |TrailerLine(x)| + 2, h')
  {
    var line := TrailerLine(x);
    TrailerLineClean(x);
    LineEndsAt(t, c, line);
    assert rules.addTrailer(h, line) == AddTrailer(strict, h, line);
    FindColon(x.name, x.raw);
    assert line[..|x.name|] == x.name && line[|x.name| + 1..] == x.raw;
  }

  /** `read` takes one trailer. */
  ghost predicate TakesOne(read: (nat, Headers) -> Scan<Headers>, strict: bool, t: string, c: nat, h: Headers,
                           x: Trailer) {
    LineName(x.name) && NoCrlf(x.raw) && LineAt(t, c, TrailerLine(x)) ==>
      read(c, h) == match Added(strict, h, x) case None => Bad case Some(h') => read(c + |TrailerLine(x)| + 2, h')
  }

  /** `read` takes trailers one by one, and the empty line. */
  ghost predicate TakesTrailers(read: (nat, Headers) -> Scan<Headers>, strict: bool, t: string) {
    && (forall c: nat, h, x: Trailer :: TakesOne(read, strict, t, c, h, x))
    && (forall c: nat, h {:trigger read(c, h)} :: OccursAt(t, CRLF, c) ==> read(c, h) == Ok(h, c + 2))
  }

  lemma {:induction false} TrailersTaken(read: (nat, Headers) -> Scan<Headers>, strict: bool, t: string, c: nat,
                                         h: Headers, ts: seq<Trailer>)
    requires TakesTrailers(read, strict, t) && AllNamed(ts) && OccursAt(t, TrailersText(ts) + CRLF, c)
    ensures read(c, h) ==
            match TrailersAdded(strict, h, ts) case None => Bad case Some(h') => Ok(h', c + |TrailersText(ts)| + 2)
    decreases |ts|
  {
    if ts == [] {
      assert TrailersText(ts) + CRLF == CRLF;
      return;
    }
    TrailerTextInFront(t, c, ts);
    assert TakesOne(read, strict, t, c, h, ts[0]);
    match Added(strict, h, ts[0])
    case None =>
    case Some(h') =>
      assert forall i :: 0 <= i < |ts[1..]| ==> ts[1..][i] == ts[i + 1];
      TrailersTaken(read, strict, t, c + |TrailerLine(ts[0])| + 2, h', ts[1..]);
  }

  ghost function LoopOf(rules: Rules, t: string): (nat, Headers) -> Scan<Headers> {
    (c: nat, h: Headers) => ReadTrailers(rules, t, c, h)
  }

  lemma OneTaken(rules: Rules, strict: bool, t: string, c: nat, h: Headers, x: Trailer)
    requires ReadAs(rules, strict)
    ensures TakesOne(LoopOf(rules, t), strict, t, c, h, x)
  {
    if LineName(x.name) && NoCrlf(x.raw) && LineAt(t, c, TrailerLine(x)) {
      NamedTrailer(rules, strict, t, c, h, x);
    }
  }

  lemma LoopTakes(rules: Rules, strict: bool, t: string)
    requires ReadAs(rules, strict)
    ensures TakesTrailers(LoopOf(rules, t), strict, t)
  {
    forall c: nat, h, x: Trailer
      ensures TakesOne(LoopOf(rules, t), strict, t, c, h, x)
    {
      OneTaken(rules, strict, t, c, h, x);
    }
    forall c: nat, h | OccursAt(t, CRLF, c)
      ensures LoopOf(rules, t)(c, h) == Ok(h, c + 2)
    {
      EmptyLineRead(rules, t, c, h);
    }
  }

  lemma TrailersLoop(rules: Rules, strict: bool, t: string, c: nat, h: Headers, ts: seq<Trailer>)
    requires ReadAs(rules, strict) && AllNamed(ts) && OccursAt(t, TrailersText(ts) + CRLF, c)
    ensures ReadTrailers(rules, t, c, h) ==
            match TrailersAdded(strict, h, ts) case None => Bad case Some(h') => Ok(h', c + |TrailersText(ts)| + 2)
  {
    LoopTakes(rules, strict, t);
    TrailersTaken(LoopOf(rules, t), strict, t, c, h, ts);
  }

  /** Trailers are refused if and only if one of them frames or routes the message, or some name that is no list field
      is given twice, header and trailers together, or, in a request, is no token. Otherwise they are merged with the
      header fields. */
  lemma TrailersExactly(rules: Rules, strict: bool, t: string, c: nat, h: Headers, ts: seq<Trailer>)
    requires ReadAs(rules, strict) && AllNamed(ts) && OccursAt(t, TrailersText(ts) + CRLF, c)
    ensures ReadTrailers(rules, t, c, h) ==
            if BadTrailers(strict, h, ts) then Bad else Ok(Merged(h, FieldsOf(ts)), c + |TrailersText(ts)| + 2)
  {
    TrailersLoop(rules, strict, t, c, h, ts);
    TrailersAddedIs(strict, h, ts);
    AddedExactly(h, FieldsOf(ts));
  }

  /** Which trailers are legal, and what the fields of a message become with them. */
  lemma {:induction false} JoinedExactly(h: Headers, ts: seq<Trailer>)
    ensures LegalTrailers(h, ts) <==> AllNamed(ts) && !BadTrailers(true, h, ts)
    ensures LegalTrailers(h, ts) ==> JoinAll(h, ts) == Merged(h, FieldsOf(ts))
  {
    JoinedAdded(true, h, ts);
    TrailersAddedIs(true, h, ts);
    AddedExactly(h, FieldsOf(ts));
  }

  lemma {:induction false} JoinedAdded(strict: bool, h: Headers, ts: seq<Trailer>)
    requires strict
    ensures LegalTrailers(h, ts) <==> AllNamed(ts) && TrailersAdded(strict, h, ts).Some?
    ensures LegalTrailers(h, ts) ==> TrailersAdded(strict, h, ts) == Some(JoinAll(h, ts))
    decreases |ts|
  {
    if ts == [] { return; }
    assert AllNamed(ts) <==> LineName(ts[0].name) && NoCrlf(ts[0].raw) && AllNamed(ts[1..]) by {
      assert forall i :: 0 <= i < |ts[1..]| ==> ts[1..][i] == ts[i + 1];
      assert forall i :: 0 < i < |ts| ==> ts[i] == ts[1..][i - 1];
    }
    if ValidName(ts[0].name) { NameHasNoColon(ts[0].name); }
    JoinedAdded(strict, Joined(h, ts[0]), ts[1..]);
  }

  // ------------------------------------------------------------------ coded bodies

  /** What a body in that coding is decoded to, behind the header fields `h`. */
  ghost function DecodedContent(rules: Rules, h: Headers, k: Coding): Content {
    Content(Normalised(rules, Merged(h, FieldsOf(k.trailers)), |Payload(k)|), Payload(k))
  }

  lemma CodingParts(t: string, c: nat, k: Coding, middle: nat)
    requires OccursAt(t, CodingText(k), c) && middle == c + |Text(Chunks(k.pieces))| + |k.zeros + k.ext| + 2
    ensures OccursAt(t, Text(Chunks(k.pieces)) + (k.zeros + k.ext + CRLF), c)
    ensures OccursAt(t, TrailersText(k.trailers) + CRLF, middle)
    ensures middle + |TrailersText(k.trailers)| + 2 == c + |CodingText(k)|
  {
    OccursConcat(t, Text(Chunks(k.pieces)) + (k.zeros + k.ext + CRLF), TrailersText(k.trailers) + CRLF, c);
  }

  lemma ChunksOfCoding(rules: Rules, strict: bool, t: string, c: nat, k: Coding, middle: nat)
    requires ReadAs(rules, strict) && LegalChunks(k)
    requires OccursAt(t, Text(Chunks(k.pieces)) + (k.zeros + k.ext + CRLF), c)
    requires middle == c + |Text(Chunks(k.pieces))| + |k.zeros + k.ext| + 2
    ensures ReadChunks(rules, t, c, "") == Ok(Payload(k), middle)
  {
    var xs, last := Chunks(k.pieces), k.zeros + k.ext;
    PiecesAreChunks(rules, strict, k);
    assert "" + Data(xs) == Data(xs);
    ChunksAtText(rules, t, c, "", xs, last, Data(xs), middle);
    ChunksRead(rules, t, c, "", xs, last, Data(xs), middle);
  }

  /** The two loops one after the other. */
  lemma ChunksThenTrailers(rules: Rules, t: string, c: nat, h: Headers, body: string, middle: nat)
    requires ReadChunks(rules, t, c, "") == Ok(body, middle)
    ensures ReadChunked(rules, t, c, h) ==
            match ReadTrailers(rules, t, middle, h)
            case Ok(all, next) => Ok(Content(Normalised(rules, all, |body|), body), next)
            case More => More
            case Bad => Bad
            case Raise => Raise
  {
  }

  /** A body in the chunked coding of the standard, whatever its trailers are called. */
  lemma CodedExactly(rules: Rules, strict: bool, t: string, c: nat, h: Headers, k: Coding)
    requires ReadAs(rules, strict) && LegalChunks(k) && AllNamed(k.trailers) && OccursAt(t, CodingText(k), c)
    ensures ReadChunked(rules, t, c, h) ==
            if BadTrailers(strict, h, k.trailers) then Bad else Ok(DecodedContent(rules, h, k), c + |CodingText(k)|)
  {
    var middle := c + |Text(Chunks(k.pieces))| + |k.zeros + k.ext| + 2;
    CodingParts(t, c, k, middle);
    ChunksOfCoding(rules, strict, t, c, k, middle);
    ChunksThenTrailers(rules, t, c, h, Payload(k), middle);
    TrailersExactly(rules, strict, t, middle, h, k.trailers);
  }
}
