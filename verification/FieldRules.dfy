/** The rules for single characters, lines and names that the theorems on written messages rest on. */
module FieldRules {
  import opened Strings
  import opened Numbers
  import opened Fields
  import opened Framing
  import opened Messages
  import opened Requests
  import opened Responses
  import opened RoundTrip
  import opened Repetition
  import opened Wire
  import opened Chunked
  import opened StandardCoding
  import opened WrittenTrailers
  import opened WrittenRequests
  import opened WrittenResponses
  import opened MaxAge
  import opened Normalisation

  /** The characters of names are those of section 3.2.6 of RFC 7230: visible, and no delimiter. */
  lemma TokenCharExactly(c: char)
    ensures IsTokenChar(c) <==> 33 <= c as int <= 126 && c !in "\"(),/:;<=>?@[\\]{}"
  {
  }

  lemma CutAtSpaces(line: string, p: nat, q: nat)
    requires p < q < |line| && line[p] == ' ' && line[q] == ' '
    ensures line == line[..p] + " " + line[p + 1..q] + " " + line[q + 1..]
  {
  }

  lemma RequestLineParts(line: string, verb: string, url: string)
    requires ReadRequestLine(line) == Some(RequestLine(verb, url))
    ensures verb in METHODS && url != "" && ' ' !in url && line == verb + " " + url + " " + HTTP_1_1 + [CR]
  {
    FindChar(line, ' ', 0);
    var p := Find(line, " ", 0).value;
    FindChar(line, ' ', p + 1);
    var q := Find(line, " ", p + 1).value;
    CutAtSpaces(line, p, q);
    RebuiltLine(line, verb, url, line[q + 1..]);
  }

  lemma RebuiltLine(line: string, verb: string, url: string, version: string)
    requires line == verb + " " + url + " " + version && version == HTTP_1_1 + [CR]
    ensures line == verb + " " + url + " " + HTTP_1_1 + [CR]
  {
  }

  /** The request lines that are accepted, with the CR at their end. */
  lemma RequestLineExactly(line: string, verb: string, url: string)
    ensures ReadRequestLine(line) == Some(RequestLine(verb, url))
       <==> && (verb == "GET" || verb == "POST" || verb == "CONNECT") && url != "" && ' ' !in url
            && line == verb + " " + url + " HTTP/1.1\r"
  {
    assert verb + " " + url + " HTTP/1.1\r" == verb + " " + url + " " + HTTP_1_1 + [CR];
    if ReadRequestLine(line) == Some(RequestLine(verb, url)) {
      RequestLineParts(line, verb, url);
    } else if verb in METHODS && url != "" && ' ' !in url {
      RequestLineReadBack(verb, url);
    }
  }

  lemma {:induction false} GivenTwice(xs: seq<Field>, i: nat, j: nat)
    requires i < j < |xs| && xs[i].name == xs[j].name
    ensures |ValuesOf(xs, xs[i].name)| >= 2
    decreases |xs|
  {
    if i == 0 {
      assert xs[1..][j - 1] == xs[j];
    } else {
      GivenTwice(xs[1..], i - 1, j - 1);
    }
  }

  lemma TwiceRepeats(h: Headers, xs: seq<Field>, i: nat, j: nat)
    requires i < j < |xs| && xs[i].name == xs[j].name && !CanRepeat(xs[i].name)
    ensures Repeats(h, xs)
  {
    GivenTwice(xs, i, j);
    assert TooMany(xs[i].name, AllValues(h, xs, xs[i].name));
  }

  /** A request that says twice where it goes, how long it is or what it holds is refused, whatever follows. */
  lemma SaidTwice(style: LengthStyle, verb: string, url: string, xs: seq<Field>, x: string, i: nat, j: nat)
    requires verb in METHODS && Target(url) && AllWritten(xs) && i < j < |xs| && xs[i].name == xs[j].name
    requires xs[i].name == "Host" || xs[i].name == "Content-Length" || xs[i].name == "Content-Type"
    ensures ParseRequest(style, RequestText(verb, url, xs, x)).Bad?
  {
    TwiceRepeats(map[], xs, i, j);
    BadHeadRefused(style, verb, url, xs, RequestText(verb, url, xs, x));
  }

  /** A coded request is refused if a trailer would say so behind the body. */
  lemma SaidTooLate(style: LengthStyle, verb: string, url: string, xs: seq<Field>, k: Coding, x: string, i: nat)
    requires verb in METHODS && Target(url) && AllWritten(xs) && Announces(xs)
    requires LegalChunks(k) && AllNamed(k.trailers) && i < |k.trailers|
    requires k.trailers[i].name in {"Host", "Content-Length", "Content-Type", "Content-Encoding", "Content-Range",
                                    "Transfer-Encoding", "Trailer"}
    ensures ParseRequest(style, RequestText(verb, url, xs, CodingText(k)) + x).Bad?
  {
    assert SomeForbidden(k.trailers);
    WrittenCodedRead(style, verb, url, xs, k, x);
  }

  // ------------------------------------------------------------------ list fields

  /** The fields of requests that RFC 7230, 7231, 7232 and 7234 define as lists. */
  predicate StandardList(name: string) {
    || name in {"Connection", "TE", "Trailer", "Transfer-Encoding", "Upgrade", "Via"}
    || name in {"Accept", "Accept-Charset", "Accept-Encoding", "Accept-Language", "Content-Encoding"}
    || name in {"If-Match", "If-None-Match", "Cache-Control", "Warning"}
  }

  /** Lists of the standard that the parsers do not know as lists. */
  predicate ForgottenList(name: string) {
    name in {"Allow", "Content-Language", "Pragma", "Vary", "WWW-Authenticate", "Proxy-Authenticate", "Accept-Ranges"}
  }

  lemma ListsRepeat(name: string)
    ensures StandardList(name) ==> CanRepeat(name)
    ensures ForgottenList(name) ==> !CanRepeat(name)
  {
  }

  lemma {:induction false} GivenOnce(xs: seq<Field>, name: string)
    requires forall i, j :: 0 <= i < j < |xs| && xs[i].name == xs[j].name ==> xs[i].name != name
    ensures |ValuesOf(xs, name)| <= 1
    decreases |xs|
  {
    if xs == [] { return; }
    GivenOnce(xs[1..], name);
    forall i | 0 <= i < |xs[1..]| && xs[0].name == name
      ensures xs[1..][i].name != name
    {
      assert xs[1..][i] == xs[i + 1];
    }
  }

  /** Fields that repeat lists of the standard only are not refused, however often they repeat them. */
  lemma OnlyListsRepeated(none: Headers, xs: seq<Field>)
    requires none == map[]
    requires forall i, j :: 0 <= i < j < |xs| && xs[i].name == xs[j].name ==> StandardList(xs[i].name)
    ensures !Repeats(none, xs)
  {
    forall name
      ensures !TooMany(name, AllValues(none, xs, name))
    {
      ListsRepeat(name);
      assert AllValues(none, xs, name) == ValuesOf(xs, name);
      if !CanRepeat(name) {
        GivenOnce(xs, name);
      }
    }
  }

  /** But a response that repeats one of the others is refused, whatever follows, where section 3.2.2 of RFC 7230 has it
      joined. */
  lemma ForgottenListRefused(style: LengthStyle, version: string, code: string, reason: string, xs: seq<Field>,
                             x: string, i: nat, j: nat)
    requires StatusParts(version, code, reason) && AllWritten(xs)
    requires i < j < |xs| && xs[i].name == xs[j].name && ForgottenList(xs[i].name)
    ensures ParseResponse(style, ResponseText(version, code, reason, xs, x)).Bad?
  {
    ListsRepeat(xs[i].name);
    TwiceRepeats(map[], xs, i, j);
    BadFieldsRefused(style, version, code, reason, xs, ResponseText(version, code, reason, xs, x));
  }

  // ------------------------------------------------------------------ lengths

  /** What `std::stoul` makes of a decimal number: a minus negates modulo 2^64. */
  function Unsigned(x: Integer): nat
    requires AllDigits(x.digits, 10) && ValueOf(x.digits, 10) < TWO_64
  {
    var v := ValueOf(x.digits, 10);
    if x.sign == "-" && v > 0 then TWO_64 - v else v
  }

  /** A Content-Length is accepted if and only if it starts with a decimal number below 2^64, behind blanks and a sign,
      and counts modulo 2^32. */
  lemma LengthExactly(text: string, n: nat, base: nat)
    requires base == 10
    ensures BodyLength(text) == Some(n) <==>
            exists x :: IsInteger(x) && IntegerText(x) == text && ValueOf(x.digits, base) < TWO_64
                        && n == Unsigned(x) % TWO_32
  {
    if BodyLength(text) == Some(n) {
      var x := IntegerOf(text, base);
      MagnitudeOfInteger(x, base);
      assert n == Unsigned(x) % TWO_32;
    }
    if x :| IsInteger(x) && IntegerText(x) == text && ValueOf(x.digits, base) < TWO_64 && n == Unsigned(x) % TWO_32 {
      MagnitudeOfInteger(x, base);
    }
  }

  /** The length stored for a decoded body: one character as the code has it, the length modulo 256; and in decimal a
      text that is read as the length, if that fits a word. */
  lemma LengthStored(style: LengthStyle, h: Headers, k: Coding)
    ensures CONTENT_LENGTH in DecodedFields(style, h, k)
    ensures var v := DecodedFields(style, h, k)[CONTENT_LENGTH];
            match style
            case OneChar => |v| == 1 && v[0] as int == |Payload(k)| % 256
            case InDecimal => BodyLength(v) == Some(|Payload(k)|) <==> |Payload(k)| < TWO_32
  {
    DecimalStored(|Payload(k)|);
  }
}
