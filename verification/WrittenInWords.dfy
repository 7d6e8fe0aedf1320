/** Written messages in the machine words of the code. */
module WrittenInWords {
  import opened Strings
  import opened Numbers
  import opened Fields
  import opened Framing
  import opened Messages
  import opened Scanning
  import opened Bounds
  import opened Words
  import opened Requests
  import opened Responses
  import opened RoundTrip
  import opened Repetition
  import opened Wire
  import opened StandardCoding
  import opened WrittenTrailers
  import opened WrittenRequests
  import opened WrittenResponses

  /** On a buffer below 2^31 bytes every verdict but "more" is also that of the code. */
  lemma SettledInWords<T(!new)>(sc: Scanner<T>, g: Grammar<T>, strict: bool, b: string)
    requires ScansBy(sc, g) && ReadAs(g.rules, strict)
    ensures |b| < TWO_31 && !Verdict(sc, b).More? ==> CodeVerdict(g, sc.words, b) == Some(Verdict(sc, b))
  {
    if |b| < TWO_31 && !Verdict(sc, b).More? {
      SettledFits(sc, g, b);
      WithinBound(sc, g, strict, b);
    }
  }

  lemma RequestInWords(style: LengthStyle, b: string)
    ensures |b| < TWO_31 && !ParseRequest(style, b).More? ==>
              CodeVerdict(RequestGrammar(style), METHODS, b) == Some(ParseRequest(style, b))
  {
    RequestGrammarIs(style);
    assert ScansBy(RequestScanner(style), RequestGrammar(style));
    SettledInWords(RequestScanner(style), RequestGrammar(style), true, b);
  }

  lemma ResponseInWords(style: LengthStyle, b: string)
    ensures |b| < TWO_31 && !ParseResponse(style, b).More? ==>
              CodeVerdict(ResponseGrammar(style), RESPONSE_WORDS, b) == Some(ParseResponse(style, b))
  {
    ResponseGrammarIs(style);
    assert ScansBy(ResponseScanner(style), ResponseGrammar(style));
    SettledInWords(ResponseScanner(style), ResponseGrammar(style), false, b);
  }

  /** What `parse_request` makes of a written request without a coding. */
  lemma CodeReadsRequest(style: LengthStyle, verb: string, url: string, xs: seq<Field>, body: string, x: string)
    requires verb in METHODS && Target(url) && AllWritten(xs) && TRANSFER_ENCODING !in NamesOf(xs)
    requires FramedBy(Merged(map[], xs), body) && |RequestText(verb, url, xs, body) + x| < TWO_31
    ensures var text, h := RequestText(verb, url, xs, body), Merged(map[], xs);
            CodeVerdict(RequestGrammar(style), METHODS, text + x) ==
            Some(if BadHead(xs) then Bad else Ok(Request(verb, url, h[HOST], h, body), |text|))
  {
    WrittenRequestRead(style, verb, url, xs, body, x);
    RequestInWords(style, RequestText(verb, url, xs, body) + x);
  }

  /** And of one in the chunked coding of the standard. */
  lemma CodeReadsCoded(style: LengthStyle, verb: string, url: string, xs: seq<Field>, k: Coding, x: string)
    requires verb in METHODS && Target(url) && AllWritten(xs) && Announces(xs)
    requires LegalChunks(k) && AllNamed(k.trailers) && |RequestText(verb, url, xs, CodingText(k)) + x| < TWO_31
    ensures var text, h := RequestText(verb, url, xs, CodingText(k)), Merged(map[], xs);
            CodeVerdict(RequestGrammar(style), METHODS, text + x) ==
            Some(if BadHead(xs) || BadTrailers(true, DropLength(h), k.trailers) then Bad
                 else Ok(Request(verb, url, h[HOST], DecodedFields(style, DropLength(h), k), Payload(k)), |text|))
  {
    WrittenCodedRead(style, verb, url, xs, k, x);
    RequestInWords(style, RequestText(verb, url, xs, CodingText(k)) + x);
  }

  /** What `parse_response` makes of a serialised response. */
  lemma CodeReadsSerialized(style: LengthStyle, version: string, code: string, reason: string, r: Response,
                            order: seq<string>, x: string)
    requires StatusParts(version, code, reason) && r.statusLine == version + " " + code + " " + reason
    requires PlainFields(r.headers) && OrderOf(order, r.headers) && TRANSFER_ENCODING !in r.headers
    requires FramedBy(r.headers, r.body) && |SerializeResponse(r, order) + x| < TWO_31
    ensures CodeVerdict(ResponseGrammar(style), RESPONSE_WORDS, SerializeResponse(r, order) + x) ==
            Some(if r.headers == map[] then Bad
                 else if MaxAgeRaises(r.headers) then Raise
                 else Ok(r, |SerializeResponse(r, order)|))
  {
    SerializedResponseRead(style, version, code, reason, r, order, x);
    ResponseInWords(style, SerializeResponse(r, order) + x);
  }

  /** And of one in the chunked coding of the standard. */
  lemma CodeReadsCodedResponse(style: LengthStyle, version: string, code: string, reason: string, xs: seq<Field>,
                               k: Coding, x: string)
    requires StatusParts(version, code, reason) && AllWritten(xs) && Announces(xs)
    requires LegalChunks(k) && AllNamed(k.trailers)
    requires |ResponseText(version, code, reason, xs, CodingText(k)) + x| < TWO_31
    ensures var text, h := ResponseText(version, code, reason, xs, CodingText(k)), DropLength(Merged(map[], xs));
            CodeVerdict(ResponseGrammar(style), RESPONSE_WORDS, text + x) ==
            Some(if BadFields(xs) || BadTrailers(false, h, k.trailers) then Bad
                 else Judged(version + " " + code + " " + reason, DecodedFields(style, h, k), Payload(k), |text|))
  {
    WrittenCodedResponseRead(style, version, code, reason, xs, k, x);
    ResponseInWords(style, ResponseText(version, code, reason, xs, CodingText(k)) + x);
  }
}
