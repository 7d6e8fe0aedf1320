/** Header fields: the rules the request and the response parser share. */
module Fields {
  import opened Strings

  type Headers = map<string, string>

  const CONTENT_LENGTH := "Content-Length"
  const TRANSFER_ENCODING := "Transfer-Encoding"
  const TRAILER := "Trailer"
  const HOST := "Host"

  const TOKEN_SPECIALS: string := "!#$%&'*+-.^_`|~"

  predicate IsTokenChar(c: char) {
    'a' <= c <= 'z' || 'A' <= c <= 'Z' || '0' <= c <= '9' || c in TOKEN_SPECIALS
  }

  predicate ValidName(name: string) {
    name != "" && forall i :: 0 <= i < |name| ==> IsTokenChar(name[i])
  }

  /** Names whose values may be joined when the field is repeated. */
  const REPEATABLE: set<string> := {
    "A-IM", "Accept", "Accept-Charset", "Accept-Encoding", "Accept-Language",
    "Access-Control-Request-Headers", "Cache-Control", "Connection", "Content-Encoding", "Expect",
    "Forwarded", "If-Match", "If-None-Match", "Range", "TE", "Trailer", "Transfer-Encoding", "Upgrade",
    "Via", "Warning", "Set-Cookie"
  }

  predicate CanRepeat(name: string) {
    name in REPEATABLE
  }

  /** Names a trailer may not carry. */
  predicate ForbiddenInTrailer(name: string) {
    name in {"Transfer-Encoding", "Content-Length", "Host", "Content-Encoding", "Content-Type",
             "Content-Range", "Trailer"}
  }

  /** One more field: stored, joined to the earlier value, dropped (a repeated Set-Cookie or an empty
      repetition), or refused (`None`). */
  function AddField(h: Headers, name: string, value: string): Option<Headers> {
    if name !in h then Some(h[name := value])
    else if !CanRepeat(name) then None
    else if name != "Set-Cookie" && value != "" then Some(h[name := h[name] + ", " + value])
    else Some(h)
  }

  /** What the header loop accumulates. */
  datatype Section = Section(headers: Headers, chunked: bool)

  const EMPTY_SECTION := Section(map[], false)

  /** One more header field; `chunked` notes whether the field announces the chunked coding. */
  function AddValue(f: Section, name: string, value: string): Option<Section> {
    match AddField(f.headers, name, value)
    case None => None
    case Some(h) => Some(Section(h, f.chunked || (name == TRANSFER_ENCODING && value == "chunked")))
  }

  /** One header line without its LF. `strict` is the request parser, which also checks the field name.
      An empty remainder after the colon (undefined in the code, which indexes its last character) is refused. */
  ghost function AddLine(strict: bool, f: Section, line: string): Option<Section> {
    match Find(line, ":", 0)
    case None => None
    case Some(p) =>
      var name, raw := line[..p], line[p + 1..];
      if strict && !ValidName(name) then None
      else if raw == "" || raw[|raw| - 1] != CR then None
      else AddValue(f, name, Trim(raw[..|raw| - 1]))
  }

  /** One trailer line without its CRLF. */
  ghost function AddTrailer(strict: bool, h: Headers, line: string): Option<Headers> {
    match Find(line, ":", 0)
    case None => None
    case Some(p) =>
      var name := line[..p];
      if strict && !ValidName(name) then None
      else if ForbiddenInTrailer(name) then None
      else AddField(h, name, Trim(line[p + 1..]))
  }

  /** The LF that ends the line at `c`, at most the one at `stop - 1`. */
  ghost function LineEnd(t: string, c: nat, stop: nat): (e: nat)
    requires c < stop <= |t| && t[stop - 1] == LF
    ensures c <= e < stop && t[e] == LF && LF !in t[c..e]
    ensures Find(t, [LF], c) == Some(e)
  {
    assert Find(t, [LF], c).Some? && Find(t, [LF], c).value < stop by {
      OccursChar(t, LF, stop - 1);
      FindChar(t, LF, c);
      assert OccursAt(t, [LF], stop - 1);
    }
    FindChar(t, LF, c);
    Find(t, [LF], c).value
  }

  /** The lines of `t[c..stop]`, each without the LF that ends it. */
  ghost function Lines(t: string, c: nat, stop: nat): (lines: seq<string>)
    requires c < stop <= |t| && t[stop - 1] == LF
    ensures lines != []
    ensures forall i :: 0 <= i < |lines| ==> LF !in lines[i]
    decreases stop - c
  {
    var e := LineEnd(t, c, stop);
    if e + 1 == stop then [t[c..e]] else [t[c..e]] + Lines(t, e + 1, stop)
  }

  lemma {:induction false} LinesInPrefix(t: string, u: string, c: nat, stop: nat)
    requires t <= u && c < stop <= |t| && t[stop - 1] == LF
    ensures Lines(u, c, stop) == Lines(t, c, stop)
    decreases stop - c
  {
    var e := LineEnd(t, c, stop);
    FindInPrefix(t, u, [LF], c);
    assert u[c..e] == t[c..e];
    if e + 1 < stop {
      LinesInPrefix(t, u, e + 1, stop);
    }
  }
}
