# Caching proxy: model and proofs

A Dafny model of the HTTP/1.1 caching proxy in `docker-deploy/src`. Its four cores are modelled with the form they have
in the code, and each is proved against a specification whose own properties are the main results.

| files | what they model |
|---|---|
| `Strings`, `Numbers`, `Fields` | `std::string::find`, `stoul`/`stoi`, machine words, header fields |
| `Framing`, `Messages`, `Requests`, `Responses` | the grammars of the two parsers, as functions on buffers |
| `Scanning`, `ClientStream`, `Upstream` | verdicts on growing buffers, and the two receive loops |
| `ParserCode`, `HttpRequest`, `HttpResponse`, `ClientHandler` | the parsers and loops as classes and methods, in machine words |
| `Bounds`, `Words`, `WordStream`, `Endless` | what machine words do to lengths, cursors and loops: when the loops end, where nothing changes, and requests on which they do not end |
| `RoundTrip`, `Normalisation`, `Delivery` | serialisation, idempotence, pipelining and delivery |
| `Chunked`, `StandardCoding` | the chunked coding, as the parser reads it and as the standard defines it |
| `Repetition`, `Wire`, `FieldRules`, `MaxAge` | repeated fields, header sections as they are written, and the rules for characters, lines, names and numbers |
| `WrittenTrailers`, `WrittenRequests`, `WrittenResponses`, `WrittenExactly`, `WrittenInWords`, `WrittenReplies`, `Faults`, `Endings` | whole messages as clients and origins write them: what is read, what is refused, and what comes of them on a connection |
| `Examples` | messages at which laws fail |
| `Cache`, `CacheManager`, `CacheRuns`, `CacheKeys` | the LRU cache: functions, class, whole runs, keys |
| `Handler`, `RequestHandler`, `Sharing`, `Revalidation`, `Inclusion`, `EndToEnd` | request handling over the cache: interleavings, class, what may be shared, conditional requests, capacity, and all of it together |
| `ReaperProtocol`, `ReaperSafety`, `ReaperHandles`, `ReaperLiveness`, `ReaperProgress`, `ReaperOrder` | the threads of `ProxyServer`: step relation, locks and wake-ups, handles, liveness, reaping and its order |

`dafny verify dfyconfig.toml` checks everything.

## How to read it

A buffer is a `string`. A parser is a `Scan` of it: `More`, `Bad` (400 or 502), `Raise` (an exception) or `Ok` with the
message and the number of bytes consumed. There are two specifications. `ParseRequest` in `Requests` and the scanner in
`Responses` read lengths and cursors as unbounded numbers; what holds of growing buffers, serialisation and delivery is
proved of them. `CodeVerdict` in `Words` reads them as the `int` and `uint32_t` words of the code, where a sum may wrap
around 2^32 and a loop may go on for ever. The classes `HttpRequest`, `HttpResponse` and `ClientHandler` follow the C++
statement by statement and are proved equal to the second, on every buffer below 2^31 bytes on which the code returns;
and the second equals the first wherever no sum wraps into the buffer (`Fits`), which `CodeServesWithin` and
`CodeAwaitsWithin` carry over to whole connections. Where sums do wrap, `ReturnsExactly` and `InnerLoopEndsExactly` say
exactly when parser and loop return, and `Endless` gives requests on which they do not.

The grammars follow the branches of the code. What they make of a message is stated once more from the other side, in
terms of texts: `Written...` says for every list of field lines, with blanks around values and names in any number, which
messages are refused and what the others are read as, by lists of values and not by the steps of the parsers; and
`WrittenInWords` carries that over to the words of the code.

Facts about where lines, chunks and bodies begin and end hold for any reading of single lines (`Rules`, `Grammar`), so
each is proved once for both parsers.

Choices made where the code departs from its documentation or from defined behaviour:

- `headers["Content-Length"] = len` (`docker-deploy/src/HttpRequest.cpp:380`, `docker-deploy/src/HttpResponse.cpp:302`)
  stores one character; the comment above it asks for the decimal length. `LengthStyle` is a parameter: `OneChar` is the
  code, `InDecimal` the intent. The classes use `OneChar`; the lemmas hold for both, and the normalisation lemmas say
  exactly what each gives.
- If the first method word lies behind the first blank line, `headers_end` may be `npos` and verdicts depend on how the
  stream is cut. The code is modelled as it is; `ChunkingExactly` gives the exact condition for connections and
  `BlankLineTwoWays` a family of streams that fail.
- The character before the end of an empty value (`docker-deploy/src/HttpRequest.cpp:182`) is undefined; such a line is
  refused.
- `client_error_code` is not initialised by the code; it starts at 0 here.
- A chunk size without digits throws, the exception is swallowed by the client loop, and the loop receives again.
- The repository's README lists LRU eviction as future work, but `CacheManager` does it; the model follows the code. A key
  stored again leaves its old node in the list, and everything about the cache is proved with that behaviour.
- The table of fields that may be repeated lacks lists such as Vary, so a response that repeats one is a 502
  (`ForgottenListRefused`); field names of responses are not checked at all.
- Lengths and chunk sizes are stored in a `uint32_t`, so the grammars read them modulo 2^32. A sum of cursor and length
  that wraps into the buffer is part of the word specification only: the code then moves its cursor backwards.
- The reaper reads `joinable()` without the list lock. Whether creating a thread and storing its handle are one step is a
  parameter, `atomic`; the code as written is `atomic == false`. Everything about locks, wake-ups, deadlock and
  termination is proved for both. A joinable handle is destroyed exactly in the runs that ask a handle before it is
  stored (`EarlyReap`), which is a condition on runs of the code as written.

`TransparentCaching` assumes a steady origin (`Steady`): a storable reply to a GET for an absolute URL without `|`, and
without Range, depends on the URL alone and does not change, and other conditional GETs for it may be told 304. It speaks
of these GETs and of all other methods; the run may hold any other request too, except GETs with Range for such URLs.

## Model

| member | source | states |
|---|---|---|
| `EndToEnd.WrittenIsAnsweredByLoop` | docker-deploy/src/RequestHandler.cpp:57-207 | From bytes to replies: however `recv` cuts the stream of a client and those of the origin, however the handlers of all connections interleave, whatever is evicted or expires, an unconditional GET for an absolute URL that a client wrote gets the response that the origin's bytes for it stand for, a conditional one that or the stored page in place of a 304 |
| `WrittenReplies.WrittenPageReachesClient` | docker-deploy/src/RequestHandler.cpp:57-207 | From writer to reader: if the origin writes a response for each request, as `serialize` does and with a readable max-age, then, however `recv` cuts both streams and the handlers interleave, such an unconditional GET is answered by the very response written for it: status line, fields and body |
| `EndToEnd.FetchedBytes` | docker-deploy/src/RequestHandler.cpp:175-207 | The receive loop answers each request with what the origin's bytes stand for, however they are cut |
| `WrittenReplies.ReceivedAnyCut` | docker-deploy/src/RequestHandler.cpp:175-207 | A response written in any field order is received as it was written, however `recv` cuts it and whatever follows; it makes the loop throw exactly if its max-age cannot be read |
| `WrittenReplies.CutShort` | docker-deploy/src/RequestHandler.cpp:175-207 | An origin that closes before the last byte of its response makes it a 502, wherever it stops |
| `WrittenReplies.RefusedReply` | docker-deploy/src/RequestHandler.cpp:196-202 | A response without fields, or with a name repeated that may not be, makes it a 502, whatever follows and however it is cut |
| `WrittenReplies.ClosedEarly` | docker-deploy/src/RequestHandler.cpp:176-186 | An empty `recv` ends the loop: nothing behind it counts |
| `ClientStream.ChunkingIndependence` | docker-deploy/src/ClientHandler.cpp:34-81 | Two ways in which `recv` may cut the same stream deliver the same requests in the same order, the same 400-and-close, and leave the same bytes; both are what the whole stream received at once gives. Hypothesis, checked at every message boundary: the method word precedes the first blank line |
| `ClientStream.ChunkingExactly` | docker-deploy/src/ClientHandler.cpp:34-81 | The exact condition for whole connections: all cuts of a stream are served alike if and only if at every boundary draining reaches the method word precedes the first blank line or the rest of the stream is refused |
| `ClientStream.ThrownIsMute` | docker-deploy/src/ClientHandler.cpp:68-82 | Once a chunk size without a number has made the parser throw, the connection delivers nothing and refuses nothing any more, whatever arrives |
| `Delivery.DeliveredAnyCut` | docker-deploy/src/ClientHandler.cpp:34-81 | End to end: readable requests written one after the other, in any header order, are delivered unchanged and in order however `recv` cuts the bytes, and then comes exactly what the bytes behind them give |
| `Endings.UnfinishedWaits` | docker-deploy/src/ClientHandler.cpp:34-81 | Behind complete requests, any proper front of one more: the complete ones are delivered, and exactly that front stays in the buffer, however the stream is cut |
| `Endings.RefusedCloses` | docker-deploy/src/ClientHandler.cpp:34-81 | Behind complete requests, a head with a name that is no token or may not be repeated, or without Host: delivered, then answered with 400 and closed, whatever follows and however the stream is cut |
| `Endings.ConnectEnds` | docker-deploy/src/ClientHandler.cpp:34-81 | Behind complete requests, a CONNECT: it is delivered last and all that follows is left to the tunnel |
| `Endings.ClosedIsFinal` | docker-deploy/src/ClientHandler.cpp:34-43 | An empty `recv` ends the connection: nothing behind it counts |
| `Endings.JunkDropped` | docker-deploy/src/HttpRequest.cpp:82-99 | Bytes in front of the first method word are dropped once a blank line stands behind it: the loop goes on as if they had never come, whether the request is complete by then or not |
| `ClientStream.ServeAnyCut` | docker-deploy/src/ClientHandler.cpp:34-81 | The outer receive loop over any cut of such a stream equals draining the concatenation, starting from any drained buffer |
| `ClientStream.DrainInTwo` | docker-deploy/src/ClientHandler.cpp:59-81 | Draining a buffer and then what is left of it plus later bytes is draining them at once |
| `Scanning.FinalVerdictStable` | docker-deploy/src/HttpRequest.cpp:77-99 | An accepted or throwing verdict is unchanged by any further bytes, which stay behind the remainder; no method word that straddles the end of the buffer overtakes the one found |
| `Scanning.RefusalStable` | docker-deploy/src/HttpRequest.cpp:77-396 | A refusal persists when more bytes arrive, if the method word precedes the first blank line |
| `Scanning.CutsAgreeExactly` | docker-deploy/src/HttpRequest.cpp:78-99 | For one verdict: every piece from the front of a buffer that gets a verdict gets that of the buffer if and only if the first word precedes the first blank line or the whole buffer is refused |
| `Scanning.TrimmingHarmless` | docker-deploy/src/HttpRequest.cpp:98-99 | After "need more" the bytes before the method may be gone; the trimmed buffer plus any bytes gets the verdict, request and remainder of the untrimmed one |
| `Scanning.NoOvertaking` | docker-deploy/src/HttpRequest.cpp:82-99 | A method word of an extended buffer that starts before a blank line of the short buffer was already in the short buffer |
| `Scanning.AcceptedConsumes` | docker-deploy/src/HttpRequest.cpp:393-395 | In unbounded arithmetic an accepted message takes between 1 and all bytes of the buffer and leaves exactly the rest; in the words of the code it does not (`ConsumesNothingExactly`) |
| `Words.ConsumesNothingExactly` | docker-deploy/src/HttpRequest.cpp:246-253 | In the words of the code, on any buffer below 2^31 bytes: an accepted message consumes nothing if and only if it starts at the front of the buffer and head length plus Content-Length is 2^32 |
| `Words.LengthGoesBackExactly` | docker-deploy/src/HttpRequest.cpp:246-253 | A Content-Length body is taken with the cursor before its start if and only if start plus length lies between 2^32 and 2^32 plus the start, and with cursor 0 if and only if the sum is 2^32 |
| `Words.TurnGoesBackExactly` | docker-deploy/src/HttpRequest.cpp:294-312 | A turn of the chunk loop reads a chunk and ends at or before its own start if and only if the end of the chunk, CRLF included, lies between 2^32 + 2 and 2^32 plus the cursor and a CRLF stands where it wraps to |
| `Words.ChunksReturnExactly` | docker-deploy/src/HttpRequest.cpp:277-313 | The chunk loop in machine words returns if and only if it never comes to a cursor where it has been before |
| `Words.ForwardReturns` | docker-deploy/src/HttpRequest.cpp:277-313 | So it returns if no turn it reaches goes back |
| `Words.ReturnsExactly` | docker-deploy/src/HttpRequest.cpp:74-396 | The parser returns on a buffer if and only if its header section does not lead into a chunk loop that comes to a cursor where it has been before |
| `Words.WithinBound` | docker-deploy/src/HttpRequest.cpp:74-396 | On every buffer within the bound `Fits` the parser returns, with the verdict of unbounded arithmetic; for both parsers |
| `WordStream.DispatchEndsExactly` | docker-deploy/src/ClientHandler.cpp:59-81 | For any parser that leaves no more than it was given: the inner loop ends if and only if at every boundary it reaches the parser returns and, if it accepts, consumes something |
| `WordStream.InnerLoopEndsExactly` | docker-deploy/src/ClientHandler.cpp:59-81 | For the request parser in machine words: the inner loop ends on a buffer below 2^31 bytes if and only if at no boundary it reaches the chunk loop comes to a cursor where it has been before, or a request other than CONNECT stands at the front whose head and Content-Length add up to 2^32 |
| `Endless.DispatchedForEver` | docker-deploy/src/ClientHandler.cpp:59-81 | Every well-formed request, except CONNECT, whose Content-Length is 2^32 minus the length of its head is dispatched again and again, whatever bytes follow |
| `Endless.GetForEver` | docker-deploy/src/ClientHandler.cpp:59-81 | One of them, in 55 bytes: a GET with Content-Length 4294967241 |
| `Endless.ParsedForEver` | docker-deploy/src/HttpRequest.cpp:277-313 | On every well-formed chunked request whose body starts with the chunk header `FFFFFFF4` the parser does not return |
| `Endless.ChunkForEver` | docker-deploy/src/HttpRequest.cpp:277-313 | One of them, in 65 bytes |
| `Scanning.AcceptedFromFront` | docker-deploy/src/HttpRequest.cpp:74-396 | Locality: an accepted message is accepted, as the same message with the same length, from any piece of the buffer that holds the bytes it consumes |
| `Scanning.ReaderIncremental` | docker-deploy/src/ClientHandler.cpp:59-68 | Any scanner whose message verdicts are final gives the receive loop the laws of incremental reading |
| `Requests.RequestScannerLawful` | docker-deploy/src/HttpRequest.cpp:74-396 | The verdicts of the request grammar on a buffer that starts at the method word are final once the blank line is there |
| `Messages.ReadMessageInPrefix` | docker-deploy/src/HttpRequest.cpp:100-394 | Head and body of a message read from a buffer are those read from any longer buffer |
| `Messages.ReadMessageFromFront` | docker-deploy/src/HttpRequest.cpp:100-394 | The same for head and body of a message, through all three framings |
| `Framing.ReadChunksInPrefix` | docker-deploy/src/HttpRequest.cpp:273-313 | A chunk loop that finishes, refuses or throws does the same with more bytes behind |
| `Normalisation.BlankLineFirst` | docker-deploy/src/HttpRequest.cpp:98-99 | Why the hypothesis is needed: a blank line alone is refused, but followed in the same buffer by any readable request that request is accepted |
| `Delivery.BlankLineTwoWays` | docker-deploy/src/ClientHandler.cpp:59-81 | Two cuts of one stream on which the connection differs: blank line and request apart end in a 400 and close, together the request is delivered |
| `HttpRequests.HttpRequest.ParseRequest` | docker-deploy/src/HttpRequest.cpp:74-396 | The method, in `int` and `uint32_t` words and on the library's streams, gives exactly the verdict, request and remainder of the word specification, and throws exactly where it does, on every buffer below 2^31 bytes on which the code returns; what that verdict is on a written message is `CodeReadsRequest` and `CodeReadsCoded` |
| `WrittenRequests.WrittenRequestRead` | docker-deploy/src/HttpRequest.cpp:74-396 | For every method, target, list of field lines (names in any number, blanks around values) and body of the declared length, followed by any bytes: the request is refused if and only if a name is no token, a name that is no list field occurs twice, or Host is missing; otherwise it is read with the merged fields of `AddedExactly` and that body, and exactly its bytes are consumed |
| `WrittenRequests.WrittenCodedRead` | docker-deploy/src/HttpRequest.cpp:74-396 | The same for every chunked coding of the standard, whose trailers may repeat header fields and one another: payload, fields and trailers merged together, Content-Length set, Transfer-Encoding and Trailer removed |
| `WrittenExactly.HeadExactly` | docker-deploy/src/HttpRequest.cpp:99-232 | And conversely: the request parser accepts the head of a buffer if and only if the buffer starts with a written head in which every name is a token, no name is repeated that may not be, and Host is there |
| `WrittenExactly.AcceptedIsWritten` | docker-deploy/src/HttpRequest.cpp:74-396 | Whatever request is accepted starts, at the first method word, with such a head, and unless that names a Transfer-Encoding it is the request of that text with the body it declares, and as long as that text |
| `WrittenExactly.NotWrittenRefused` | docker-deploy/src/HttpRequest.cpp:74-232 | A buffer with a blank line and without such a head at its first method word is refused |
| `Faults.ThrowsExactly` | docker-deploy/src/HttpRequest.cpp:277-294 | The chunk loop throws if and only if a header line without a number stands behind good chunks |
| `Faults.RefusesExactly` | docker-deploy/src/HttpRequest.cpp:294-312 | It refuses if and only if behind good chunks the bytes a header line announces are there and not followed by CRLF |
| `Faults.FaultyRequest` | docker-deploy/src/HttpRequest.cpp:74-396 | A chunked request with such a line or such bytes behind its head throws or is refused, whatever follows |
| `WrittenInWords.CodeReadsRequest` | docker-deploy/src/HttpRequest.cpp:74-396 | `WrittenRequestRead` for `parse_request` in machine words, on every text below 2^31 bytes |
| `WrittenInWords.CodeReadsCoded` | docker-deploy/src/HttpRequest.cpp:74-396 | `WrittenCodedRead` in machine words |
| `WrittenInWords.SettledInWords` | docker-deploy/src/HttpRequest.cpp:246-312 | For both parsers: on a buffer below 2^31 bytes every verdict of unbounded arithmetic but "more" is that of the code; only lengths of which bytes are still to come can wrap |
| `WrittenRequests.OtherCodingRefused` | docker-deploy/src/HttpRequest.cpp:261-271 | A Transfer-Encoding of which no field says chunked is refused |
| `WrittenRequests.NoLengthRefused` | docker-deploy/src/HttpRequest.cpp:244-258 | A Content-Length that is no number is refused |
| `Wire.HeadRead` | docker-deploy/src/HttpRequest.cpp:156-222 | Both parsers: what the header loop makes of any written section, from its text |
| `Repetition.AddedExactly` | docker-deploy/src/HttpRequest.cpp:196-208 | Fields added one by one are refused if and only if some name that is no list field occurs twice; otherwise each name has its first value followed by the later ones that are not empty, in their order, as one list, and Set-Cookie has its first value |
| `Repetition.SplitListed` | docker-deploy/src/HttpRequest.cpp:203 | Cut at the separators, such a list gives back its values, if none of them holds a separator |
| `WrittenTrailers.TrailersExactly` | docker-deploy/src/HttpRequest.cpp:316-377 | Both parsers: trailers are refused if and only if one frames or routes the message, is repeated where it may not be, header included, or, in a request, has no token for a name; otherwise they are merged with the header |
| `WrittenTrailers.CodedExactly` | docker-deploy/src/HttpRequest.cpp:273-391 | A body in the chunked coding of the standard is decoded to its payload behind the same condition on its trailers |
| `WrittenTrailers.JoinedExactly` | docker-deploy/src/HttpRequest.cpp:316-377 | The legal trailers of `StandardRequestRead` are exactly those, and joining them is this merging |
| `FieldRules.RequestLineExactly` | docker-deploy/src/HttpRequest.cpp:116-151 | A request line is accepted as method and target if and only if it is one of three methods, a target without spaces, and `HTTP/1.1`, separated by single spaces and ended by CR |
| `FieldRules.TokenCharExactly` | docker-deploy/src/HttpRequest.cpp:8-21 | Characters of names are exactly those of section 3.2.6 of RFC 7230: visible and no delimiter |
| `FieldRules.SaidTwice` | docker-deploy/src/HttpRequest.cpp:196-201 | A request that has Host, Content-Length or Content-Type twice is refused, whatever follows |
| `FieldRules.SaidTooLate` | docker-deploy/src/HttpRequest.cpp:351-362 | A coded request with a trailer that frames, routes or describes the message is refused |
| `FieldRules.OnlyListsRepeated` | docker-deploy/src/HttpRequest.cpp:43-69 | Fields that repeat only lists of the standard are never refused for it |
| `FieldRules.ForgottenListRefused` | docker-deploy/src/HttpResponse.cpp:133-138 | But a response that repeats Vary, WWW-Authenticate or another list missing in the table is refused, where section 3.2.2 of RFC 7230 has it joined |
| `FieldRules.LengthExactly` | docker-deploy/src/HttpRequest.cpp:246 | A Content-Length is accepted as `n` if and only if it starts with a decimal number below 2^64 behind blanks and a sign, a minus negating modulo 2^64, and `n` is that number modulo 2^32 |
| `FieldRules.LengthStored` | docker-deploy/src/HttpRequest.cpp:380 | The length stored for a decoded body: as written one character, the length modulo 256; in decimal a text that is read as the length, below 2^32 |
| `HttpRequests.HttpRequest.ParseHead` | docker-deploy/src/HttpRequest.cpp:99-222 | Request line and header loop on the stream, against the grammar of the lines up to the blank line |
| `HttpRequests.HttpRequest.ParseRequestLine` | docker-deploy/src/HttpRequest.cpp:116-151 | Accepts exactly method SP target SP `HTTP/1.1` CR with one of three methods and a non-empty target |
| `HttpRequests.FindMethod` | docker-deploy/src/HttpRequest.cpp:82-90 | The least of three searches is the earliest method word in the buffer |
| `ParserCode.ReadSection` | docker-deploy/src/HttpRequest.cpp:156-222 | Cursor accounting: stream position and `chars_read` agree, the loop refuses or stops at exactly `headers_end` + 2, the line read there is then the empty one, and without a blank line (`npos`) the section is always refused |
| `ParserCode.ReadField` | docker-deploy/src/HttpRequest.cpp:165-208 | One header line: refused or added, with the name check, the CR, trimming, the chunked flag and duplicates, as `HeadRead` and `AddedExactly` say of whole sections |
| `Normalisation.AddFieldKeeps` | docker-deploy/src/HttpRequest.cpp:196-208 | A field that is taken is present afterwards and no other is changed; a repeated one must be a list field, and its value is the old one, a comma and the new one, or the old one if the new one is empty or the name Set-Cookie; names stay tokens, values stay trimmed, without CRLF and, if the new one is, without LF |
| `ParserCode.TrimFieldValue` | docker-deploy/src/HttpRequest.cpp:24-35 | The search from both ends yields the value without leading and trailing spaces and tabs, as defined by recursion |
| `ParserCode.DecodeChunk` | docker-deploy/src/HttpRequest.cpp:278-312 | One turn of the chunk loop in machine words, on every buffer below 2^31 bytes, with `substr` throwing behind the end and stopping there |
| `ParserCode.DecodeChunks` | docker-deploy/src/HttpRequest.cpp:273-313 | The chunk loop, where it returns, gives the decoded body, the 32-bit sum of the sizes and the cursor of the word specification |
| `ParserCode.DecodeTrailers` | docker-deploy/src/HttpRequest.cpp:316-377 | The trailer loop returns the fields and the cursor of the specification |
| `ParserCode.DecodeBody` | docker-deploy/src/HttpRequest.cpp:234-391 | Transfer-Encoding over Content-Length, the three framings in machine words, and the fields rewritten after decoding |
| `HttpRequests.HttpRequest.SerializeText` | docker-deploy/src/HttpRequest.cpp:419-429 | The loop over the header map writes the serialisation for some order of all the fields |
| `Framing.CompletenessTestExact` | docker-deploy/src/HttpRequest.cpp:246-253 | The Content-Length test in 32-bit arithmetic agrees with the real one exactly when the end of the body does not lie between 2^32 and 2^32 plus the buffer size, and the cursor is then exact |
| `Framing.ChunkTestExact` | docker-deploy/src/HttpRequest.cpp:294-312 | The same for the size of a chunk and the CRLF behind it |
| `Bounds.ShortBuffersFit` | docker-deploy/src/HttpRequest.cpp:246-312 | Every buffer below 2^31 bytes whose declared bodies and chunks end below 2^32 is within the bound |
| `Bounds.LengthWrapsExactly` | docker-deploy/src/HttpRequest.cpp:246-253 | Outside the bound, exactly: bytes are still to come, but the test of the code takes the body for complete and moves the cursor back to before it |
| `Bounds.LongestLengthWraps` | docker-deploy/src/HttpRequest.cpp:246-253 | Inputs outside the bound: any header section with a Content-Length of 2^32 - 1 |
| `Bounds.LengthIsCut` | docker-deploy/src/HttpRequest.cpp:246 | A declared length is cut to 32 bits, so that 2^32 + 5 is taken for 5 |
| `ClientHandlers.StreamFitsAnyCut` | docker-deploy/src/HttpRequest.cpp:246-312 | If the whole stream is within the bound, so is every buffer the loop parses, however the stream is cut |
| `ClientHandlers.CodeServesWithin` | docker-deploy/src/ClientHandler.cpp:34-81 | On connections within the bound both loops end and deliver what the specification in unbounded arithmetic says |
| `ClientHandlers.ClientHandler.HandleClientRequests` | docker-deploy/src/ClientHandler.cpp:21-86 | The two nested loops, with the class above, deliver exactly what the connection in machine words says, wherever the loops end; within the bound that is what the specification in unbounded arithmetic says |
| `ClientHandlers.ClientHandler.HandleBuffered` | docker-deploy/src/ClientHandler.cpp:59-81 | Where it ends, which `InnerLoopEndsExactly` decides, the inner loop takes everything the buffer holds, up to a refusal or a CONNECT |
| `Delivery.PipelinedRoundTrip` | docker-deploy/src/HttpRequest.cpp:419-429 | Requests written out one after the other, each in any order of its headers, are read back in turn and the tail stays in the buffer |
| `RoundTrip.SerializedVerdict` | docker-deploy/src/HttpRequest.cpp:419-429 | A serialised request followed by any bytes is read back, consuming exactly its text, if values are trimmed and without LF and its Content-Length is that of its body; otherwise it is not |
| `Normalisation.AcceptedRequest` | docker-deploy/src/HttpRequest.cpp:74-396 | What every accepted request is like: token names, no CRLF in a value, Host set, no Transfer-Encoding left, and for which framings its length is right |
| `Normalisation.NormalisationInDecimal` | docker-deploy/src/HttpRequest.cpp:379-395 | With the decimal Content-Length that the comment asks for, writing an accepted request and parsing it again is the identity if and only if no value holds a bare LF and the body is shorter than 2^32 bytes |
| `Normalisation.NormalisationAsWritten` | docker-deploy/src/HttpRequest.cpp:380 | With the one character the assignment stores, it is the identity if and only if the message had no Transfer-Encoding |
| `Examples.CodedIsLost` | docker-deploy/src/HttpRequest.cpp:380 | With that character, every request with a chunked coding of the standard is accepted and does not survive |
| `Examples.BareLineFeed` | docker-deploy/src/HttpRequest.cpp:328-377 | A GET whose only trailer holds a bare LF is accepted with it and does not survive, whatever the length style |
| `RoundTrip.FieldsReadBack` | docker-deploy/src/HttpRequest.cpp:162-213 | The field lines written for any order of a header map are folded back into that map, trimmed; a value with an LF makes the section refused |
| `StandardCoding.StandardRequestRead` | docker-deploy/src/HttpRequest.cpp:74-396 | Every request whose body is a chunked coding of section 4.1 of RFC 7230 (hexadecimal sizes, extensions, any non-empty chunks, legal trailers), written in any header order and followed by any bytes, is accepted with its payload, its trailers among the fields and Content-Length stored as `LengthStyle` says, consuming exactly its bytes; with `InDecimal` that is the request the algorithm of section 4.1.3 makes of it |
| `StandardCoding.StandardRead` | docker-deploy/src/HttpRequest.cpp:273-391 | The same for the body: payload, fields and cursor |
| `StandardCoding.ChunkSizeExactly` | docker-deploy/src/HttpRequest.cpp:287-294 | Exactly which lines are accepted as chunk headers: an optional run of blanks, sign and `0x`, hexadecimal digits and any junk before the first semicolon; the size is the number cut to 32 bits |
| `StandardCoding.NotOfTheStandard` | docker-deploy/src/HttpRequest.cpp:287-294 | So more is accepted than the standard allows: `0x5` is the header of a chunk of five bytes, and no header of the standard |
| `Chunked.ChunkedExactly` | docker-deploy/src/HttpRequest.cpp:273-391 | The chunk and trailer loops accept a text if and only if it is a chunked coding whose header lines are read as the sizes of its non-empty chunks, with legal trailers; body and fields are those of the algorithm in section 4.1.3 of RFC 7230 and exactly its bytes are consumed |
| `Chunked.ChunkedRead` | docker-deploy/src/HttpRequest.cpp:273-377 | Decoding inverts every such coding |
| `Chunked.ChunkedDecoded` | docker-deploy/src/HttpRequest.cpp:273-377 | Whatever is accepted is the coding of some chunks and trailers, which are returned |
| `Chunked.ChunksAtText` | docker-deploy/src/HttpRequest.cpp:277-313 | Chunks found cursor by cursor are exactly the concatenated text of the chunks |
| `Chunked.LegalHeaderRead` | docker-deploy/src/HttpRequest.cpp:287-294 | Every chunk header of hexadecimal digits and optional extensions is read as its number |
| `HttpResponses.HttpResponse.ParseResponse` | docker-deploy/src/HttpResponse.cpp:21-341 | The response parser in machine words gives the verdict and response of the word specification, including the exception of an unreadable max-age, and leaves the trimmed buffer, on every buffer below 2^31 bytes on which the code returns; what that verdict is on a written response is `CodeReadsSerialized` and `CodeReadsCodedResponse` |
| `WrittenResponses.SerializedResponseRead` | docker-deploy/src/HttpResponse.cpp:375-383 | Responses survive being written and read: for version, code and reason separated by single spaces, names without colon, trimmed values without LF and a Content-Length that is that of the body (or none and no body), the verdict on the text in any field order and followed by any bytes is that response, consuming exactly the text; without fields it is refused, with an unreadable max-age the parser throws |
| `WrittenResponses.WrittenResponseRead` | docker-deploy/src/HttpResponse.cpp:21-341 | For every list of field lines: refused if and only if there is none or a name that is no list field occurs twice; otherwise status line, merged fields and body are read as they stand there |
| `WrittenResponses.WrittenCodedResponseRead` | docker-deploy/src/HttpResponse.cpp:21-341 | The same for every chunked coding of the standard, with trailers that may repeat fields: its payload, fields and trailers merged, Content-Length set, Transfer-Encoding and Trailer removed |
| `WrittenInWords.CodeReadsSerialized` | docker-deploy/src/HttpResponse.cpp:21-341 | `SerializedResponseRead` for `parse_response` in machine words, on every text below 2^31 bytes |
| `WrittenInWords.CodeReadsCodedResponse` | docker-deploy/src/HttpResponse.cpp:21-341 | `WrittenCodedResponseRead` in machine words |
| `MaxAge.MaxAgeExactly` | docker-deploy/src/HttpResponse.cpp:316-325 | The parser throws if and only if Cache-Control has no no-store and a first max-age that does not start with a decimal number, behind blanks and a sign, that fits an `int` |
| `HttpResponses.HttpResponse.SerializeText` | docker-deploy/src/HttpResponse.cpp:375-383 | The loop over the header map writes the serialisation for some order of all the fields |
| `HttpResponses.HttpResponse.ParseStatusLine` | docker-deploy/src/HttpResponse.cpp:65-79 | Version, code and message extracted by the stream operators and joined again |
| `Responses.CheckCacheable` | docker-deploy/src/HttpResponse.cpp:345-360 | True exactly for a status line that holds "200 OK" and not "206 Partial Content", with a Cache-Control, if there is one, that holds neither "private" nor "no-store" |
| `Sharing.NotShared` | docker-deploy/src/HttpResponse.cpp:345-360 | Whatever stands around them, "private" or "no-store" in Cache-Control, or "206 Partial Content" in the status line, make a response uncacheable |
| `Sharing.Shared` | docker-deploy/src/HttpResponse.cpp:345-360 | A status line that holds "200 OK" and no 206 makes it cacheable if Cache-Control is absent or has neither word at any index |
| `Sharing.OnlySharedIsListed` | docker-deploy/src/RequestHandler.cpp:106-110 | Whatever the origin does, in every interleaving of handlers no listed node holds a response with either word in its Cache-Control, or one whose status line is not that of a complete 200 |
| `Sharing.PrivateStaysPrivate` | docker-deploy/src/RequestHandler.cpp:57-112 | In every interleaving a response that is not for everyone reaches only the client whose own request, up to the two validators, the origin answered with it |
| `Responses.ResponseScannerLawful` | docker-deploy/src/HttpResponse.cpp:21-341 | The verdicts of the response grammar are final once the blank line is there |
| `Upstream.UpstreamChunkingIndependence` | docker-deploy/src/RequestHandler.cpp:175-207 | Any two cuts of the bytes of an origin, with the word before the first blank line, yield the same response, 502 or exception: that for all bytes at once; for every scanner with final verdicts |
| `Upstream.ResponseChunkingIndependence` | docker-deploy/src/RequestHandler.cpp:175-207 | That for the response parser, with "HTTP" for the word |
| `Upstream.AwaitedAlikeExactly` | docker-deploy/src/RequestHandler.cpp:175-207 | The exact condition: all cuts yield the same reply if and only if the word precedes the first blank line or the whole is answered with 502 |
| `Upstream.AwaitAnyCut` | docker-deploy/src/RequestHandler.cpp:175-207 | The receive loop over any cut, from any buffer that waits, gives the reply to the concatenation |
| `Examples.BlankLineTwoReplies` | docker-deploy/src/RequestHandler.cpp:175-207 | Two cuts of one stream with different replies: a blank line and a 200 response apart give 502, together that response |
| `HttpResponses.ReceiveResponse` | docker-deploy/src/RequestHandler.cpp:170-215 | The loop with the parser above computes the reply in machine words, wherever its parsers return; within the bound it is that reply |
| `HttpResponses.CodeAwaitsWithin` | docker-deploy/src/RequestHandler.cpp:175-207 | On buffers within the bound the parsers return and the loop gives the reply of unbounded arithmetic |
| `HttpResponses.AwaitFitsAnyCut` | docker-deploy/src/RequestHandler.cpp:175-207 | Buffers of the loop stay within the bound if the whole reply is |
| `CacheManagers.CacheManager.StoreResponse` | docker-deploy/src/CacheManager.cpp:81-114 | The whole new list and map, and the invariant; a response for everyone is the first node and is found, with its expiry, under its URL or, if it has a Vary field, under URL, bar and that field; nothing changes for any other |
| `CacheKeys.KeyExactly` | docker-deploy/src/CacheManager.cpp:93-97 | For URLs without a bar, two responses are stored under the same key if and only if URL and Vary field are the same |
| `CacheKeys.KeyIsUrlExactly` | docker-deploy/src/CacheManager.cpp:93-97 | The key is the URL if and only if Vary is absent or empty |
| `CacheKeys.KeyCut` | docker-deploy/src/CacheManager.cpp:93-97 | Cut at its first bar, the key gives back URL and Vary field |
| `CacheKeys.VariantsSideBySide` | docker-deploy/src/CacheManager.cpp:94-103 | With room for both, two responses for one URL with different Vary fields are both found after they are stored, each under its own key with its own expiry, and the rest of the list is as before |
| `CacheKeys.BarredUrl` | docker-deploy/src/CacheManager.cpp:93-97 | With a bar in the URL that fails: such a URL and a variant of another one share a key |
| `CacheManagers.CacheManager.GetCachedResponse` | docker-deploy/src/CacheManager.cpp:55-78 | Miss, expired or hit; a hit moves its node to the front and changes nothing else |
| `CacheManagers.CacheManager.EvictIfNeeded` | docker-deploy/src/CacheManager.cpp:117-125 | The last node goes when the list is full, with whatever the map holds under its key |
| `Cache.StoreKeeps` | docker-deploy/src/CacheManager.cpp:99-103 | Storing keeps the representation: every map entry points to a live node with its key, the first with that key; the new entry is found and the surviving ones are unchanged |
| `Cache.GetKeeps` | docker-deploy/src/CacheManager.cpp:63-77 | Looking up keeps it, whether it hits or not, and every key still finds the entry it found before |
| `Cache.EvictKeeps` | docker-deploy/src/CacheManager.cpp:117-125 | Eviction leaves no dangling entry and room for one more |
| `CacheRuns.RunRefinesLastWrite` | docker-deploy/src/CacheManager.cpp:55-125 | In every run the representation invariant holds and what the map still finds is what was stored last under the key |
| `CacheRuns.RunStaysSmall` | docker-deploy/src/CacheManager.cpp:99-125 | In every run size of map <= size of list <= max(capacity, 1) |
| `CacheRuns.HitIsLastStored` | docker-deploy/src/CacheManager.cpp:63-77 | A hit returns the response stored last under the key, before its expiry |
| `CacheRuns.ExpiredStaysMiss` | docker-deploy/src/CacheManager.cpp:63-67 | With a clock that does not run backwards an expired key stays a miss until it is stored again |
| `CacheRuns.LruExactly` | docker-deploy/src/CacheManager.cpp:75-124 | Throughout a run the list is the keys used, most recent first, cut to the capacity, if and only if every store of the run is under a key without a node in the list once room is made |
| `CacheRuns.KeySurvives` | docker-deploy/src/CacheManager.cpp:55-125 | While the order is exact and every node indexed, a key is found if and only if it was used and fewer than capacity other keys have been used since, and a lookup of it hits if and only if what was stored last has not expired |
| `CacheRuns.HitExactly` | docker-deploy/src/CacheManager.cpp:55-125 | In every run that stores absent keys only, a lookup hits if and only if the key was used, fewer than capacity other keys have been used since, and what was stored last under it has not expired |
| `CacheRuns.IndexedExactly` | docker-deploy/src/CacheManager.cpp:99-124 | Whatever is listed is found throughout a run, if and only if each store of the run makes no room, or takes the node the map names under its key, or stores under the key it takes |
| `CacheRuns.StepKeepsIndexed` | docker-deploy/src/CacheManager.cpp:99-124 | The same for one operation on any valid state |
| `CacheRuns.LiveEntryLost` | docker-deploy/src/CacheManager.cpp:99-124 | The run that shows it fails: storing a listed key again leaves its old node, whose eviction drops the entry of the new one, while the list is still in exact order |
| `Handler.TransparentCaching` | docker-deploy/src/RequestHandler.cpp:57-112 | In every interleaving of handlers, evictions and expiries a GET for an absolute URL without bar gets the reply an uncached proxy would give, or, if it is conditional, the stored page in place of a 304; a request with another method gets the reply an uncached proxy would give. The run may hold all other requests, GETs with Range for such URLs excepted |
| `Handler.AdvanceSound` | docker-deploy/src/RequestHandler.cpp:57-112 | One atomic step of a handler keeps cache and handler sound; `is_in_cache`, `get_cached_response` and `store_response` are separate steps |
| `Handler.StepsAreHandleAll` | docker-deploy/src/RequestHandler.cpp:53-116 | The atomic steps of one handler, undisturbed, come to the whole function |
| `Revalidation.Revalidated` | docker-deploy/src/RequestHandler.cpp:59-85 | The steps of a conditional GET for a live page: the origin is asked by the one request that has the page's ETag and Last-Modified (empty if absent) for If-None-Match and If-Modified-Since and all else as the client sent it; on a 304 the client gets the page and the list only moves its node to the front, any other answer is sent and, if it is for everyone, stored |
| `Revalidation.UnchangedPage` | docker-deploy/src/RequestHandler.cpp:64-77 | For any origin that answers 304 exactly to the ETag of its current page: while that is the ETag of the cached page, the client gets the cached page, and the list only moves its node to the front |
| `Revalidation.ChangedPage` | docker-deploy/src/RequestHandler.cpp:64-112 | Once it has changed, the client gets the current page, and, if it is for everyone, that is what lookups find until it expires |
| `Revalidation.Otherwise` | docker-deploy/src/RequestHandler.cpp:57-112 | All other requests: an unconditional GET for a live page is answered by it whatever the origin would say; every other request but CONNECT goes to the origin as the client sent it, and only answers to GETs are stored |
| `RequestHandlers.RequestHandler.HandleRequest` | docker-deploy/src/RequestHandler.cpp:37-116 | The method: reply, new cache and new request headers are those of that function; a conditional GET for a live page is put to the origin with exactly the page's validators, and its reply is the page on a 304 and the answer otherwise; a malformed request is answered and the connection closed |
| `RequestHandlers.RequestHandler.Revalidate` | docker-deploy/src/RequestHandler.cpp:64-69 | The two header updates: afterwards the request has the page's validators and is otherwise unchanged; whether the origin's status line holds "304 Not Modified" |
| `Inclusion.LargerCacheKeepsHits` | docker-deploy/src/RequestHandler.cpp:57-112 | For unconditional GETs with storable replies that do not expire, the recency list at capacity c is at every moment a prefix of the list at c + 1, and every hit of the smaller cache is a hit of the larger |
| `Inclusion.HandlerKeepsHits` | docker-deploy/src/RequestHandler.cpp:57-112 | The same with the handler of the code for both capacities |
| `Inclusion.HitsAreListed` | docker-deploy/src/RequestHandler.cpp:57-112 | In such a session the cache hits exactly the capacity URLs used last |
| `Inclusion.VisitKeeps` | docker-deploy/src/RequestHandler.cpp:57-112 | One GET keeps the order; that it stores only what is absent from the list is derived from the handler |
| `Inclusion.RestoredKeyIsLost` | docker-deploy/src/RequestHandler.cpp:57-112 | The failure seen through the handler: GET a, GET a after its reply has expired, GET b at capacity 2, and the next GET a asks the origin again although its reply has not expired and only one other URL was used |
| `ReaperSafety.StepKeeps` | docker-deploy/src/ProxyServer.cpp:32-147 | Every step of acceptor, destructor, reaper and workers, of the code as written and of the variant, keeps the invariant on locks, threads, queue, shutdown and wake-ups |
| `ReaperSafety.LocksAndJoins` | docker-deploy/src/ProxyServer.cpp:64-112 | Over all runs of both: no worker is joined twice or before it has exited, queued iterators are distinct, locks nest queue before list |
| `ReaperHandles.IntactExactly` | docker-deploy/src/ProxyServer.cpp:93-145 | The exact condition on runs of the code: no handle is asked whether it is joinable while the acceptor is about to store it, if and only if no joinable handle has been destroyed, no erased node used, and the node the reaper may be about to erase is spent |
| `ReaperHandles.CrashedExactly` | docker-deploy/src/ProxyServer.cpp:93-145 | So between two reapings a run has destroyed a joinable handle or used an erased node if and only if some handle was asked too early |
| `ReaperHandles.EarlyReapCrashes` | docker-deploy/src/ProxyServer.cpp:98-145 | From every such step on, five steps of reaper and acceptor, that one included, end in a destroyed joinable handle |
| `ReaperHandles.ReaperSafe` | docker-deploy/src/ProxyServer.cpp:32-112 | In every other run no joinable handle is destroyed, queued iterators are live, and when the destructor is done every worker has exited and was joined exactly once |
| `ReaperHandles.LockedIsNeverEarly` | docker-deploy/src/ProxyServer.cpp:98-103 | Asking under the list lock rules such steps out |
| `ReaperHandles.ReapedTooEarly` | docker-deploy/src/ProxyServer.cpp:98-145 | A run of the code as written that reaches one: the worker exits and is reaped before its handle is stored |
| `ReaperHandles.SafeExactlyIfAtomic` | docker-deploy/src/ProxyServer.cpp:98-145 | Of the two programs, the one that creates a thread and stores its handle in one step is safe in every run, the other is not |
| `ReaperSafety.NeverAsleepForNothing` | docker-deploy/src/ProxyServer.cpp:36-90 | In both no wake-up is lost: the reaper sleeps only with an empty queue and a clear stop flag, or a notify is still due |
| `ReaperSafety.JoinedWorkerHasLetGo` | docker-deploy/src/ProxyServer.cpp:88-99 | In both a worker the reaper joins while it holds the queue lock has already released that lock |
| `ReaperLiveness.NoDeadlock` | docker-deploy/src/ProxyServer.cpp:32-112 | In every reachable state of both some thread can take a step by itself, or all that is left is waiting for clients, or everything is over |
| `ReaperLiveness.InternalRanksDown` | docker-deploy/src/ProxyServer.cpp:32-112 | In both a natural number falls with every step that no client causes |
| `ReaperLiveness.ShutdownCompletes` | docker-deploy/src/ProxyServer.cpp:32-61 | In both, once the destructor runs and the clients are gone, the threads finish after boundedly many steps and every worker has exited; each was joined once if no handle was asked too early |
| `ReaperProgress.FinishedAreReaped` | docker-deploy/src/ProxyServer.cpp:64-112 | Finished workers are reaped while the server runs: in runs that never ask too early, with the stop flag clear and no step left that a thread can take by itself, every worker serves a client, or has exited, was joined exactly once and has left the list |
| `ReaperProgress.ReapedInTime` | docker-deploy/src/ProxyServer.cpp:64-112 | And from every state of such a run that is reached after boundedly many steps |
| `ReaperOrder.FirstInFirstOut` | docker-deploy/src/ProxyServer.cpp:77-95 | In every run of both programs the iterators workers have pushed are, in that order, those the reaper has popped and then those still queued |

## Left out

- HttpRequests.HttpRequest.ParseRequest: buffers of 2^31 bytes and more, where an `int` cursor overflows; on buffers where the parser goes round for ever there is no result to state, and memory is unbounded, so a body that grows on each round raises no exception.
- ParserCode.DecodeChunk: buffers of 2^31 bytes and more.
- ParserCode.DecodeChunks: the same.
- ParserCode.DecodeBody: the same.
- HttpResponses.ReceiveResponse: the same, for the buffers of the loop.
- HttpResponses.HttpResponse.ParseResponse: the same; the response's own expiry time and revalidation flag are not modelled, no decision depends on them.
- ClientStream.ThrownIsMute: in unbounded arithmetic, like all that is proved of growing buffers; with lengths that wrap a verdict on a longer buffer may differ.
- ClientHandlers.ClientHandler.HandleClientRequests: a CONNECT ends the modelled run, since its handler reads the socket itself; `recv` errors, the stop flag, failing sends and exceptions of handlers are not modelled.
- ClientHandlers.ClientHandler.HandleBuffered: what the buffer holds after a 400 or a CONNECT is not stated, the loop does not look at it again; an exception of a handler, which leaves the inner loop with bytes still buffered, is not modelled.
- EndToEnd.WrittenIsAnsweredByLoop: in unbounded arithmetic; every response the origin sends starts before its first blank line and has a readable max-age; a GET the client wrote is for an absolute URL without a bar and has no Range; the requests of one connection may be handled in any order, which covers the one the code uses.
- Upstream.ResponseChunkingIndependence: the clock-derived expiry is not part of the response.
- RequestHandlers.RequestHandler.HandleRequest: the origin is a function that returns a response, so exceptions of `forward_request` and failing sends are not modelled; the clock is read once.
- CacheManagers.CacheManager.StoreResponse: the expiry is an input; how `get_expiry_time` computes it from dates is not part of this model, and the cacheability test is the caller's.
- CacheManagers.CacheManager.GetCachedResponse: the linked list is a sequence of nodes with identities, iterators are those identities; memory addresses are not modelled.
- HttpRequests.HttpRequest.SerializeText: the order in which the library visits the header map is any order of its keys.
- ReaperProtocol: a failure of `listen` before the reaper starts, and exceptions other than a failing thread creation.
- HttpResponses.HttpResponse.SerializeText: the order in which the library visits the header map is any order of its keys.
- WrittenInWords.CodeReadsRequest: texts of 2^31 bytes and more.
- WrittenReplies.CutShort: only for responses whose max-age can be read.
- Revalidation.Revalidated: for a handler that nothing disturbs; what holds when others interleave is `TransparentCaching` and `PrivateStaysPrivate`.
- The getters of both classes: a lookup in a map.
- Sockets, name resolution, `select` and the tunnel relay: foreign input and output; `recv` is a list of byte strings, the origin a function.
- Logging, printing and request ids: output only.
- Date parsing and formatting: library code.
- Responses without framing fields: the code gives them an empty body and the model does the same; reading until the origin closes is not claimed.
- `FakeCache`, the test programs, `proxy.cpp` and the build files: stubs and plumbing.
