# MJPEG stream proxy: a verified model of its core

`server.js` holds `MjpegProxy`. It opens one HTTP request to an upstream camera that serves
`multipart/x-mixed-replace` MJPEG, and fans the bytes out to every browser viewing the stream. This
project models four parts of it in Dafny:

- **Boundary extraction** (`boundary.dfy`). `extractBoundary` turns the upstream `Content-Type` into
  the multipart boundary token. It deletes all white space, cuts the value after `boundary=` at the
  next `;` (else `\r`, else the end), then drops every `"` and one leading `--`.
- **Chunk realignment** (`realign.dfy`). The `data` handler keeps the last two bytes of the previous
  chunk. When the first `--<boundary>` marker of a chunk is not preceded by CRLF, the handler inserts
  one, as a multipart delimiter requires (section 5.1.1 of RFC 2046).
- **Broadcast with pending alignment** (`broadcast.dfy`). A viewer already aligned gets every
  repaired chunk. A viewer that has just joined waits for a chunk holding a marker, gets that chunk
  from the marker on, and stops waiting. The marker index is taken in the chunk as received and
  applied to the repaired chunk.
- **The session state machine** (`session.dfy`). The class `ProxySession` holds the fields of
  `MjpegProxy`: the two viewer arrays, `mjpegRequest`, `boundary` and `globalMjpegResponse`. Each
  Node callback is a method: a viewer attaching, the upstream response arriving, a data chunk, the
  end of the stream, and a viewer's socket closing.

`builtins.dfy` states the JavaScript and Node built-ins these parts use, with their edge cases:
- `indexOf` clamps its start position, so a start of -1 searches from 0;
- `substring` clamps and swaps its bounds;
- Array `indexOf` and `splice`;
- `Buffer.from(string)` encodes UTF-8, while `string.length` counts UTF-16 units.

Viewers are opaque ids. Each upstream request is numbered in the order it was issued. Everything
written to viewers goes into an output log:
- `Head` is `writeHead` with the announced `Content-Type`;
- `Write` is `write` of bytes;
- `End` is `end`.

`Received(out, v)` gives the bytes viewer `v` has been sent.

### Behaviour of the code that the model keeps

In these points the code behaves differently from what one might expect of such a proxy. The model
follows the code:

- `boundary` is never reset. After the audience empties it keeps the last value, and a viewer that
  joins a fresh request before its response arrives is told the old boundary
  (`ProxySession.ProxyRequest`, `ProxySession.Close`).
- A viewer that joins while the first request still waits for its response is told `boundary=null`.
  The viewer whose attach opened the request is admitted only after the boundary has been extracted,
  so it is told the real token (`Session.EarlyViewerSeesNullBoundary`).
- The viewer whose attach opened the upstream request is also put on the pending list. It receives
  data only from the first marker on, like every later viewer (`ProxySession.OnResponse`).
- The request's `error` handler only logs. `mjpegRequest` stays set, so later viewers join a request
  that never delivers. A fresh request is opened only once every viewer that joined has closed and the
  audience is empty again, which resets `mjpegRequest` (`ProxySession.Close`).
- `end` ends every viewer's response but removes nobody and leaves `mjpegRequest` set.
- When the audience empties, `mjpegRequest` is forgotten without being aborted, and only the
  `globalMjpegResponse` is destroyed. A request still waiting for its response therefore stays
  outstanding, and a later viewer issues a second one. Both responses then register `data` handlers
  that write to the same audience (`Session.TwoRequestsOutstanding`).
- The viewer captured by a response callback is added to the audience even if its socket has closed
  in the meantime. Its `close` handler is then registered too late to fire, so in the code the
  audience never empties again. The model has no socket state and over-approximates here:
  `ProxySession.Close` stays callable for that viewer, so in the model the audience can empty.
- So "an upstream connection is open exactly when someone watches" is not an invariant of this code.
  The invariant that does hold is `ProxySession.Valid`:
  - neither array holds a viewer twice;
  - every pending viewer is in the audience;
  - a viewer waiting for a response is in neither array;
  - a boundary is known exactly when some response has arrived.

## Model

| member | source | states |
|---|---|---|
| Builtins.IndexOfFrom | server.js:14-18 | the result is -1 or an index at or after the start where the pattern occurs, and no occurrence lies between the start and the result |
| Builtins.IndexOfIsFirst | server.js:14 | `indexOf` returns exactly the first occurrence at or after the clamped start |
| Builtins.AbsentPatternNotFound | server.js:18 | a pattern holding an element the text lacks is never found, whatever the start |
| Builtins.Substring | server.js:22 | with bounds in order and in range it is that slice; in every case it holds only characters of the text |
| Builtins.SubstringClampsAndSwaps | server.js:22 | bounds the other way round are swapped, a start at or below 0 reads from the beginning, and a start or end at or past the length reads to the end from the other (clamped) bound |
| Builtins.Find | server.js:83 | `indexOf` on an array: -1 exactly when absent, otherwise the first index holding the element |
| Builtins.RemoveDropsOnly | server.js:121-123 | `splice(indexOf(x), 1)` on a duplicate-free array removes exactly `x`: one shorter, still duplicate-free, same other members |
| Builtins.Utf8Char | server.js:70 | one to four bytes; one byte exactly for ASCII, equal to the code point; all bytes of a longer sequence are 0x80 or above |
| Builtins.Utf8Append | server.js:70 | the encoding of a concatenation is the concatenation of the encodings |
| Builtins.Utf16NoLongerThanUtf8 | server.js:71 | `string.length` never exceeds the UTF-8 byte count, and equals it for ASCII |
| Builtins.Utf8OmitsAsciiChar | server.js:66 | an ASCII character absent from a string gives no byte of its value in the encoding |
| Builtins.Clamp | server.js:14-22 | definition of the position clamping of `indexOf` and `substring`; its ensures keep the result in [0, n] and leave an in-range position alone |
| Builtins.IndexOf | server.js:14-18 | definition of String and Buffer `indexOf` with a clamped start; `Builtins.IndexOfFrom`'s ensures and `Builtins.IndexOfIsFirst` give its value |
| Builtins.Remove | server.js:121-123 | definition of `splice(indexOf(x), 1)`; `Builtins.RemoveDropsOnly` states its effect |
| Builtins.Utf8 | server.js:65-70 | definition of `Buffer.from(string)`; `Builtins.Utf8Append`, `Builtins.Utf8OmitsAsciiChar` and `Builtins.Utf16NoLongerThanUtf8` state its properties |
| Builtins.Utf16Length | server.js:71 | definition of `string.length`; `Builtins.Utf16NoLongerThanUtf8` relates it to the UTF-8 length |
| Boundary.IsWhitespace | server.js:12 | definition of the ECMAScript `\s` class; `Boundary.StripWhitespace`'s ensures use it |
| Boundary.TokenEnd | server.js:15-21 | definition of `endIndex`; `Boundary.TokenEndsAtSemicolonOrEnd`, `Boundary.NoSemicolonBefore` and `Boundary.CarriageReturnBranchIsDead` give its value |
| Boundary.ContentTypeFor | server.js:114 | definition of the announced `Content-Type`; `Boundary.HeaderExtraction` and `Boundary.HeaderRoundTrip` read it back |
| Boundary.StripWhitespace | server.js:12 | the result has no white space, holds only characters of the input, and is the input when that has none |
| Boundary.StripWhitespaceAppend | server.js:12 | white space removal distributes over concatenation |
| Boundary.RemoveQuotes | server.js:22 | the result has no `"`, holds only input characters, and is the input when that has no quote |
| Boundary.RemoveQuotesAppend | server.js:22 | quote removal distributes over concatenation, so every character other than `"` is kept, in order |
| Boundary.StripLeadingDashes | server.js:22 | the anchored `--` removal keeps only input characters |
| Boundary.ExtractBoundary | server.js:11-23 | the token never holds white space or `"`, and holds no `;` whenever `boundary=` was found |
| Boundary.TokenStopsAtSemicolon | server.js:15-22 | once `boundary=` is found, the raw token before quote removal holds no `;` |
| Boundary.NoSemicolonBefore | server.js:15 | the `;` search lands at or after the end of `boundary=`, with no `;` before it |
| Boundary.CarriageReturnBranchIsDead | server.js:12-21 | with no `;` after the `boundary=` search position, the token runs to the end of the white-space-free header: the `\r` fallback never fires |
| Boundary.NoCarriageReturnFound | server.js:18 | in a string without white space the `\r` search returns -1 |
| Boundary.ExtractsBoundaryParameter | server.js:11-22 | for a header `pre boundary=T rest` with no earlier `boundary=`, no `;` in T and `rest` empty or starting with `;`, the result is T without quotes and one leading `--` |
| Boundary.FirstParameterFound | server.js:14 | `boundary=` is found right after a prefix that does not hold it |
| Boundary.TokenEndsAtSemicolonOrEnd | server.js:15-21 | the token ends at the `;` that follows it, or at the end of the header |
| Boundary.MissingParameterTakesFromIndexEight | server.js:14-22 | with no `boundary=` and no `;` the call does not fail: the -1 position plus 9 takes the white-space-free header from index 8 on (empty when shorter) |
| Boundary.MissingParameterReadsFromIndexEight | server.js:14-22 | with no `boundary=`, the token is the white-space-free header between index 8 and the first `;` (or the end), with the bounds swapped when the `;` comes first |
| Boundary.MissingParameterSwapsBounds | server.js:14-22 | `a;b` gives `;b`: the swapped `substring(8, 1)` leaves a `;` in the token |
| Boundary.HeaderPrefixNamesNoParameter | server.js:114 | the fixed part names no `boundary=` before the parameter |
| Boundary.HeaderExtraction | server.js:114 | extracting from the header announced for a token gives back the token less one leading `--` |
| Boundary.HeaderRoundTrip | server.js:114 | a token in canonical form is given back by extraction from the header announced for it |
| Boundary.ReExtractionIsStable | server.js:54 | when `boundary=` was found and the extracted token does not start with `--`, extracting again from the header announced for it gives the same token |
| Boundary.ExtractsFromCameraHeader | server.js:16-22 | `…;boundary=--T` followed by CRLF gives T |
| Boundary.StripsOnlyOneDashPair | server.js:22 | `----T` gives `--T`: only one leading `--` is removed |
| Boundary.RemoveSurroundingQuotes | server.js:22 | a quote-free token between two quotes comes out of quote removal as the token |
| Boundary.HeaderExtractionUnquotes | server.js:12-22 | a token with no white space or `;` placed after `boundary=` is read back with its quotes removed and one leading `--` stripped |
| Boundary.ExtractsQuotedBoundary | server.js:12-22 | the quoted form `boundary="T"` gives T less one leading `--` |
| Realign.MissingCrlf | server.js:68 | definition of the repair test; `Realign.Repair`'s ensures and `Realign.FirstMarkerFollowsCrlf` state what it achieves |
| Realign.Marker | server.js:65-66 | the searched marker is `--` followed by the boundary's UTF-8 bytes |
| Realign.TailOf | server.js:76-77 | the carried state exists exactly when the chunk has two bytes, and is its last two |
| Realign.MarkerIndex | server.js:66 | -1 or the index of the first marker, always an index inside the chunk |
| Realign.Repair | server.js:64-74 | with no carried bytes the chunk passes unchanged; the repair fires exactly when the first marker is at 0 after a tail other than CRLF, or at 2 or later without CRLF before it, and then CRLF is inserted before the marker and nothing else changes |
| Realign.RepairAsWritten | server.js:69-72 | the code as written, which slices the rest of the chunk at the UTF-16 length; passes the chunk unchanged with no carried bytes |
| Realign.AsWrittenAgreesForAsciiBoundary | server.js:71 | for an ASCII boundary the code as written equals the corrected repair |
| Realign.AsWrittenRepeatsMarkerBytes | server.js:71 | when the repair fires, the output as written is longer than the corrected one by the marker's UTF-8 length minus its UTF-16 length |
| Realign.AsWrittenInsertsCrlfBeforeMarker | server.js:69-72 | when the repair fires, the code as written keeps the chunk before the first marker and puts CRLF and the whole marker at the marker's index |
| Realign.AsWrittenDuplicatesByteForLatinBoundary | server.js:69-72 | boundary `é`, chunk `41 41 2D 2D C3 A9` after tail `41 41`: the corrected repair gives `41 41 0D 0A 2D 2D C3 A9`, the code as written repeats `A9` |
| Realign.RepairKeepsTail | server.js:72-77 | the bytes carried from a repaired chunk are the received chunk's last two |
| Realign.FirstMarkerFollowsCrlf | server.js:64-73 | with carried bytes, a boundary without CR and a first marker at 0 or from 2 on, the repaired chunk has a marker: at 0 only when the carried bytes are CRLF and the chunk is unchanged, otherwise right after a CRLF inside the chunk |
| Realign.RepairedMarkerMovesByTwo | server.js:69-72 | when the repair fires, the first marker of the output is the chunk's first marker two bytes further on |
| Realign.CrlfInsertionKeepsFirstMarker | server.js:66-72 | inserting CRLF before the first occurrence of a CR-free pattern moves that occurrence by two |
| Broadcast.Received | server.js:86-90 | definition of the bytes one viewer was written; `Broadcast.ReceivedAppend` splits it over a log |
| Broadcast.Share | server.js:83-91 | definition of what one viewer gets of one chunk; `Broadcast.FanOutDelivers` and `Broadcast.ShareStartsAtMarker` state it |
| Broadcast.Serve | server.js:82-91 | definition of the writes for one viewer; `Broadcast.FanOutDelivers` states what they deliver |
| Broadcast.FanOut | server.js:79-92 | definition of the loop's writes; `Broadcast.FanOutDelivers`, `Broadcast.FanOutInReverseOrder` and `Session.ProxySession.WriteToAudience` state them |
| Broadcast.Delivered | server.js:61-92 | definition of one viewer's bytes over a run of chunks; `Broadcast.RunDelivers` ties it to a run of `data` events, `Broadcast.LateJoinerReceivesSuffix` and `Broadcast.LateJoinerStartsAtMarker` state its properties |
| Broadcast.Skipped | server.js:83-86 | definition of how much a joining viewer misses; `Broadcast.LateJoinerReceivesSuffix` states it |
| Broadcast.FanOutDelivers | server.js:79-92 | each viewer of the audience gets exactly its share of the chunk (all of it, or the part from the marker, or nothing while waiting and no marker), and nobody else gets anything |
| Broadcast.FanOutExtends | server.js:79-92 | after the loop, each viewer's received bytes are its earlier bytes followed by its share |
| Broadcast.FanOutInReverseOrder | server.js:79-80 | with nobody waiting, the loop writes the chunk once to each viewer, last viewer first |
| Broadcast.LateJoinerReceivesSuffix | server.js:61-92 | over any run of chunks a joining viewer receives exactly the aligned stream from an offset on: no gap, no repeat |
| Broadcast.ShareStartsAtMarker | server.js:84-86 | the part of the repaired chunk sent to a joining viewer starts with the marker, or with CRLF and the marker when the repair fired |
| Broadcast.LateJoinerStartsAtMarker | server.js:61-92 | whatever a joining viewer receives starts with a marker, or with CRLF and a marker |
| Broadcast.DataRun | server.js:61-92 | definition of a run of `data` events: each step is `Session.ProxySession.OnData`'s new log, waiting list and carried bytes |
| Broadcast.RunDelivers | server.js:61-92 | over any run of `data` events each viewer of the audience is written exactly `Delivered` of the run, starting waiting exactly when it was pending, and nobody else is written anything |
| Session.BoundaryText | server.js:114 | definition of `'' + self.boundary`, `null` when unknown; `Session.EarlyViewerSeesNullBoundary` shows it in a header |
| Session.Ends | server.js:95-98 | definition of the `end` loop's calls; `Session.EndsEveryViewerInReverse` states them |
| Session.EndsEveryViewerInReverse | server.js:94-98 | the `end` loop ends every viewer once, last viewer first |
| Session.ServedLeavesPending | server.js:83-88 | serving a waiting viewer removes it from the waiting list and keeps the rest |
| Session.PendingAfterSkip | server.js:89-91 | writing to an aligned viewer leaves the waiting list as it is |
| Session.ProxySession.Valid | server.js:32-37 | definition of the session invariant; the constructor establishes it and every event method's ensures keep it |
| Session.ProxySession.constructor | server.js:25-37 | nobody watching, no request, no boundary, no response |
| Session.ProxySession.ProxyRequest | server.js:39-106 | no socket: nothing changes; a request exists: the viewer joins both arrays with the current boundary announced and no request is issued; otherwise exactly one fresh request is issued, awaiting this viewer |
| Session.ProxySession.NewClient | server.js:109-118 | announces `boundary=` with the current boundary (`null` if none), appends the viewer to both arrays, keeps the invariant |
| Session.ProxySession.OnResponse | server.js:52-59 | the response becomes the global one, the boundary is the one extracted from its `Content-Type`, the waiting viewer joins both arrays, the response's carried bytes start empty |
| Session.ProxySession.OnData | server.js:61-93 | the carried bytes become the repaired chunk's last two, the log grows by the fan-out of the repaired chunk, and the waiting list empties exactly when the received chunk holds a marker; the audience is untouched |
| Session.ProxySession.WriteToAudience | server.js:79-92 | the loop appends exactly the fan-out writes and empties the waiting list exactly when there is a marker |
| Session.ProxySession.OnEnd | server.js:94-99 | appends an end for every viewer, last first, and changes nothing else |
| Session.ProxySession.Close | server.js:120-132 | removes the viewer from both arrays and nobody else; when the audience empties the request is forgotten and the global response destroyed, the boundary kept |
| Session.EarlyViewerSeesNullBoundary | server.js:45-46 | a viewer joining before the first response is told `boundary=null` |
| Session.TwoRequestsOutstanding | server.js:45-52 | after that viewer leaves, the next one issues a second request while the first is still outstanding |

## Left out

- The Express app, argv parsing, `listen` and console logging (server.js:1-5, 138-150): these are process plumbing.
- `NODE_TLS_REJECT_UNAUTHORIZED` (server.js:7): a global TLS policy toggle with no effect on the proxy's logic.
- URL parsing and the choice between `http` and `https` (server.js:30, 49): the constructor keeps the URL as given and rejects only an empty one. A malformed URL, on which `new URL` throws, is not modelled.
- Issuing, sending and cancelling real requests (server.js:52, 105): a request is a number and its response a later `OnResponse` call.
- The headers of `writeHead` other than `Content-Type`, and the status code (server.js:110-115): they are constants with no bearing on the stream.
- `res.write`, `res.end` and `destroy()` (server.js:86, 90, 97, 129) are log entries and a set of destroyed responses. What Node does with a write after `end`, or with a destroyed response, is not modelled.
- The request's `error` handler (server.js:102-104) only logs and changes no state, so it has no event method. Its effect on the state is nothing, and `request` stays set.
- A response without a `Content-Type` header: `extractBoundary(undefined)` throws inside the callback and ends the process; `OnResponse` takes the header value as a string.
- `res.socket` being null when `_newClient` registers the close handler (server.js:120): this throws in Node; `NewClient` assumes the socket exists.
- Session.ProxySession.OnData: applies the corrected repair `Realign.Repair`, not the code as written at server.js:71, so that the stream it writes is the one the Findings row shows to be intended. For an ASCII boundary the two are equal (`Realign.AsWrittenAgreesForAsciiBoundary`). For a non-ASCII boundary the code as written writes the bytes repeated after the marker and carries the last two bytes of that longer chunk, and the model does not: `Realign.AsWrittenDuplicatesByteForLatinBoundary` gives such an input. The alignment a joining viewer gets is the same either way (`Realign.AsWrittenInsertsCrlfBeforeMarker`).
- Event-loop interleaving: Node runs one callback at a time, so events are sequential method calls chosen by the caller.
- `Session.ProxySession.Close` requires the viewer to be in the audience. A socket's `close` fires once, for a response its handler registered, so `indexOf` never returns -1 there (server.js:121).
- `Session.ProxySession.ProxyRequest` requires a viewer id never used before, because each request brings a new response object.
- Boundary.ExtractBoundary: string positions are counted in Unicode scalar values, not UTF-16 code units, so `substring` and `indexOf` positions differ from JavaScript's for a header holding characters outside the Basic Multilingual Plane. HTTP header values are Latin-1 in Node, where the two agree.
- The marker search runs over the bytes with `indexOf` on a `Buffer` of the UTF-8 string, as in the code. Node's decoding of header bytes as Latin-1 before they reach `extractBoundary` is not modelled.

## Findings

| source | as written | input that shows it | evidently intended | confidence | as-written member | corrected member |
|---|---|---|---|---|---|---|
| server.js:71 | the rest of the chunk is sliced at `p + oldheader.length`, a count of UTF-16 code units, while the marker was searched for and re-inserted as UTF-8 bytes | boundary `é`; chunk `41 41 2D 2D C3 A9` after a chunk ending `41 41`: the output is `41 41 0D 0A 2D 2D C3 A9 A9`, one byte repeated | slice at the marker's byte length, so the output is the chunk with CRLF inserted and nothing else changed | not executed; only reachable with a non-ASCII boundary, which section 5.1.1 of RFC 2046 does not allow | Realign.RepairAsWritten, shown by Realign.AsWrittenDuplicatesByteForLatinBoundary and Realign.AsWrittenRepeatsMarkerBytes | Realign.Repair, proved by Realign.FirstMarkerFollowsCrlf and Realign.RepairKeepsTail |
