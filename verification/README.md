# featherweb: the wire layer, in Dafny

This project models the parts of featherweb that turn bytes into requests and responses, and
proves what they promise over every input and every run:

- the incremental HTTP/1.1 request parser (`src/featherweb/server/parser.py`),
- WebSocket framing and the WebSocket cycle (`src/featherweb/server/ws_protocol.py`),
- the streaming multipart reader (`src/featherweb/multipart.py`),
- one request/response exchange and the connection that serves them in turn
  (`src/featherweb/server/protocol.py`),
- the router (`src/featherweb/routing.py`) and byte ranges (`src/featherweb/response.py`).

`dafny verify dfyconfig.toml` checks all of it.

## How it is built

Each object of the source that updates its fields is a Dafny `class` with those fields
(`HttpParser`, `FrameParser`, `WebSocketCycle`, `UploadFile`, `FormReader`, `RequestCycle`,
`HttpProtocol`, `Node` and `Router`, `FileResponse`), its loops are loops, and each method is
proved to move an immutable value by a specified step. The lemmas about whole runs are proved of
those steps: a run is any sequence of enabled steps of the peer, the transport, the timers and the
applications, so every interleaving is covered.

| file | content |
|---|---|
| `Bytes` | byte strings, searching, numerals |
| `ParserSpec`, `ParserSplit`, `ParserExact`, `ParserAccount`, `ParserChunks`, `ParserHeads`, `ParserFields`, `ParserMessages`, `ParserLines`, `ParserEnds`, `HttpParser` | the request parser: steps, independence from the cut, its exact condition, byte accounting, chunked and head round trips, what written fields say, whole requests, single lines, the end of the stream, the class |
| `WsFrames`, `WsLegal`, `WsSpec`, `WsSafety`, `WsReassembly`, `WsRuns`, `WsHandshake`, `WsSending`, `WsTelling`, `WebSocket` | frames, which bytes are frames and text, the cycle, what every run keeps, reassembly, runs end to end, what reaches the peer of the handshake, every frame sent, what the application hears, the classes |
| `MultipartSpec`, `MultipartSplit`, `MultipartExact`, `MultipartRoundTrip`, `MultipartRefusals`, `Multipart` | the form reader: steps, independence from the chunks, its exact condition, the round trip, refusals, the classes and file ownership |
| `ExchangeSpec`, `ExchangeFraming`, `ExchangeResults`, `ResponseHeads` | one exchange, a reader following section 6.3 of RFC 9112, the results about both, and the head and bodies against what the application sent |
| `ConnectionSpec`, `ConnectionSafety`, `ConnectionRequests`, `ConnectionPersistence`, `LateSteps`, `AbandonedReceive`, `ConnectionHeads`, `ConnectionEnding`, `ConnectionPauses`, `UpgradedConnection`, `ConnectionRuns`, `LateRaise`, `Protocol` | the connection, one exchange at a time, requests end to end, separable responses, steps of exchanges that are over, calls nobody wakes, heads on the wire, how it ends, when reading pauses, bytes behind an upgrade, concrete runs, the classes |
| `Routing`, `RoutingTable`, `RoutingResults`, `RouterRuns`, `RouterOrder`, `RouterCaptures`, `Router` | the segment tree, what an insertion does, tree against linear scan, runs of registrations, their order, routes as written and what they capture, the classes |
| `Ranges`, `RangeTexts` | range arithmetic and the sending loop, the texts of ranges |

## The main results

1. **Requests, end to end** (`EveryRequestIsServedAsSent`): whatever the cuts of the stream, the
   pauses, the timers and the order in which applications act, exchange `i` serves message `i` of
   the byte stream, and its application has been handed a prefix of that message's body, all of it
   if it was told that the body ended.
2. **One exchange at a time** (`OneExchangeAtATime`): no request replaces an unfinished one, all
   bytes of one response precede those of the next, and a paused connection has a full buffer to
   hand out, so a consumer never waits on an empty buffer with reading off.
3. **Responses are delimited** (`FramingIsFaithfulIff`, `OwnLengthIsFaithfulIff`,
   `PipelinedResponsesAreSeparable`): a reader following section 6.3 of RFC 9112 recovers exactly
   the bodies sent, if and only if no interim response was written after the head.
4. **The cut does not matter, exactly when** (`ParserExact.SplitIndependentIff`,
   `MultipartExact.SplitIndependentIff`): both incremental readers give the same result for every
   cut if and only if a condition on the stream holds.
5. **Requests are what was written** (`HeadIsReadAsWritten`, `RequestRoundTrip`,
   `ChunkedRequestRoundTrip`, `RequestSurvivesAnyCut`): told from the written line and fields alone,
   which head is refused and with what status, what an accepted head says, and that the body is the
   bytes announced, with the next request behind them. Round trips also for chunked bodies
   (`ChunkedRoundTrip`), frames in any pieces (`FramesSurviveAnyCut`), fragmented and masked messages
   (`MessagesSurvive`), forms in any chunks (`FormSurvivesAnyCut`), routes (`RouteIsReadAsWritten`), a
   file's bytes to the client (`FileReachesTheClient`).
6. **WebSocket runs** (`EveryRunIsSafe`, `EveryRunIsExact`, `FeedClosesIff`), exactly when an HTTP
   answer reaches the peer and when a frame gets there first (`AnswerIsSentIff`,
   `FrameComesFirstIff`), and every frame that does, with its payload, as a function of what the
   peer and the application did (`EveryFrameIsSentAsSaid`, `ClientGetsWhatIsSaid`).
7. **The segment tree refines a linear scan** (`TreeIsScan`, `SearchFindsTheChosen`,
   `LookupIsLinearScan`); its order is that of the registration calls (`BeforeIffEarlier`), a refused
   registration changes no lookup, and each parameter captures the text at its own position, a
   catch-all all that is left of the path (`LookupCaptures`).
8. **Who is told what** (`WokenIff`, `AbandonedIff`, `EndIsToldOnceIff`,
   `BytesBehindAnUpgradeAreLost`): exactly when a waiting `receive` can still be woken, exactly which
   steps abandon it, exactly when the end of a body is told once, and exactly when an upgrade loses
   no byte.
9. **Responses say what the application said** (`HeadIsAsStarted`, `HeadIsExact`,
   `BodiesAreAsSent`, `WireHeadsAreAsStarted`): status, fields and bodies on the wire as functions of
   the messages sent, and exactly when the connection is kept (`KeptIff`).
10. **A response in progress survives a shutdown** (`StopLetsTheResponseFinish`): over every run
   without a loss or an error the transport closes only behind its last message.
11. **What an application can still do when its turn is over** (`LateStepClosesIff`,
   `LateRaiseCutsOff`): nothing that the connection notices, unless it raises, and then not one more
   write of anyone reaches the peer.

## Where the code does not do what one might expect

Each of these has a lemma with the inputs that show it and, where they are not the same, one with
the exact condition; the code was kept as it is.

- Two empty lines before a request line are a 400 when they arrive in one read and are dropped when
  they arrive in two (`TwoBlankLinesDependOnTheCut`; by `ParserExact.SplitIndependentIff` exactly these
  streams depend on the cut).
- The 8 KB cap on part headers is tested only while their end has not arrived
  (`OverlongHeadersRun`; by `MultipartExact.SplitIndependentIff` the chunks matter exactly for blocks
  that exceed it).
- `receive` writes `100 Continue` even after the response head, so it lands inside the body
  (`LateInterimRun`; by `FramingIsFaithfulIff` the framing is faithful exactly when this does not
  happen).
- `Content-Length` fields of the application's own are trusted, several of them and ones that are no
  number included (`WrongLengthRun`, `OwnLengthIsFaithfulIff`).
- A `receive` waiting for body bytes is never woken once its exchange is not the one in progress, not
  even by the loss of the connection (`WokenIff`). Exactly three things abandon it (`AbandonedIff`):
  the response completes without the body (`FinalSendAbandonsIff`, `AnsweredRun`); the request breaks
  off before the response has started, is answered 400, and its application is never told
  (`BreakingOffAbandonsIff`, `CutOffRun`); or the call is made, or goes on waiting behind another
  one that returns, when that has already happened. A call that waits for the end of the connection
  can always be woken (`EndCanAlwaysBeTold`).
- An application that raises after its response is complete closes the connection under the next
  request, whose response is cut off where it stands (`LateRaiseRun`, `LateRaiseCutsOff`; by
  `LateStepClosesIff` a raise is the only such step).
- The end of a body is told again to every call that was waiting for it, and to one that joins before
  the first of them resumes (`OverlappingCallsEndTwice`, `EndIsToldOnceIff`).
- A WebSocket peer may get no HTTP answer at all: an application that raises, or anything that shuts
  the connection before the handshake is answered, leaves only a close frame or nothing
  (`UnansweredRun`, `AnswerIsSentIff`). The peer's half-close, a shutdown of the server and a raise of
  an earlier request's application shut it without the cycle knowing (`UpgradedIsShutIff`), so that
  an `accept` behind them takes effect and is never sent (`AcceptedTooLateRun`). Pings, closes and
  illegal frames are answered with frames before the handshake is (`FrameComesFirstIff`).
- `websocket.accept` after a handshake that was refused with 400 or 426 still lets data frames out
  (`AcceptedRun`, `DataFollowsUpgradeIff`).
- A close code that does not fit two bytes raises after the cycle is marked closed: the connection
  stays open, and of what the peer sends only pings are answered (`ApplicationCloseShutsIff`,
  `EveryFrameIsSentAsSaid`).
- A close code of the application's own is sent unchecked, and a close reason is cut at 123 bytes,
  possibly inside a character, and is then not UTF-8 (`TruncationCutsACharacter`;
  `CloseRoundTripIff` says exactly which closes the reader accepts back).
- A dynamic segment keeps the converter of the first registration that walked it, even a refused
  one (`RefusedAddClaimsAConverter`; `DeclaredIff` says exactly when a route keeps its pattern).
- A range whose end lies before its start is answered 416 (`SpecIsRead`); section 14.1.1 of RFC 9110
  calls it invalid.
- The end of the stream inside a request line is not an error: `_started` is set only with the whole
  line (`CutRequestLineRun`, `EofIsQuietIff`).
- Bytes that arrive in the same read behind the head of an upgrade stay in the request parser and
  never reach the frame parser (`UpgradeRun`, `BytesBehindAnUpgradeAreLost`).

## Model

| member | source | states |
|---|---|---|
| HttpParser.HttpParser.constructor | src/featherweb/server/parser.py:151-169 | a new parser waits for a request line with every counter at zero |
| HttpParser.HttpParser.FeedData | src/featherweb/server/parser.py:180-181 | appends to the buffer and changes nothing else |
| HttpParser.HttpParser.FeedEof | src/featherweb/server/parser.py:183-184 | only records that no more bytes come |
| HttpParser.HttpParser.StartNextMessage | src/featherweb/server/parser.py:186-191 | refused unless the message is complete, and then everything but the buffer is as new |
| HttpParser.HttpParser.NextEvent | src/featherweb/server/parser.py:193-206 | the loop over steps terminates and gives the outcome and state of the specified run of steps; after an error it raises that error again |
| HttpParser.HttpParser.DoStep | src/featherweb/server/parser.py:208-222 | one step of the state the parser is in, with the specified answer |
| HttpParser.HttpParser.DoRequestLine | src/featherweb/server/parser.py:226-236 | at most one leading empty line is dropped; the state is touched by nothing else until a whole line has arrived |
| HttpParser.HttpParser.MatchLine | src/featherweb/server/parser.py:237-249 | the line is matched; versions other than 1.0 and 1.1 and CONNECT are refused |
| HttpParser.HttpParser.DoHeaders | src/featherweb/server/parser.py:251-268 | one header line: size and count limits, folding and malformed lines refused, names lowered |
| HttpParser.HttpParser.DoBodyLength | src/featherweb/server/parser.py:270-280 | hands out what is buffered up to what is owed, and the end when nothing is |
| HttpParser.HttpParser.DoChunkSize | src/featherweb/server/parser.py:282-296 | reads a size line, accounts for it against the body limit, and moves on |
| HttpParser.HttpParser.DoChunkBody | src/featherweb/server/parser.py:298-308 | hands out chunk bytes up to what is owed |
| HttpParser.HttpParser.DoChunkCrlf | src/featherweb/server/parser.py:310-317 | insists on the empty line behind a chunk |
| HttpParser.HttpParser.DoTrailers | src/featherweb/server/parser.py:319-333 | discards trailer lines within the header limit and ends the message at the empty one |
| HttpParser.HttpParser.TakeLine | src/featherweb/server/parser.py:340-353 | cuts one line off the buffer, or waits, or refuses one without CR or beyond the limit |
| HttpParser.HttpParser.ChooseFraming | src/featherweb/server/parser.py:361-417 | Host, Content-Length and Transfer-Encoding decide the framing or the error, as specified; what written fields come to is `HeadIsReadAsWritten` and `RequestRoundTrip` |
| HttpParser.HttpParser.FinishHeaders | src/featherweb/server/parser.py:418-444 | the head is built with the keep-alive decision and the body state is entered |
| HttpParser.DrainEvents | src/featherweb/server/protocol.py:278-298 | calling for events until data is needed or an error is raised terminates and is the specified draining |
| ParserSplit.StepExtends | src/featherweb/server/parser.py:208-353 | a step that does not wait does the same with more bytes behind the buffer and leaves them |
| ParserSplit.DrainTwoGoes | src/featherweb/server/parser.py:193-353 | draining what has arrived and then the rest gives the events and the parser of draining everything at once |
| ParserSplit.PiecesAsOne | src/featherweb/server/parser.py:193-353 | any number of reads gives what one read gives |
| ParserSplit.SplitIndependence | src/featherweb/server/parser.py:180-353 | two cuts of one stream give the same events, adjacent body pieces joined, and the same parser, its error included |
| ParserExact.StepIsLocal | src/featherweb/server/parser.py:208-353 | a step depends on the bytes it consumes and on nothing behind them |
| ParserExact.SplitIndependentIff | src/featherweb/server/parser.py:226-249 | every prefix of a stream is answered alike for every cut if and only if the stream never has two empty lines where a request line is due |
| ParserExact.TwoBlankLinesDependOnTheCut | src/featherweb/server/parser.py:229-232 | CRLF CRLF is an error in one read and an idle parser in two |
| ParserAccount.NextEventAccounts | src/featherweb/server/parser.py:270-359 | one call keeps delivered plus owed equal to the body size, within the limit |
| ParserAccount.DrainAccounts | src/featherweb/server/parser.py:270-359 | the events of a drain follow the grammar head, body, end, and never exceed the declared length |
| ParserAccount.EveryRunIsAccounted | src/featherweb/server/parser.py:180-359 | over any sequence of calls the end comes only when nothing is owed, and the body size stays within its limit |
| ParserHeads.HeadRoundTrip | src/featherweb/server/parser.py:226-268 | a head written by a client is read back: the line, the fields in order with lower names, and no byte of what follows |
| ParserMessages.HeadIsReadAsWritten | src/featherweb/server/parser.py:361-444 | a head of legal lines is refused with the status its written fields call for, or read as the head they say: version, target, keep-alive, expectation, coding and length |
| ParserMessages.RequestRoundTrip | src/featherweb/server/parser.py:401-409 | where the fields announce a length by their decimal digits, or no body, the events are the head, exactly that many bytes and one end, and what follows is the next request's |
| ParserMessages.PrintedLengthAnnounces | src/featherweb/server/parser.py:401-409 | the decimal printing of a length announces that many bytes |
| ParserMessages.ChunkedRequestRoundTrip | src/featherweb/server/parser.py:389-400 | a request with the chunked coding gives its head without a length, the bodies of its chunks and one end |
| ParserMessages.RequestSurvivesAnyCut | src/featherweb/server/parser.py:193-206 | a written request is handed out as written however it is cut into reads |
| ParserMessages.TrailersAreDropped | src/featherweb/server/parser.py:319-331 | legal trailer fields are read and dropped up to the empty line |
| ParserFields.TargetIff | src/featherweb/server/parser.py:446-460 | the path and query of a target in origin, asterisk and absolute form, as concatenations; every other target is refused |
| ParserFields.ListIff | src/featherweb/server/parser.py:376-379 | a list has a token exactly if one of its comma-separated items is the token, blanks and case aside |
| ParserFields.LowerIff | src/featherweb/server/parser.py:266-267 | lower case tells names apart exactly by more than the case of their letters |
| ParserFields.StripIs | src/featherweb/server/parser.py:377-378 | stripping takes the white space at both ends and nothing else |
| ParserLines.RequestLineIff | src/featherweb/server/parser.py:40 | a line is taken as exactly the method, target and version of which it is the writing |
| ParserLines.RequestLineIsReadAsWritten | src/featherweb/server/parser.py:226-249 | a whole request line is refused with 414, 400, 505 or 501, or taken apart |
| ParserLines.FieldLineIff | src/featherweb/server/parser.py:42-44 | a line is taken as exactly the field of which it is the writing, blanks around the value aside |
| ParserLines.FieldLineIsReadAsWritten | src/featherweb/server/parser.py:251-268 | a whole field line is refused with 431 or 400, or added to the fields |
| ParserLines.ChunkLineIff | src/featherweb/server/parser.py:45 | a size line is taken as exactly the number its one to sixteen hexadecimal digits stand for |
| ParserLines.ChunkLineIsReadAsWritten | src/featherweb/server/parser.py:282-296 | a whole size line is refused with 400 or 413, or counted |
| ParserLines.LineBehindChunkIsEmpty | src/featherweb/server/parser.py:310-317 | a line behind a chunk that is not empty is refused with 400 |
| ParserLines.TrailerLineIsReadAsWritten | src/featherweb/server/parser.py:319-331 | a trailer line is refused with 431 or 400, dropped, or ends the message |
| ParserLines.BytesAreClassed | src/featherweb/server/parser.py:38-44 | which bytes names, values and targets may have, told by delimiters and control bytes |
| ParserEnds.EofIsQuietIff | src/featherweb/server/parser.py:226-249 | at the end of the stream the parser asks for more, instead of raising, if and only if a message is complete or no whole request line, and none too long, is buffered |
| ParserEnds.CutRequestLineRun | src/featherweb/server/parser.py:335-338 | `GET` and nothing more is a quiet end; a whole request line and nothing more is an error |
| ParserChunks.ChunkSizeRoundTrip | src/featherweb/server/protocol.py:561-562 | the hexadecimal size the writer prints is the size the parser reads |
| ParserChunks.ChunkedRoundTrip | src/featherweb/server/protocol.py:554-567 | what is written in chunks is read back as exactly the bodies and one end, with the following bytes untouched |
| WsFrames.UnmaskIsBytewise | src/featherweb/server/ws_protocol.py:167-174 | the big-integer XOR keeps the length and is, at every position, the byte XOR with the mask byte |
| WsFrames.UnmaskTwice | src/featherweb/server/ws_protocol.py:167-174 | unmasking is its own inverse |
| WsFrames.FrameRoundTrip | src/featherweb/server/ws_protocol.py:108-190 | a client's frame is read back in all three length encodings, taking exactly its bytes |
| WsFrames.PrefixIsNoFrame | src/featherweb/server/ws_protocol.py:108-150 | no strict prefix of a frame is taken for one |
| WsFrames.FramePiecesAsOne | src/featherweb/server/ws_protocol.py:105-150 | frames and errors do not depend on how the bytes are cut |
| WsFrames.FramesSurviveAnyCut | src/featherweb/server/ws_protocol.py:96-190 | any sequence of legal frames, cut into any pieces, is read back as that sequence |
| WsLegal.FrameIff | src/featherweb/server/ws_protocol.py:108-165 | bytes begin with a frame exactly if they are written like a client's in one of the three widths, with a known opcode and an allowed size |
| WsLegal.ViolationCodeIs | src/featherweb/server/ws_protocol.py:113-165 | a violation of the framing has code 1009 exactly where all but the size of the data is in order, and 1002 otherwise |
| WsLegal.Utf8Iff | src/featherweb/server/ws_protocol.py:372-381 | bytes are text exactly if they are the encodings of Unicode scalar values |
| WsLegal.QueueIsBounded | src/featherweb/server/ws_protocol.py:335-338 | reading is paused while 32 messages or more wait on an open cycle, and not while 8 or fewer do |
| WsFrames.FrameParser.FeedData | src/featherweb/server/ws_protocol.py:105-106 | appends to the buffer |
| WsFrames.FrameParser.Next | src/featherweb/server/ws_protocol.py:108-150 | the specified frame, nothing, or violation, and the bytes of the frame leave the buffer |
| WsSafety.ClosePayloadFits | src/featherweb/server/ws_protocol.py:193-197 | a close payload never exceeds 125 bytes |
| WsSafety.EveryRunIsSafe | src/featherweb/server/ws_protocol.py:298-489 | at most one close frame, no text or binary frame behind it, small control frames, one attempt at an HTTP answer in a completed run, and reading is paused only while the queue is long |
| WsHandshake.AnswerIsSentIff | src/featherweb/server/ws_protocol.py:402-489 | at most one HTTP answer reaches the peer, and one does if and only if the handshake is answered while the transport is open, which a violation, a close, a loss, a half-close, a shutdown or an earlier request's error may have shut, and not by an application that raised |
| WsHandshake.AcceptedTooLateRun | src/featherweb/server/protocol.py:201-206 | the connection is shut before the application accepts: the cycle is accepted and open, and no HTTP answer reaches the peer |
| WsHandshake.UnansweredRun | src/featherweb/server/ws_protocol.py:415-428 | an application that raises before it accepts sends a close frame, and its 403 is dropped |
| WsHandshake.FrameComesFirstIff | src/featherweb/server/ws_protocol.py:325-428 | a frame reaches the peer before any HTTP answer if and only if, before the handshake step and while the connection is neither shut nor lost, the peer sent a ping, a close or anything illegal, or the application raised |
| WsSending.BuiltFrameIsRead | src/featherweb/server/ws_protocol.py:177-190 | a client reads back opcode, FIN and payload of a frame the server builds, in all three length encodings, from exactly its bytes |
| WsSending.EveryFrameIsSentAsSaid | src/featherweb/server/ws_protocol.py:325-489 | in every run the frames that reach the peer are, in order and with their payloads, the application's messages and close, the pongs, the answer to the peer's close or violation, and the close of a failure |
| WsSending.ClientGetsWhatIsSaid | src/featherweb/server/ws_protocol.py:177-190 | a client that reads the bytes of all frames sent gets those frames |
| WsSending.MessagesAreSentAsSaid | src/featherweb/server/ws_protocol.py:461-472 | in every run the data frames that reach the peer are exactly the messages sent while accepted, not closed and open |
| WsTelling.EndIsTold | src/featherweb/server/ws_protocol.py:342-408 | the application hears the close code that the peer's bytes give, or 1006 for a loss |
| WsTelling.AnswersAreAsSaid | src/featherweb/server/ws_protocol.py:415-489 | in every run the HTTP answers that reach the peer are the one chosen for the handshake on accept, and 403 for a close or an end before it |
| WsTelling.ApplicationCloseShutsIff | src/featherweb/server/ws_protocol.py:474-489 | a close of the application shuts the connection unless the cycle is closed or the code does not fit |
| WsTelling.ReceiveWaitsIff | src/featherweb/server/ws_protocol.py:430-437 | the first receive never waits; a later one waits exactly while everything that came has been handed over |
| WsSafety.DataFollowsUpgradeIff | src/featherweb/server/ws_protocol.py:453-472 | data is always preceded by a 101 if and only if the handshake was good |
| WsSafety.AcceptedRun | src/featherweb/server/ws_protocol.py:453-472 | accepting and sending puts data behind the answer, whatever the answer is |
| WsReassembly.AssembleGroups | src/featherweb/server/ws_protocol.py:350-381 | fragmenting messages and assembling them are inverse |
| WsReassembly.AssembleConcat | src/featherweb/server/ws_protocol.py:350-381 | assembling may stop at any frame and go on with the fragments kept |
| WsReassembly.HandleAllAssembles | src/featherweb/server/ws_protocol.py:325-381 | handling frames one by one queues exactly what assembling them gives, and closes where it fails |
| WsRuns.FeedLoopIsHandleAll | src/featherweb/server/ws_protocol.py:325-338 | the read loop handles the frames of the buffer in order |
| WsRuns.EveryRunIsExact | src/featherweb/server/ws_protocol.py:325-381 | while open, the messages received and queued are the joined payloads of the data messages of all bytes fed, and the fragments kept are the message still arriving |
| WsRuns.FeedClosesIff | src/featherweb/server/ws_protocol.py:325-381 | bytes close an open cycle if and only if they make the stream illegible |
| WsRuns.MessagesSurvive | src/featherweb/server/ws_protocol.py:96-381 | messages cut into fragments, with control frames between, masked and cut into reads, come out as those messages |
| WsRuns.CloseRoundTripIff | src/featherweb/server/ws_protocol.py:193-227 | whatever the code and the reason: the frame exists if the code fits two bytes, and is read back as them if and only if the code may be sent and the cut reason is UTF-8, or it says there is no status and no reason |
| WsRuns.TruncationCutsACharacter | src/featherweb/server/ws_protocol.py:193-197 | a valid reason of 62 two-byte characters is cut into an invalid one |
| WebSocket.WebSocketCycle.constructor | src/featherweb/server/ws_protocol.py:301-323 | a new cycle has sent and received nothing |
| WebSocket.WebSocketCycle.FeedData | src/featherweb/server/ws_protocol.py:325-340 | the loop over frames is the specified one, with its failures and its pauses |
| WebSocket.WebSocketCycle.OnDisconnect | src/featherweb/server/ws_protocol.py:342-348 | queues one disconnect and closes, once |
| WebSocket.WebSocketCycle.HandleFrame | src/featherweb/server/ws_protocol.py:350-370 | one frame: fragment rules, size limit, and the queued message or the violation |
| WebSocket.WebSocketCycle.HandleControl | src/featherweb/server/ws_protocol.py:383-390 | pings are answered, pongs ignored, a close is echoed |
| WebSocket.WebSocketCycle.EchoClose | src/featherweb/server/ws_protocol.py:392-400 | the close is echoed once and the connection ended |
| WebSocket.WebSocketCycle.Fail | src/featherweb/server/ws_protocol.py:402-408 | one close frame with the code, a disconnect for the application, and the end |
| WebSocket.WebSocketCycle.FinishRun | src/featherweb/server/ws_protocol.py:415-428 | an error closes with 1011, an unanswered handshake with 403 |
| WebSocket.WebSocketCycle.Receive | src/featherweb/server/ws_protocol.py:430-437 | the connect message first, then the queue in order, resuming reading when it is short |
| WebSocket.WebSocketCycle.Accept | src/featherweb/server/ws_protocol.py:453-459 | one handshake answer; a second is refused |
| WebSocket.WebSocketCycle.SendPayload | src/featherweb/server/ws_protocol.py:461-472 | refused before accept, dropped after close, written with its opcode and payload otherwise; over runs, `MessagesAreSentAsSaid` |
| WebSocket.WebSocketCycle.CloseByApplication | src/featherweb/server/ws_protocol.py:474-489 | before the handshake a 403, then at most one close frame |
| MultipartSpec.PiecesKeepShape | src/featherweb/multipart.py:247-388 | the flags of the reader stay consistent with one another over any chunks |
| MultipartSpec.PiecesKeepLimits | src/featherweb/multipart.py:359-388 | file, field and part limits hold of what was emitted, however the body arrives |
| MultipartSplit.StepExtends | src/featherweb/multipart.py:271-357 | a step that is taken is taken alike with more bytes behind it |
| MultipartSplit.StopLosesNothing | src/featherweb/multipart.py:285-357 | bytes held back never hide a delimiter: the next step is the one all the bytes would have given |
| MultipartSplit.PiecesAsOne | src/featherweb/multipart.py:247-357 | any chunks leave the reader as one chunk would |
| MultipartSplit.SplitIndependence | src/featherweb/multipart.py:247-357 | two cuts of one body leave the same reader, parts, held-back bytes and error |
| MultipartExact.StepIsLocal | src/featherweb/multipart.py:271-357 | a step depends on the bytes it consumes and on nothing behind them |
| MultipartExact.SplitIndependentIff | src/featherweb/multipart.py:318-328 | every prefix is read alike for every cut if and only if each block of part headers that is reached fits the cap, its end included |
| MultipartRoundTrip.DelimiterIsFoundWhereWritten | src/featherweb/multipart.py:285-357 | a delimiter with a single leading CR cannot straddle the end of a content |
| MultipartRoundTrip.FormSurvivesAnyCut | src/featherweb/multipart.py:202-388 | any parts, written and fed in any chunks, come back with their names and contents in order, and the reader has finished |
| MultipartRoundTrip.OverlongHeadersRun | src/featherweb/multipart.py:318-328 | any block over the cap is accepted where it arrives with its end, and refused where its last byte comes alone |
| MultipartRefusals.BoundaryTailIs | src/featherweb/multipart.py:301-316 | two dashes end the form, a line end opens a part if there may be one more, and other bytes are refused |
| MultipartRefusals.HeadersAre | src/featherweb/multipart.py:318-329 | the headers of a part are waited for up to 8192 bytes, refused beyond, and open the part they name |
| MultipartRefusals.ContentIsRefusedIff | src/featherweb/multipart.py:359-376 | content is refused exactly where something is written that makes the part larger than its limit |
| Multipart.UploadFile.Write | src/featherweb/multipart.py:88-93 | appends to the content and to the size |
| Multipart.UploadFile.Close | src/featherweb/multipart.py:102-105 | closes and keeps what was written |
| Multipart.FormReader.Feed | src/featherweb/multipart.py:247-252 | the step loop terminates and is the specified run |
| Multipart.FormReader.DoStep | src/featherweb/multipart.py:271-283 | one step of the state the reader is in |
| Multipart.FormReader.SeekFirstBoundary | src/featherweb/multipart.py:285-300 | the preamble is dropped up to the first boundary, keeping what may begin one |
| Multipart.FormReader.TakeBoundaryTail | src/featherweb/multipart.py:302-316 | two dashes finish, CRLF opens a part, anything else is refused |
| Multipart.FormReader.TakeHeaders | src/featherweb/multipart.py:318-328 | the header block opens a part, within the limits |
| Multipart.FormReader.TakeBody | src/featherweb/multipart.py:343-357 | content is emitted up to the delimiter, holding back what may begin one |
| Multipart.FormReader.WriteOut | src/featherweb/multipart.py:359-376 | emitted bytes are counted against the limit and go to the field or to the pending writes of the file |
| Multipart.FormReader.FinishPart | src/featherweb/multipart.py:378-388 | the part in flight joins the results |
| Multipart.FormReader.Drain | src/featherweb/multipart.py:263-269 | pending bytes are written to their files in order and none is left |
| Multipart.ParseMultipart | src/featherweb/multipart.py:167-199 | on success every opened file is returned and none is in flight; on any failure all are closed |
| ExchangeFraming.BuiltHeadValues | src/featherweb/server/protocol.py:572-628 | which length, coding and close fields a built head has |
| ExchangeFraming.RunKeepsFramed | src/featherweb/server/protocol.py:534-628 | in every run the head is written once and before the body, and the bytes behind it are the bodies in the chosen framing |
| ExchangeResults.FramingIsFaithfulIff | src/featherweb/server/protocol.py:509-628 | a reader following section 6.3 of RFC 9112 recovers exactly the bodies if and only if no interim response came after the head |
| ExchangeResults.PersistentHeadsDelimit | src/featherweb/server/protocol.py:586-613 | a head without `connection: close` delimits its own body, and says close exactly when the connection is not kept |
| ExchangeResults.OwnLengthIsFaithfulIff | src/featherweb/server/protocol.py:587-590 | with any lengths of the application's own the response is read back if and only if no interim response came late, and no body is due or there is one length and it is the number of bytes sent |
| ExchangeResults.WrongLengthRun | src/featherweb/server/protocol.py:587-590 | a response that announces one byte and has none is not read back |
| ExchangeResults.BodyIsConserved | src/featherweb/server/protocol.py:481-532 | with any number of overlapping calls: what was handed over and what is buffered is what was fed; the end is delivered only with all of it; 100 Continue is written at most once and only if asked for |
| ExchangeResults.EndIsToldOnceIff | src/featherweb/server/protocol.py:509-532 | the end is told at most once, the calls still waiting included, if and only if at no time after the body ended two calls waited for it |
| ExchangeResults.OverlappingCallsEndTwice | src/featherweb/server/protocol.py:509-532 | a run in which two overlapping calls both deliver the end of the body |
| ExchangeResults.LateInterimRun | src/featherweb/server/protocol.py:512-514 | a run whose interim response lands inside the body |
| ResponseHeads.HeadIsAsStarted | src/featherweb/server/protocol.py:534-549 | in every run the head carries the status and, in order with lowered names, the fields of the first start, but for framing and connection |
| ResponseHeads.HeadIsExact | src/featherweb/server/protocol.py:572-620 | the first body message writes the head: the application's fields, then the delimiting, then the connection field, each as the messages and the request call for |
| ResponseHeads.HeadNeverChanges | src/featherweb/server/protocol.py:555-557 | a head that is written is the only one and stays |
| ResponseHeads.BodiesAreAsSent | src/featherweb/server/protocol.py:551-570 | the bodies that the framing results speak of are those of the messages behind the start, up to the last |
| ResponseHeads.SendRaisesIff | src/featherweb/server/protocol.py:534-552 | the messages taken are a start, then bodies up to the last, and send raises exactly on a message that does not go on like this |
| ResponseHeads.KeptIff | src/featherweb/server/protocol.py:572-620 | the connection is kept exactly when client, application, delimiting, request body and server allow it at the first body message |
| ResponseHeads.ContinueIsSentIff | src/featherweb/server/protocol.py:512-514 | one interim response is written exactly when the client waits for it and the application asks in time |
| ResponseHeads.CallsAreToldTheTruth | src/featherweb/server/protocol.py:509-532 | a call is handed all that is buffered and told that more comes exactly while it does, or is told of a disconnect that has a cause |
| ConnectionSafety.DrainKeepsSound | src/featherweb/server/protocol.py:278-309 | feeding the parser's events to the exchange in progress keeps both in step |
| ConnectionSafety.OneExchangeAtATime | src/featherweb/server/protocol.py:191-450 | in every state of every run: one exchange at a time, writes in request order, and a pause only with a full buffer |
| ConnectionRequests.EofDrain | src/featherweb/server/parser.py:335-338 | the end of the stream turns a wait into an error and changes no event |
| ConnectionRequests.EveryRequestIsServedAsSent | src/featherweb/server/protocol.py:191-390 | exchange i serves message i of the stream, and its application has been handed a prefix of that body, all of it once told so |
| ConnectionPersistence.PipelinedResponsesAreSeparable | src/featherweb/server/protocol.py:377-390 | a response with another exchange behind it is finished and delimits itself |
| ConnectionHeads.WireHeadsAreAsStarted | src/featherweb/server/protocol.py:534-557 | in every reachable state a response head on the wire carries the status and fields that its own application started with |
| ConnectionEnding.ShutdownClosesIff | src/featherweb/server/protocol.py:265-270 | a shutdown leaves wire, exchanges and parser alone, and the transport open exactly with a response in progress |
| ConnectionEnding.StopLetsTheResponseFinish | src/featherweb/server/protocol.py:265-275 | behind a shutdown or the word to exit, over every run without a loss or an error, the transport stays open until the response is complete and all of it written; a head written then says close |
| ConnectionEnding.FinalSendEnds | src/featherweb/server/protocol.py:377-390 | the last message completes the response on the wire, and the connection goes on exactly if it is kept, nothing asks to close and the request was read |
| ConnectionEnding.IdleTimeoutClosesIff | src/featherweb/server/protocol.py:442-445 | the idle timeout shuts the connection exactly with nothing in progress |
| ConnectionEnding.HeaderTimeoutAnswersIff | src/featherweb/server/protocol.py:447-450 | the header timeout answers 408 and shuts exactly with nothing in progress |
| ConnectionEnding.FailureIsAnswered | src/featherweb/server/protocol.py:392-398 | an application that fails before its response starts is answered 500, and later cut off |
| ConnectionEnding.RefusedRequestIsAnswered | src/featherweb/server/protocol.py:400-430 | a first request with refused fields is answered with exactly their status, and no application is begun |
| ConnectionEnding.EofIs | src/featherweb/server/protocol.py:201-212 | the end of the stream shuts an idle connection; one in progress stays open unless the request is now an error, is told, and will close |
| ConnectionEnding.UpgradeIff | src/featherweb/server/ws_protocol.py:230-237 | a head asks for an upgrade exactly by its method and its last upgrade and connection fields |
| ConnectionPauses.PausedIff | src/featherweb/server/protocol.py:355-375 | reading is paused on an open connection exactly while the buffer of the request in progress holds the high mark or more |
| AbandonedReceive.WokenIff | src/featherweb/server/protocol.py:509-532 | in every reachable state a call waiting for body bytes can still be woken if and only if its exchange is the one in progress |
| AbandonedReceive.FinalSendAbandonsIff | src/featherweb/server/protocol.py:563-569 | of all messages exactly the last one of a started response takes the exchange of a waiting call out of progress |
| AbandonedReceive.BreakingOffAbandonsIff | src/featherweb/server/protocol.py:400-408 | bytes or the end of the stream do so exactly when they make the request an error before any of the body came and before the response started |
| AbandonedReceive.NothingWakesIt | src/featherweb/server/protocol.py:524-528 | once the exchange is not in progress, no later step of the peer, the timers or the applications wakes the call |
| AbandonedReceive.AbandonedIff | src/featherweb/server/protocol.py:509-532 | in every reachable state and for every step: a call of an exchange waits for body bytes out of progress behind it exactly when the last message is sent or the request breaks off while it waits, or when it waited so before or joins, and was neither handed what there is nor ended |
| AbandonedReceive.EndCanAlwaysBeTold | src/featherweb/server/protocol.py:515-523 | in every reachable state a call of a running application that waits for the end can be woken |
| LateSteps.LateStepClosesIff | src/featherweb/server/protocol.py:392-398 | in every reachable state a step of an application whose exchange is not in progress leaves the wire, the parser and all other exchanges alone, and changes the transport if and only if it raises while that is open |
| LateSteps.LateRaiseCutsOff | src/featherweb/server/protocol.py:392-398 | behind such a raise no step of anyone puts another write on the wire, so the response in progress ends where it stands |
| LateRaise.LateRaiseRun | src/featherweb/server/protocol.py:378-398 | a request is answered, the next one is read, the first application raises: the second gets no byte of an answer |
| LateSteps.UpgradedIsShutIff | src/featherweb/server/protocol.py:201-275 | the transport of an upgraded connection is shut by exactly these steps: half-close, shutdown, loss, and a raise of an earlier request's application |
| ConnectionRuns.CutOffRun | src/featherweb/server/protocol.py:201-212 | a POST cut off before its body is answered 400, and its waiting application is never told |
| ConnectionRuns.AnsweredRun | src/featherweb/server/protocol.py:563-569 | a POST answered before its body comes leaves the waiting application untold |
| UpgradedConnection.BytesBehindAnUpgradeAreLost | src/featherweb/server/protocol.py:191-199 | the frame layer gets exactly the reads behind the upgrading step; what was buffered behind the head stays in the request parser, so none is lost if and only if nothing was |
| ConnectionRuns.UpgradeRun | src/featherweb/server/protocol.py:311-323 | frames behind the head in one read are lost, and in a read of their own are not |
| Protocol.RequestCycle.constructor | src/featherweb/server/protocol.py:456-474 | a new exchange has sent and received nothing |
| Protocol.RequestCycle.FeedBody | src/featherweb/server/protocol.py:481-483 | appends to the body and changes nothing else |
| Protocol.RequestCycle.FeedEom | src/featherweb/server/protocol.py:485-487 | only marks the body complete |
| Protocol.RequestCycle.OnDisconnect | src/featherweb/server/protocol.py:489-491 | only marks the peer gone |
| Protocol.RequestCycle.BeginReceive | src/featherweb/server/protocol.py:509-524 | the interim response at most once, and what the call then waits for |
| Protocol.RequestCycle.FinishReceive | src/featherweb/server/protocol.py:515-532 | the message of a call that need not wait, and the buffer it empties |
| Protocol.RequestCycle.Send | src/featherweb/server/protocol.py:534-570 | messages out of order are refused without effect; otherwise the specified fields and bytes, which over runs are those of `HeadIsAsStarted` and `BodiesAreAsSent` |
| Protocol.RequestCycle.TakeFields | src/featherweb/server/protocol.py:580-604 | one pass keeps the application's fields but framing and connection, and finds a length and a request to close |
| Protocol.RequestCycle.PickLength | src/featherweb/server/protocol.py:606-617 | the delimiting the server adds |
| Protocol.RequestCycle.BuildHead | src/featherweb/server/protocol.py:572-628 | the head and the fields it settles are those specified |
| Protocol.HttpProtocol.constructor | src/featherweb/server/protocol.py:151-175 | a new connection is idle and open |
| Protocol.HttpProtocol.DataReceived | src/featherweb/server/protocol.py:191-199 | bytes go to the parser, or past it after an upgrade, and every event is acted on |
| Protocol.HttpProtocol.EofReceived | src/featherweb/server/protocol.py:201-212 | an idle connection closes; otherwise buffered events first, then the disconnect, which an exchange dropped by the end-of-stream error does not get |
| Protocol.HttpProtocol.ConnectionLost | src/featherweb/server/protocol.py:214-222 | nothing is written any more and the exchange is told |
| Protocol.HttpProtocol.ResumeParsing | src/featherweb/server/protocol.py:278-298 | the loop over events terminates, serves each, answers an error and then closes, or updates the pause |
| Protocol.HttpProtocol.BeginRequest | src/featherweb/server/protocol.py:300-323 | a new exchange behind the others, or an upgrade for good |
| Protocol.HttpProtocol.UpdateReadPause | src/featherweb/server/protocol.py:355-362 | pauses at the high mark on an open transport |
| Protocol.HttpProtocol.MaybeResumeReading | src/featherweb/server/protocol.py:364-373 | resumes at the low mark on an open transport |
| Protocol.HttpProtocol.OnResponseComplete | src/featherweb/server/protocol.py:377-390 | closes, or starts the next message and parses on |
| Protocol.HttpProtocol.OnAppError | src/featherweb/server/protocol.py:392-398 | a 500 before a response has started, a close after |
| Protocol.HttpProtocol.Fail | src/featherweb/server/protocol.py:400-428 | one minimal response and the close, or only the close if a response is under way |
| Protocol.HttpProtocol.Shutdown | src/featherweb/server/protocol.py:265-270 | closes now when idle, and otherwise leaves all but the flag alone; behind it `StopLetsTheResponseFinish` |
| Protocol.HttpProtocol.OnIdleTimeout | src/featherweb/server/protocol.py:442-445 | closes a connection with nothing in progress |
| Protocol.HttpProtocol.OnHeaderTimeout | src/featherweb/server/protocol.py:447-450 | answers 408 where no request has arrived |
| Protocol.HttpProtocol.AppReceive | src/featherweb/server/protocol.py:509-524 | a call of one exchange moves the connection by the specified step |
| Protocol.HttpProtocol.AppWake | src/featherweb/server/protocol.py:524-532 | a delivered body may resume reading |
| Protocol.HttpProtocol.AppSend | src/featherweb/server/protocol.py:534-570 | a message of one exchange, and the end of its response where it is the last |
| Protocol.HttpProtocol.FinishRun | src/featherweb/server/protocol.py:495-507 | an application that raised or never answered is an error, an unfinished response is finished |
| Routing.WalksAreWellFormed | src/featherweb/routing.py:90-127 | a parameter that takes the rest is the last part of every walk |
| Routing.TreeIsScan | src/featherweb/routing.py:143-167 | the backtracking search gives, from any node and with any captures, what a linear scan of its routes gives |
| RoutingTable.InsertAt | src/featherweb/routing.py:80-127 | an insertion changes the handlers of exactly one pattern, where the walk ends, and there only a free method |
| RoutingTable.EntriesAreHandlers | src/featherweb/routing.py:143-167 | the scanned list holds every pattern with handlers and nothing else |
| RoutingResults.EntriesSorted | src/featherweb/routing.py:143-167 | the scanned list is in order of preference: literal, dynamic, catch-all |
| RoutingResults.PreferenceIsTotal | src/featherweb/routing.py:143-167 | of two registered patterns that take one path, one comes before the other |
| RoutingResults.SearchFindsTheChosen | src/featherweb/routing.py:129-167 | nothing is found exactly when no registered pattern takes the path; otherwise the one before all others, with its captures |
| RoutingResults.PreferenceIsStable | src/featherweb/routing.py:116-127 | no later registration changes which of two patterns comes first |
| RoutingResults.NewcomersComeLast | src/featherweb/routing.py:120-126 | a dynamic name walked earlier comes before one walked later |
| RoutingResults.DeclaredIff | src/featherweb/routing.py:111-127 | a route keeps its declared pattern if and only if no path of the tree has another converter or catch-all name at one of its positions |
| RouterRuns.RefusedAddChangesNoLookup | src/featherweb/routing.py:80-88 | a refused registration changes no lookup |
| RouterRuns.TrailingSlashIsIgnored | src/featherweb/routing.py:38-50 | a path and the path with a slash behind it are one path, for static and dynamic routes |
| RouterOrder.BeforeIffEarlier | src/featherweb/routing.py:116-126 | of two paths of the tree one is searched before the other if and only if, where they part, it is a literal, or the parameter that a call walked first |
| RouterOrder.LookupIsLinearScan | src/featherweb/routing.py:80-167 | after any coherent registrations a lookup is a scan of the flat table: static first, then the pattern that is first by the order of the calls, and none exactly when none takes the path |
| RouterCaptures.LookupCaptures | src/featherweb/routing.py:126-167 | a lookup finds nothing exactly if no registered pattern fits position by position, and otherwise hands over the preferred one with each parameter's value from its own position |
| RouterCaptures.RestIsCaptured | src/featherweb/routing.py:162-167 | a catch-all captures what stands behind as many segments, slashes and all |
| RouterCaptures.RouteIsReadAsWritten | src/featherweb/routing.py:89-124 | a route written as its parts is registered as those parts, with their converters |
| RouterCaptures.SegmentIff | src/featherweb/routing.py:15 | a segment is a parameter exactly if it is written like one, and refused exactly if it has a brace and is not |
| RouterCaptures.WalkIsWholeIff | src/featherweb/routing.py:93-112 | a route is well formed exactly if every segment may stand where it stands |
| RouterCaptures.SplitIs | src/featherweb/routing.py:47-48 | a slash ends a segment and nothing else does; empty ones are dropped |
| RouterRuns.AcceptedIff | src/featherweb/routing.py:80-114 | a registration is accepted if and only if it is well formed and its method is free |
| RouterRuns.RefusedAddClaimsAConverter | src/featherweb/routing.py:80-126 | behind a refused `/{id:int}/{`, the accepted route `/{id}` takes integers only; on its own it takes any text |
| RouterObjects.Router.constructor | src/featherweb/routing.py:76-78 | a new router has no routes |
| RouterObjects.Router.Add | src/featherweb/routing.py:80-88 | the nodes are updated in place to the specified tree, with the specified refusal |
| RouterObjects.Router.Walk | src/featherweb/routing.py:90-127 | the walk over the nodes creates what is missing, changes only nodes on its way, and stands for the specified insertion |
| RouterObjects.Router.Resolve | src/featherweb/routing.py:129-139 | static handlers first, then the search |
| RouterObjects.Router.Search | src/featherweb/routing.py:141-167 | the search over the nodes is the specified one, whose captures are those of `LookupCaptures` |
| Ranges.PartsLieInside | src/featherweb/response.py:509-536 | whatever the header, 0 <= start <= end < size |
| Ranges.SpecIsRead | src/featherweb/response.py:520-536 | the text of a range is read as its numbers, with the cut at the end of the file |
| Ranges.RangeIsExact | src/featherweb/response.py:509-536 | a range is answered with exactly the bytes it names, and with 416 exactly when it names none |
| RangeTexts.PartTextIsRead | src/featherweb/response.py:371 | a client reads first, last and size back from content-range |
| RangeTexts.NoPartTextIsRead | src/featherweb/response.py:363 | a client reads the size back from the content-range of a 416 |
| RangeTexts.OnlyByteRangesCount | src/featherweb/response.py:517-523 | only headers whose unit is bytes and that name one range are answered with a part or 416 |
| RangeTexts.NumberIff | src/featherweb/response.py:524-534 | a text is read as a number exactly if it is, without blanks around it, an optional sign and at most 4300 digits with single underscores between them |
| RangeTexts.TrimIs | src/featherweb/response.py:521-521 | trimming takes the blanks at both ends and nothing else |
| Ranges.FileResponse.ApplyConditions | src/featherweb/response.py:347-370 | the status, the part and the content-range of 304, 416, 206 and 200 |
| Ranges.FileResponse.SendBodies | src/featherweb/response.py:380-408 | the loop terminates with one final message, last; sends no more than announced; and sends exactly the part of an unchanged file |
| Ranges.FileReachesTheClient | src/featherweb/response.py:376-408 | the client reads back what was sent if and only if no interim response came late and the file did not shrink or no body was due; of an unchanged file that is exactly the part asked for |

## Left out

- Sockets, the event loop, worker processes, signals, lifespan and the command line: the transport is an output sequence with a flag, and every schedule of the steps is covered instead.
- Timers: an expiry is a step that may happen at any time, not after a given delay.
- `HttpProtocol.AppReceive`, `AppWake`, `AppSend` and `FinishRun` are where the callbacks from `RequestCycle` into the protocol happen; in the source the cycle makes these calls itself. A coroutine that waits is a call recorded as waiting, and waking it is a step.
- A `receive` call that need not wait returns in a step of its own, where the source returns at once: the runs of the model include those of the source and more.
- The bytes of a response head: a head is its status and its fields, with the fields' order kept. The date, server and reason-phrase parts do not affect framing and are not part of this model.
- The bytes and pauses of a WebSocket inside `HttpProtocol`: after an upgrade the connection records the bytes it hands over, and `WebSocketCycle` is modelled with a connection of its own, whose step `Shut` stands for the half-close, shutdown or earlier error of `UpgradedIsShutIff`.
- The texts of error messages; an error is its kind or its status.
- Regular expressions as such: they are predicates on bytes with the same language.
- Percent-decoding of the path; the raw path and the query are split as in the source.
- UTF-8 encoding of the application's texts: texts and close reasons arrive as bytes; decoding on the way in is modelled, with its failures.
- The handshake's SHA-1 and base64: which answer a handshake gets is a parameter of the cycle.
- `build_frame` beyond 2^64 bytes, where the source raises.
- Shortest length encodings: the frame parser accepts longer ones, and so does the model; the printer's are the shortest.
- Parsing of part headers (names, file names, content types) and decoding of field texts: a given function turns a header block into a part's head, or refuses it, and contents stay bytes.
- `boundary_of`: the boundary is given.
- Temporary files and threads: an upload is a byte sequence with an open flag; a failing write is a parameter of `ParseMultipart`.
- What the converters `int`, `float` and `uuid` accept: any predicate on segments, with the results kept symbolic.
- RouterObjects.Router.Walk: reads all parts of the path before the walk, where the source reads each as it comes to it; the nodes created and the refusal are the same.
- `path_param_names`, and handing a method miss to a 405, which are outside the lookup.
- `_is_fresh` and `_range_applies`: what the validators say is a parameter, because dates and entity tags do not affect the range.
- A negative `chunk_size`, which no caller of the repository passes.
- Streaming and redirect responses, controllers, parameter binding, validation, serialization, middleware, sessions, signing, tokens, static paths and the test client: they are library calls, reflection or easy members beside this core.
