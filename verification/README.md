# Verified model of the `th` HTTP and WebSocket server core

This project models the stateful core of the `th` server library in Dafny and proves what it is for:
the event loop and its poll reactor, the send ring and the WebSocket protocol on top of it, the
incremental HTTP request parser with its receive loop, the hash map, the partial-transfer operations
and path normalisation.

Each component comes as a pair. A `...Spec` module describes it on values: the state is a datatype,
every operation a function, and the properties are lemmas over all states and all runs. Beside it, a
class updates its state in place with the loops that the C code has; each of its methods proves that
its new state is the specification function of the old one (`View() == Spec(old(View()), ...)`), so the
lemmas about the functions hold of the methods, within the preconditions that the methods state. The
classes have the fields of the C structures, except that `EventLoop` keeps handles and operations as
values in maps and the descriptor index as a value; the handle array, the hash table under it and the
intrusive queue are classes of their own.

| files | what they model |
|---|---|
| `Bytes` | bytes, concatenation, positions on a circle |
| `RingSpec`, `Ring` | the chunked ring buffer |
| `WsFrame` | frame headers and masking |
| `WsStream` | a stream of frames, byte by byte: the meaning that the other parsers are compared with |
| `WsBlocks`, `WsParser` | the frame parser as it takes chunks: on values, and in place over arrays |
| `WsLateCut`, `WsDelivery` | when a chunk is taken wrongly, and what runs of chunks deliver |
| `WsReassembly`, `WsExamples` | sections 5.2 to 5.5 of RFC 6455 as a one-shot decoder, the refinement, and the examples of section 5.7 |
| `WsSendSpec`, `WsSend` | the WebSocket send path on top of the ring |
| `WsRequested` | what application and peer ask to be sent, and what the peer gets of it |
| `RequestSpec`, `RequestParser`, `RequestRoundTrip` | the request parser, and requests written and read back |
| `RequestMeaning`, `RequestGrammar` | what a parsed request holds, and the language that the parser accepts |
| `ReaderSpec`, `RequestReader` | the receive loop with its sliding, growing buffer |
| `SessionSpec` | connections with many requests, and the judgement of their whole stream |
| `LoopSpec`, `ReactorSpec`, `SchedulerSpec`, `EventLoop` | operations, the reactor's compaction loop, whole runs of the loop |
| `Completion` | from what poll(2) reports to the poll that runs the callback |
| `Outcomes`, `Timeouts` | with which error an operation ends, and when it times out |
| `LostWakeup` | what the reactor does when the index misses a handle |
| `HandleIndex`, `HandleMap`, `TaskQueue` | the dense handle index over the hash map, the intrusive queue |
| `HashSpec`, `HashGrowth`, `HashMap` | open addressing with backward-shift deletion, and growing in place |
| `TransferSpec`, `Transfer` | `sendvec`, `sendfile` and `recv` under arbitrary short results |
| `TransferResult` | with which result a transfer ends |
| `FilePath` | path normalisation |

`dafny verify dfyconfig.toml` checks everything. The `hide` statements in proofs keep function bodies that a
proof does not need away from the solver; they assume nothing.

## Main results

* In every state that any run of permitted actions reaches, whatever handles it destroys, every operation is
  in one place and finalized at most once, and the task count is exact (`SchedulerSpec.EveryReachableState`);
  queued work runs at an exactly known poll (`RunsInTurn`, `ReactorRunsInTurn`), and an operation whose wait
  a reactor run ends is finalized at one, too (`Completion.FinalizedInTurn`).
* As long as every destroyed handle is erased safely from the descriptor index, no wakeup is lost either and
  every live handle is found (`SchedulerSpec.EverySafeState`, by way of `ReactorSpec.RunKeepsInv`), and a
  parked operation whose event, retry or timeout ends its wait reaches its callback at the poll that its place
  tells (`Completion.ReportedIsFinalized`), with the error that its entry meant (`Outcomes.CallbackIsTold`); it
  times out exactly ten seconds after its handle was last armed (`Timeouts.TimesOutExactly`). Safe is exactly
  the condition under which the invariant survives (`LoopSpec.ApplyKeepsInvExactly`). What an erasure, safe or
  not, does at once to lookups and wakeups is exact as well (`ReactorSpec.DestroyHidesExactly`,
  `LostWakeup.DestroyLosesExactly`): there are runs of the model in which an unsafe one loses a wakeup
  (`WakeupLost`) and in which it hides nothing (`UnsafeMissesNothing`).
* A stream of masked frames delivers exactly the messages that RFC 6455 prescribes if no chunk that
  resumes a header behind its third byte reaches past that header (`WsDelivery.DeliversWhatWasSent`, and
  `ReceiveFrames` for the parser that works in place). Chunk by chunk the condition for the connection
  to be right is exact, as long as the header buffer is not overrun (`WsLateCut.LateCutExact`,
  `WsDelivery.InStepExactly`); when it is, is exact too (`WsBlocks.InBufferExact`, `WsDelivery.HeaderOverrun`).
* The peer decodes a prefix of the frames that application and peer asked for and that had room, each with its
  opcode and bytes, and nothing after CLOSE (`WsRequested.PeerSeesRequested`), from the very bytes that each
  send was given (`WsSend.Sender.InFlight`); sends that move something drain the queue (`WsSendSpec.QueueDrains`).
* The ring is a FIFO within a memory bound, and ranges in flight stay valid (`RingSpec.RunIsFifo`,
  `RunIsBounded`, `InFlightStable`).
* Fragmentation of one HTTP request is unobservable, for the parser (`RequestSpec.FragmentationIsUnobservable`)
  and for the receive loop (`ReaderSpec.AnswerIsJudgement`, `RunsAgree`). For whole connections the answers
  are a judgement of the whole stream exactly as long as no receive reaches past the end of the request
  being answered (`SessionSpec.ConnectionInStepExactly`, `ConnectionsAgree`), which holds for every client
  that waits for its answers (`WaitingClientIsServed`, `RequestsAnswered`, `CompleteExactly`); a pipelined
  request is lost (`PipelinedRequestLost`). Every field of a parsed request is determined by the written text
  (`RequestMeaning.RequestIs`), and what is accepted is a well-formed request (`RequestGrammar.AcceptedIsRequest`).
* The hash map, growth included, is a map over every run from the empty one in which every erasure is
  safe (`HashGrowth.RunRefinesMap`). Safe is stated on the table before the erasure, and is exactly the
  condition under which the invariant survives (`HashGrowth.RemovedIsGood`), which means that every key
  left is still set in place (`HashSpec.SafeIsSetInPlace`). Key by key, what an erasure, safe or not,
  makes unfindable is exact too (`HashSpec.EraseExactly`, `HashGrowth.RemovedGetsExactly`).
* Partial transfers send everything once and in order (`TransferSpec.SentExactlyOnce`), and the callback is told
  the first result that an answer, a resubmission or an abort gives (`TransferResult.FirstResultStands`). Attempts that move
  what they can end the operation if and only if the file holds the announced bytes, and then within as many
  attempts as there are bytes (`SendingEndsExactly`); on a shorter file it is submitted again for ever
  (`ShortFileNeverEnds`).
* A normalised path leads where its input leads (`FilePath.NormalLeadsToSame`).

## What the environment may do

System calls, the allocator, the clock and application callbacks are inputs of the steps: every lemma
about a run quantifies over all of their answers. `poll(2)` reports any event bits for any entry; an
attempt on a socket finishes with any error or would block; a send moves any part of what it was
offered; a callback performs any sequence of actions that the library permits its callers
(`LoopSpec.Enabled`: a handle is created for a descriptor that has none, destroyed with nothing
pending while the index finds it, as the code asserts, and has at most one operation of each type); which
answers keep an HTTP connection open is any function of the answers given so far.

## Where the code and its documentation part

* `th_filepath.h` says that "." components are rejected; the code and its tests drop them. The model drops them.
* `th_ring.h` says that the invalid-argument error means a size that alone exceeds the maximum; the code
  rejects any message that does not fit beside what is queued. The model does the latter.
* The frame parser first asks for two header bytes even when it holds more, and computes the missing
  number without sign, so that the whole chunk goes into the header buffer. `WsBlocks.InBufferExact` says
  when it fits there, `WsLateCut.LateCutExact` when the connection is right all the same, and
  `WsDelivery.SmallMessageLost` gives a family of messages that are not delivered when all of them has come, and
  `HeaderOverrun` a family that makes the code write behind the buffer. The array-level parser is modelled for
  every chunk that fits the buffer (`WsBlocks.InBuffer`).
* The message size check adds in 64 bits. `WsReassembly.SizeCheckExact` says when it is right,
  `SizeCheckWraps` gives a message that outgrows the maximum, and `WsDelivery.ChunksWithinLimit` rules that
  out where declared lengths are legal.
* Closing a hole in the hash map does not continue round the end of the table. `HashSpec.EraseExactly`
  says exactly when an erasure leaves all other keys findable, `HashGrowth.CrowdedIsReached` and
  `EraseLosesWrapped` show a reached table and an erasure that does not, `HandleIndex.RemoveHides` and
  `LostWakeup.WakeupLost` what follows for descriptors and their operations. `HandleIndex.UnsafeHidesNothing`
  shows an erasure that hides nothing at once although it is not safe.
* Starting over after a response forgets the bytes behind the request, so requests that arrive together
  get one answer (`SessionSpec.PipelinedRequestLost`, `WrittenRequestLost`).
* A "?" inside a query, which section 3.4 of RFC 3986 allows, makes the request fail, and nothing else
  about a query does (`RequestRoundTrip.QueryAcceptedExactly`). Directly before the protocol version, though, a "?"
  is taken for the space that section 3 of RFC 9112 demands there (`RequestGrammar.SeparatorIsEither`).
* After a request has enlarged the buffer, the next header section on the connection may use all of it: the
  header limit is the larger of the buffer size and 4096 (`ReaderSpec.Limit`, `SessionSpec.LimitAtEnd`).
* With 64 or more header entries the POSIX `sendfile` passes over the header bytes behind the 63rd, and so
  sends the file too early unless it happens to continue as they do (`TransferSpec.SocketOfferExactly`);
  responses of the library have at most three.
* A file that has become shorter than announced keeps its `sendfile` operation going for ever, if the socket
  stays writable (`TransferSpec.ShortFileNeverEnds`).

## Model

| member | source | states |
|---|---|---|
| `RingSpec.PutAllQueued` | src/th_ring.c:37-47 | writing to a circular chunk appends the bytes in order and overwrites no slot that holds a queued byte, wrapping or not |
| `RingSpec.QueuedRuns` | src/th_ring.c:116-125 | the queued bytes of a chunk are the two runs that peek computes, one after the other |
| `RingSpec.WriteAppends` | src/th_ring.c:76-106 | an accepted message is appended at the very end and lies inside one chunk; a rejected one changes nothing |
| `RingSpec.WriteInv` | src/th_ring.c:76-106 | a write keeps the invariant: an empty chunk is the only chunk, each chunk is at least twice its predecessor, the length is the total and within the maximum |
| `RingSpec.AcceptedExactly` | src/th_ring.c:79-99 | a message is refused for its size exactly if it and what is queued exceed the maximum, and for want of memory exactly if it needs a new chunk and there is none; a refused one changes nothing |
| `RingSpec.ConsumeDrops` | src/th_ring.c:128-142 | consuming drops exactly the oldest bytes of the whole queue |
| `RingSpec.ConsumeInv` | src/th_ring.c:128-142 | a consume keeps the invariant, also when it frees the head chunk |
| `RingSpec.DrainedKeeps` | src/th_ring.c:128-142 | an emptied ring keeps its last chunk exactly if that is no larger than the initial capacity, so it never holds more |
| `RingSpec.HeadIsPrefix` | src/th_ring.c:108-126 | the head chunk's bytes are a prefix of everything queued, and none only when nothing is queued |
| `RingSpec.RunIsFifo` | src/th_ring.c:76-142 | over every run, the bytes taken out followed by the bytes left are the bytes there at first followed by those accepted |
| `RingSpec.CapacityCounts` | src/th_ring.c:84-98 | the capacity of a ring is that of its chunks together, each counted once |
| `RingSpec.RunIsBounded` | src/th_ring.c:79-99 | no run ever has more capacity allocated than max(initial capacity, 4 * maximum length) |
| `RingSpec.PeakIsBounded` | src/th_ring.c:84-98 | the same bound inside a write, while the replaced empty chunk is still allocated |
| `RingSpec.InFlightStable` | src/th_ring.c:83-103 | however many writes follow, the head chunk stays and its queued slots keep their bytes, so ranges handed to a send stay valid |
| `Ring.Chunk.Write` | src/th_ring.c:37-47 | the two copies into the buffer do what the byte-by-byte specification does |
| `Ring.Chunk.Ranges` | src/th_ring.c:108-126 | the ranges lie inside the buffer and hold exactly the queued bytes |
| `Ring.Ring.Write` | src/th_ring.c:76-106 | the new state and the status are the specification's for all parts concatenated; a nonempty ring keeps its head chunk object |
| `Ring.Ring.Peek` | src/th_ring.c:108-126 | at most two ranges, inside the head chunk's buffer, holding a prefix of the queue, and none exactly when it is empty |
| `Ring.Ring.Consume` | src/th_ring.c:128-142 | the new state is the specification's |
| `WsFrame.WriteHeader` | th.c:10654-10672 | writes the header bytes of the specification and no byte behind them |
| `WsFrame.HeaderRoundTrip` | th.c:10654-10672 | a decoder after section 5.2 of RFC 6455 reads back type, length, FIN and size, whatever follows |
| `WsFrame.HeaderIsMinimal` | th.c:10658-10671 | no header that declares the same length is shorter |
| `WsFrame.MaskTwice` | th.c:10824-10825 | masking with the same key twice gives the payload back |
| `WsFrame.XorIsExclusiveOr` | th.c:10824-10825 | each of the eight bits of the combination is the sum of the two bits modulo 2 |
| `WsFrame.MaskBits` | th.c:10824-10825 | bit by bit, a masked payload is the exclusive or of the payload and the repeated key |
| `WsStream.UnmaskBits` | th.c:10824-10825 | so is what is stored of a stretch of payload, with the key in step with the bytes read before |
| `WsExamples.TextIsDelivered` | th.c:10782-10838 | the masked text frame of section 5.7 of RFC 6455, byte for byte, delivers "Hello" |
| `WsExamples.FragmentsAreJoined` | th.c:10782-10838 | and two masked fragments deliver it as one message |
| `WsExamples.PongIsTaken` | th.c:10782-10838 | and a pong delivers nothing and closes nothing |
| `WsExamples.HeadersAreWritten` | th.c:10654-10672 | the unmasked headers of that section, in all three length forms |
| `WsStream.PayloadBytesRead` | th.c:10816-10838 | taking a run of payload bytes at once is taking them one by one, with the key in step |
| `WsStream.CompletedAs` | th.c:10793-10813 | a frame ends as what its opcode says; a message as text or binary by the opcode of its first frame, and only with its final one |
| `WsBlocks.InBufferExact` | th.c:10692-10700 | the header attempt writes inside the 14-byte header buffer if and only if at most two bytes are buffered or the whole chunk fits behind them |
| `WsBlocks.BlockIsBytewise` | th.c:10761-10880 | a chunk is parsed as byte by byte, in result, state and count, unless three or more header bytes are buffered and it reaches past the header |
| `WsLateCut.HeaderTakeExact` | th.c:10692-10700 | the header attempt takes exactly the missing header bytes if and only if at most two are buffered or the chunk does not reach past the header |
| `WsLateCut.LateCutSwallowsSurplus` | th.c:10765 | when it is not so, all bytes of the chunk, payload included, go to the header buffer, and the header is finished from its front |
| `WsLateCut.AttemptAgreesExactly` | th.c:10761-10880 | for every chunk that fits the header buffer, the exact condition for result, state and count to be those of byte-wise parsing: the resumption is no late one, or what is swallowed is one empty continuation behind an empty unfinished data frame |
| `WsLateCut.LateCutExact` | th.c:11083-11119 | and the exact condition for the connection to be right, in terms of the completed header, the swallowed bytes and the handler's answer |
| `WsLateCut.LateCutLosesMessage` | th.c:10761-10779 | wherever a late chunk that fits the header buffer ends inside the payload of an accepted final data frame, when the rest of the frame arrives its message is due but is not delivered, and the parser waits for more payload |
| `WsParser.FrameParser.FillHeader` | th.c:10692-10700 | appends the bytes it takes to the header buffer, with the unsigned difference, as long as they fit |
| `WsParser.FrameParser.ValidateBaseHeader` | th.c:10702-10733 | accepts exactly the base headers that the rules allow in the current message state, and gives the header's size |
| `WsParser.FrameParser.ReadLength` | th.c:10745-10750 | the loop reads the declared length in any of the three forms, from the front of the buffer |
| `WsParser.FrameParser.ParseHeaderFields` | th.c:10735-10759 | stores the frame's fields or rejects its size, as the specification does |
| `WsParser.FrameParser.CollectHeader` | th.c:10761-10776 | asks for two bytes and then for the rest, whatever is buffered, and checks the first two as soon as they are there |
| `WsParser.FrameParser.DoHeader` | th.c:10761-10779 | state, count and error are those of the header attempt on values, late chunks included |
| `WsParser.FrameParser.TakePayload` | th.c:10824-10830 | unmasks in place, appends the result to the message unless the frame is a control frame, and touches no other byte |
| `WsParser.FrameParser.FrameDone` | th.c:10794-10813 | the end of a frame is the specification's: a control frame leaves the partial message alone |
| `WsParser.FrameParser.DoPayload` | th.c:10816-10838 | one payload attempt is a stretch of the parser on values, and bytes behind it are untouched |
| `WsParser.FrameParser.ParseFrames` | th.c:10857-10880 | the parse loop terminates, zero-length frames included, and its result, state and count are those of the parser on values |
| `WsParser.Receiver.Consume` | th.c:11083-11119 | the consume loop delivers and stops as the specification on values does, for every chunk that fits the header buffer |
| `WsReassembly.FrameParses` | th.c:10857-10880 | a whole frame is accepted exactly when the rules allow it, and then leaves the parser with the unmasked payload appended |
| `WsReassembly.ClientHeaderDecodes` | th.c:10735-10759 | the decoder of section 5.2 reads the header of any client frame back: FIN, opcode, length in each form, and key |
| `WsReassembly.FrameRefines` | th.c:10857-11119 | a whole frame does to the connection what sections 5.4 and 5.5 of RFC 6455 prescribe |
| `WsReassembly.StreamRefines` | th.c:10857-11119 | for every stream of masked frames, control frames between fragments included, exactly the reassembled messages are delivered |
| `WsDelivery.CutIsUnobservableExactly` | th.c:10761-10880 | cutting a chunk in two, where both header writes stay inside their buffer, is unobservable if and only if the second part is no late chunk or a harmless one |
| `WsDelivery.InStepExactly` | th.c:11083-11137 | over any run of chunks whose header writes stay inside the buffer, the connection is as after byte-wise parsing, after every chunk, if and only if every late chunk is harmless |
| `WsDelivery.CutsAreHarmless` | th.c:10761-11137 | if no chunk that starts behind the third byte of a header reaches past that header, no header write leaves its buffer and the chunks are taken as byte by byte |
| `WsDelivery.DeliversWhatWasSent` | th.c:10857-11137 | for every stream of masked frames, so cut, the connection delivers exactly the reassembled messages |
| `WsDelivery.ReceiveFrames` | th.c:11121-11137 | the same for the parser that works in place, fed through the connection's buffer from its start |
| `WsDelivery.Feed` | th.c:11121-11137 | receiving chunks one after the other is the specification on values, for any chunks whose header writes stay inside the buffer |
| `WsDelivery.SmallMessageLost` | th.c:10761-10779 | a message of up to eight bytes cut behind the third, fourth or fifth byte of its header is not delivered when all of it has come |
| `WsDelivery.HeaderOverrun` | th.c:10692-10700 | a longer message cut there makes the header attempt write all of the second chunk, to behind the end of the header buffer |
| `WsReassembly.SizeCheckExact` | th.c:10751-10752 | the size check decides the limit if and only if the sum stays within 64 bits |
| `WsReassembly.SizeCheckWraps` | th.c:10751-10752 | a continuation that declares 2^64 - 1 bytes is accepted when one byte is buffered, and then all of its payload, beyond the maximum |
| `WsDelivery.ChunksWithinLimit` | th.c:10735-10759 | over any run of chunks, late ones included, as long as declared lengths have a top bit of 0, no message under way or delivered ever exceeds the configured maximum |
| `WsReassembly.ConsumeWithinLimit` | th.c:10735-10759 | the same for what follows in a chunk behind its first header attempt |
| `WsSendSpec.StepKeepsInv` | th.c:11155-11217 | every step keeps: wire plus queue is what was accepted, where the wire consists of bytes that sends were given; one send is outstanding exactly while bytes are queued, and what it was given is still what the head chunk holds in front; a CLOSE frame is last |
| `WsSendSpec.RunKeepsInv` | th.c:11155-11217 | hence in every run |
| `WsSendSpec.StreamDecodes` | th.c:10654-10672 | a decoder recovers the accepted frames from their concatenated wire forms |
| `WsSendSpec.DecodingGrows` | th.c:11169-11180 | what was decoded from the wire stays decoded as more arrives |
| `WsSendSpec.PeerSeesAccepted` | th.c:11155-11217 | in every run the peer has decoded a prefix of the accepted frames, will decode all of them once the queue is out, and sees nothing after CLOSE |
| `WsRequested.StepTakes` | th.c:11182-11217 | what the application or the peer asks for is accepted exactly if there is room and memory for it: text as opcode 1, binary as 2, one CLOSE as 8 on the first close, each with the caller's bytes |
| `WsRequested.PeerSeesRequested` | th.c:11156-11217 | over any run, what the peer decodes is a prefix of the frames that were asked for and had room, in order, and with the queued bytes all of them |
| `WsRequested.FirstMessageIsOffered` | th.c:11182-11208 | on a new connection a message that fits is given whole to the first send, at once |
| `WsRequested.NothingAfterClose` | th.c:11201-11217 | once either side has closed nothing more is asked for |
| `WsRequested.EndsWhenDrained` | th.c:11156-11167 | a connection ends with a completed send exactly if it is closing and nothing is queued any more |
| `WsRequested.FailureEnds` | th.c:11170-11177 | a failed send ends it at once, with nothing more on the wire |
| `WsSendSpec.QueueDrains` | th.c:11155-11180 | between two messages sends go on as long as bytes are queued, and as many that each move something as there are bytes leave the peer with all accepted frames |
| `WsSend.Sender.SendReadsOffered` | th.c:11155-11167 | whatever was queued since, the ranges of an outstanding send lie in their buffer and hold the very bytes that were offered |
| `WsSend.Sender.SendDrain` | th.c:11155-11167 | starts the next send, of ranges that hold all of the head chunk, or stops and ends a closing connection |
| `WsSend.Sender.QueueFrame` | th.c:11182-11199 | queues header and payload as one message, and starts sending if nothing is under way |
| `WsSend.Sender.Send` | th.c:11201-11208 | refused once closing; otherwise one queued message |
| `WsSend.Sender.CloseConnection` | th.c:11210-11217 | queues the CLOSE frame once |
| `WsSend.Sender.OnPeerClose` | th.c:11099-11105 | echoes a CLOSE frame unless one was queued |
| `WsSend.Sender.HandleSend` | th.c:11169-11180 | what reached the wire is the front of what the ranges held; it is taken from the ring and the next send starts, or the connection ends |
| `RequestSpec.CrEndsToken` | src/th_request_parser.c:328-334 | a header name never reaches past the end of its line, so the value's length is not negative |
| `RequestSpec.CompleteLineDecides` | src/th_request_parser.c:308-342 | a complete header line is never waited on |
| `RequestSpec.AttemptGrows` | src/th_request_parser.c:393-412 | what one attempt decides on part of the bytes it decides on more of them; after a wait it can be repeated, although a path may already be stored |
| `RequestSpec.ParseResumes` | src/th_request_parser.c:414-432 | parsing a prefix and then the unconsumed remainder with the rest gives the error or the state of parsing all at once |
| `RequestSpec.FragmentationIsUnobservable` | src/th_request_parser.c:414-432 | so does any number of cuts |
| `RequestParser.NextToken` | src/th_request_parser.c:90-120 | the loop finds the first stop character, unless a forbidden one comes first |
| `RequestParser.NextSegment` | src/th_request_parser.c:170-198 | the same for path and query characters |
| `RequestParser.IsPrintable` | src/th_request_parser.c:122-131 | true exactly for strings of printable characters |
| `RequestParser.TrimBlanks` | src/th_str.c:116-128 | both ends trimmed of blanks |
| `RequestParser.StrToUint` | src/th_str.c:24-34 | the decimal number modulo 2^32, or an error exactly for a non-digit |
| `RequestParser.Parser.DoMethod` | src/th_request_parser.c:133-150 | the attempt's effect on parser and request is the specification's |
| `RequestParser.Parser.DoPath` | src/th_request_parser.c:200-230 | likewise; a path is stored even when the query is still incomplete |
| `RequestParser.Parser.DoVersion` | src/th_request_parser.c:232-263 | likewise |
| `RequestParser.Parser.HandleHeader` | src/th_request_parser.c:265-306 | likewise, for the headers that the parser itself acts on |
| `RequestParser.Parser.DoHeader` | src/th_request_parser.c:308-342 | likewise |
| `RequestParser.Parser.DoBody` | src/th_request_parser.c:369-391 | likewise |
| `RequestParser.Parser.Parse` | src/th_request_parser.c:414-432 | the loop's error, or its state and count, are the specification's |
| `RequestRoundTrip.LineParses` | src/th_request_parser.c:133-263 | a written request line reads back into method, path, query and version |
| `RequestRoundTrip.HeadersParse` | src/th_request_parser.c:308-342 | written header fields are handled one by one, in order |
| `RequestRoundTrip.RequestReadsBack` | src/th_request_parser.c:414-432 | a whole written request reads back by way of its header section and body (`RequestMeaning.RequestIs` says what they come to), and the bytes behind it are left alone |
| `RequestMeaning.TrimmedOnce` | src/th_str.c:117-132 | trimming leaves exactly the part between the outer blanks |
| `RequestMeaning.LengthIsDecimal` | src/th_str.c:25-37 | a length is the decimal number written, modulo 2^32, and anything but digits is refused |
| `RequestMeaning.HeadersMean` | src/th_request_parser.c:266-306 | a header section is refused with the fault of its first bad field; otherwise the stored headers are the written ones in order, with lowered names and trimmed values, without cookies and lengths, and length, encoding and connection are what the last field of each kind says |
| `RequestMeaning.BodyIsStored` | src/th_request_parser.c:370-392 | a finished request holds the written body in every encoding, and form variables and parts as the codecs read them from it |
| `RequestMeaning.RequestIs` | src/th_request_parser.c:414-432 | every field of the parsed request in terms of the written text and the codecs alone, or the error with which it is refused |
| `RequestMeaning.BadFieldRefused` | src/th_request_parser.c:331-339 | a bad field makes the request fail, whatever follows |
| `RequestGrammar.TokenChars` | src/th_request_parser.c:93-106 | the characters of methods and header names, as ranges |
| `RequestGrammar.UriChars` | src/th_request_parser.c:173-186 | the characters of paths and queries, as ranges |
| `RequestGrammar.PrintableExactly` | src/th_request_parser.c:123-131 | a header value is refused exactly if it has a control character or one beyond ASCII |
| `RequestGrammar.MethodDecides` | src/th_request_parser.c:134-149 | which bytes the method attempt waits on, refuses with 400 or 501, and takes |
| `RequestGrammar.PathDecides` | src/th_request_parser.c:201-230 | likewise for path and query; the path is stored while the query is still open |
| `RequestGrammar.VersionDecides` | src/th_request_parser.c:233-263 | waits for a line end and takes "HTTP/1." with one digit, and nothing else |
| `RequestGrammar.HeaderDecides` | src/th_request_parser.c:309-341 | waits for a line end, takes a well-formed field or the empty line, and refuses any other line; a body announced for GET or HEAD is refused |
| `RequestGrammar.AcceptedIsRequest` | src/th_request_parser.c:414-432 | whatever the parser accepts is a request line, header fields, an empty line and a body; a question mark may stand for the space behind a query |
| `RequestGrammar.SeparatorIsEither` | src/th_request_parser.c:188-192 | and both are taken alike |
| `RequestRoundTrip.HeadersKeepLine` | src/th_request_parser.c:265-306 | no header changes what the request line stored |
| `RequestRoundTrip.SecondQuestionMarkRefused` | src/th_request_parser.c:188-222 | a query that contains a question mark makes any request fail |
| `RequestRoundTrip.QueryAcceptedExactly` | src/th_request_parser.c:188-222 | a request line with a query of query characters is accepted if and only if the query has no question mark |
| `ReaderSpec.HandleKeepsInv` | src/th_http.c:283-338 | every receive keeps: unparsed window is the received, unparsed stream suffix; a body fits behind the parsed bytes; an answer is the stream's verdict |
| `ReaderSpec.WindowInBuffer` | src/th_http.c:316-336 | every requested window is nonempty and inside the buffer, and a body window asks for exactly the missing bytes |
| `ReaderSpec.AnswerIsJudgement` | src/th_http.c:283-338 | for one request: after any run the answer is given exactly when the stream has a verdict, and is that verdict, which does not mention chunks |
| `ReaderSpec.MovesToMakeRoom` | src/th_http.c:318-335 | a request moves to the front of the buffer, and the buffer grows, exactly when its body would not fit otherwise |
| `ReaderSpec.SizeLimits` | src/th_http.c:307-325 | a header section still open after 4096 bytes, or after a larger first buffer, is answered with 431, and a longer body than 4194304 bytes with 413 |
| `ReaderSpec.JudgementStays` | src/th_http.c:283-338 | a verdict does not change with more bytes |
| `ReaderSpec.RunsAgree` | src/th_http.c:283-338 | for one request: readers that receive the same stream cut differently answer alike |
| `SessionSpec.ReceiveExactly` | src/th_http.c:48-67 | with restarts: one receive keeps answers, limit and pending bytes those of the whole stream if and only if it does not reach past the end of a request after which the connection is kept |
| `SessionSpec.ConnectionInStepExactly` | src/th_http.c:48-67 | hence for whole connections, after every receive; the answers are then the judgement of the whole stream |
| `SessionSpec.ConnectionsAgree` | src/th_http.c:283-338 | connections that receive the same stream, cut differently but never overshooting, give the same answers |
| `SessionSpec.WaitingClientIsServed` | src/th_http.c:48-67 | a client that sends a request only when the one before is answered never overshoots, however it cuts |
| `SessionSpec.CompleteExactly` | src/th_http.c:283-338 | a request is answered as complete if and only if it fits the header limit, or its header section does and its body is not too long |
| `SessionSpec.RequestIsDue` | src/th_http.c:283-338 | and then with its last byte and not before, whatever follows |
| `SessionSpec.RequestsAnswered` | src/th_http.c:48-67 | every such request of a client that waits is answered as complete, in order, however each is cut, where bodies may raise the limit for the requests after them |
| `SessionSpec.WrittenIsRequest` | src/th_request_parser.c:414-432 | what a client writes as a request is such a request |
| `SessionSpec.PipelinedRequestLost` | src/th_http.c:48-57 | any request of up to 512 bytes, sent twice, gets two answers in two chunks and one answer in one |
| `SessionSpec.WrittenRequestLost` | src/th_http.c:48-57 | this happens to every request that a client can write in so many bytes |
| `SessionSpec.LimitAtEnd` | src/th_http.c:318-335 | the header limit of the next request depends on the request before, and not on how it was cut |
| `RequestReader.Http.HandleRead` | src/th_http.c:283-338 | parser, indices, buffer and requested window become what the specification says, across growth and compaction |
| `RequestReader.Http.AskForMore` | src/th_http.c:307-337 | likewise for the part behind the parser |
| `RequestReader.Http.Compact` | src/th_http.c:328-330 | the overlapping move keeps the unparsed bytes |
| `RequestReader.Http.Restart` | src/th_http.c:48-57 | the next request starts in a buffer that keeps its size |
| `RequestReader.Http.Receive` | src/th_http.c:59-67 | an answer ends the connection or makes the reader start over, as the specification says |
| `RequestReader.Http.Serve` | src/th_http.c:283-338 | a whole run is the specification's, and answers the judgement of its stream whenever no receive overshoots |
| `LoopSpec.PerformCore` | src/th_recv.c:39-60 | an attempt leaves the operation in exactly one place: parked with one new entry, or completed and queued once |
| `LoopSpec.SubmitCore` | src/th_poll.c:177-199 | registering parks and counts the operation; when the entry cannot be pushed it completes with that error instead |
| `LoopSpec.CompleteCore` | src/th_recv.c:17-22 | completing queues the operation, which was not queued, once |
| `LoopSpec.ApplyKeepsCore` | src/th_poll.c:177-274 | any permitted action, a destroy that damages the index included, keeps: every operation has one place, what is queued has completed, the count is right |
| `LoopSpec.ApplyKeepsInv` | src/th_poll.c:177-274 | create, safe destroy, submit, cancel and timeout switching keep: every parked operation has a poll entry, every operation has one place, the count is right, the index finds exactly the live handles |
| `LoopSpec.ApplyKeepsInvExactly` | src/th_poll.c:229-236 | a permitted action keeps the invariant if and only if it does not destroy a handle whose erasure breaks the invariant of the index's table |
| `ReactorSpec.SweepCovers` | src/th_poll.c:287-323 | through the compaction loop, a parked operation's entry is kept, still to be visited, or newly pushed behind the polled ones |
| `ReactorSpec.RunKeepsCore` | src/th_poll.c:276-334 | a reactor run with any events and any index keeps every operation in its one place, the count, and the order of the queue |
| `ReactorSpec.RunKeepsInv` | src/th_poll.c:276-334 | with a right index, a reactor run with any events, looking handles up in the hash index, keeps the whole invariant: no wakeup is lost |
| `ReactorSpec.LookedIsLive` | src/th_poll.c:287-294 | with a right index the reactor's lookup leads every live descriptor to its own handle, and no other anywhere |
| `ReactorSpec.TargetIsOwn` | src/th_poll.c:287-310 | and so an entry to the operation parked in its own slot, if there is one |
| `ReactorSpec.DestroyHidesExactly` | src/th_poll.c:229-236 | after destroying a handle, safely or not, a lookup leads every other live descriptor that the erasure has not cut off, by the table before it, to its own handle, and any other nowhere |
| `LostWakeup.QuietRunCoversExactly` | src/th_poll.c:287-334 | after a run without events every parked operation still has its entry if and only if each of these leads to a parked operation, with an index that may have been damaged |
| `LostWakeup.DestroyLosesExactly` | src/th_poll.c:229-334 | after destroying a handle, a run without events keeps the entries of all parked operations if and only if none of their descriptors was cut off |
| `LostWakeup.MissedIsDropped` | src/th_poll.c:291-294 | unless a connection is accepted meanwhile, the entry of a parked operation whose handle no polled entry's lookup leads to is dropped, whatever it reports and whatever else is polled, and the operation stays parked |
| `LostWakeup.WakeupLost` | src/th_poll.c:229-294 | with handles for the descriptors 6, 7 and 14 and an operation waiting at 14, destroying the handle of 6 makes the next reactor run drop the operation's entry |
| `LostWakeup.UnsafeMissesNothing` | src/th_poll.c:229-236 | destroying the handle of 7 of these three breaks the invariant, and yet every remaining handle is found |
| `ReactorSpec.ServiceEffect` | src/th_poll.c:288-323 | one entry changes at most the slot that its lookup leads to, which is then empty or registered anew, and never finalizes an operation |
| `ReactorSpec.EventIsServiced` | src/th_poll.c:296-310 | a reported event reaches its operation in the same run: it completes or tries again (`Outcomes.EventSays` says which, and with what error) |
| `Outcomes.AttemptGives` | src/th_recv.c:17-54 | an attempt counts once; an error or success of the system call is the operation's error, a call that would block parks it, and a registration that fails is its error; no other operation changes |
| `Outcomes.AcceptedGetsHandle` | src/th_poll.c:262-274 | an accepted connection gets a handle without timeout, which a right index then finds |
| `Outcomes.ReadyTriesAgain` | src/th_poll.c:294-300 | an entry for reading that reports POLLIN, or for writing that reports POLLOUT, makes its operation try once more, whatever else it reports |
| `Outcomes.NotReadyGivesUp` | src/th_poll.c:301-320 | otherwise the operation ends without a try: end of file, I/O error, bad descriptor or unknown event by the first of the bits, or a timeout; with no bits and no timeout the entry is kept and nothing changes |
| `Outcomes.RunSays` | src/th_poll.c:287-333 | in a whole run with any index, the operation that an entry leads to when its turn comes ends with the error that the report means, and tries again if it is ready |
| `Outcomes.EventSays` | src/th_poll.c:287-333 | with a right index that is the operation parked in the entry's own slot |
| `Outcomes.StartGives` | src/th_poll.c:177-199 | a new operation is attempted at once, once, and ends or waits accordingly |
| `Outcomes.CancelGives` | src/th_poll.c:201-213 | cancelling ends what is parked at the handle, reading before writing, with the cancellation error, and changes nothing else |
| `Outcomes.ResultStays` | src/th_recv.c:11-23 | over any run, a completed operation keeps its error |
| `Outcomes.CallbackIsTold` | src/th_recv.c:11-15 | from the report to the callback: the poll that finalizes the operation does so with the error that its entry meant |
| `Timeouts.StartArms` | src/th_poll.c:189-191 | registering a new operation sets the timer of a handle with timeouts to ten seconds from then |
| `Timeouts.RetryArms` | src/th_poll.c:189-191 | and so does registering one again |
| `Timeouts.TimerStays` | src/th_timer.c:12-22 | over any run with safe destroys in which nothing is reported for the descriptor and nobody touches its handle, the timer stays |
| `Timeouts.TimesOutExactly` | src/th_poll.c:311-316 | then the operation times out in the reactor's run exactly if ten seconds have passed since it was set |
| `SchedulerSpec.RunTaskCalls` | src/th_loop.c:54-57 | draining a task runs the callback of that operation once and of no other, whatever the callback does and whatever the index is like |
| `SchedulerSpec.PollKeepsIdle` | src/th_loop.c:39-60 | every poll keeps every operation in one place, the count and the reactor's task, whatever its callback starts, cancels or destroys |
| `SchedulerSpec.PollKeepsInv` | src/th_loop.c:39-60 | and poll entries and index right if the callback destroys handles safely |
| `SchedulerSpec.SecondTask` | src/th_loop.c:45-59 | behind the reactor's task comes an operation, so a poll loops at most twice |
| `SchedulerSpec.NothingLeftExact` | src/th_loop.c:42-44 | a poll reports that nothing is left exactly when no operation is queued or parked |
| `SchedulerSpec.EveryReachableState` | src/th_loop.c:4-60 | in every state reached by any run of permitted actions: no operation is in two places or finalized twice, the reactor's task is queued once, and the task count is exact |
| `SchedulerSpec.EverySafeState` | src/th_poll.c:276-334 | if the run's destroyed handles are erased safely, besides: every parked operation has a poll entry, and the index finds exactly the live handles |
| `SchedulerSpec.WaitsItsTurn` | src/th_loop.c:45-59 | over any run, an operation behind k others is, after m <= k polls, behind k - m others and not finalized |
| `SchedulerSpec.RunsInTurn` | src/th_loop.c:45-59 | it is finalized by exactly the (k+1)-th poll |
| `SchedulerSpec.ReactorRunsInTurn` | src/th_loop.c:49-53 | over any run, the reactor, queued behind q operations, is run by the (q+1)-th poll |
| `Completion.ServiceQueues` | src/th_poll.c:289-321 | serving an entry queues one operation, last, or none: the one that the entry leads to, if an error, a finished retry, a failed registration or a timeout ends its wait |
| `Completion.SweepQueues` | src/th_poll.c:287-323 | in a whole run it comes right behind the operations queued before the run and those that earlier entries end |
| `Completion.FinalizedInTurn` | src/th_loop.c:39-60 | an operation whose wait a poll ends, with any index, is finalized after exactly as many more polls as there are operations in front of it |
| `Completion.ReportedIsFinalized` | src/th_poll.c:276-334 | in any run with safe destroys, the reactor's task behind q operations and a parked operation whose entry ends its wait in that run: its callback runs once, at that poll and no earlier |
| `EventLoop.EventLoop.Register` | src/th_poll.c:187-198 | slot, timer, entry and count become the specification's, also when the push fails |
| `EventLoop.EventLoop.CancelAll` | src/th_poll.c:201-213 | both slots are emptied and their operations completed as cancelled, in any reachable state |
| `EventLoop.EventLoop.ServeEntry` | src/th_poll.c:289-321 | one entry of the loop, its handle looked up in the index, does what the specification says and decides whether it is kept |
| `EventLoop.EventLoop.SweepInPlace` | src/th_poll.c:287-323 | the in-place loop leaves the kept entries in front, in order, and the pushed ones behind |
| `EventLoop.EventLoop.Compact` | src/th_poll.c:328-333 | pushed entries move down behind the kept ones and nothing else remains |
| `EventLoop.EventLoop.React` | src/th_poll.c:276-334 | the whole reactor run is the specification's, also with an index that misses handles, and keeps the invariant |
| `EventLoop.EventLoop.Poll` | src/th_loop.c:39-60 | the poll loop's status and state are the specification's, with any index and whatever the callback destroys, and it terminates |
| `HandleIndex.AddFinds` | src/th_poll.c:106-129 | adding a descriptor, growth of the table included, keeps table and array inverse, and the index then finds it and what it found before |
| `HandleIndex.EnterWithoutMemory` | src/th_poll.c:118-128 | without memory for the table, a new handle is in the array but found exactly if the table need not grow |
| `HandleIndex.RemoveFinds` | src/th_poll.c:142-160 | so does a safe removal by swapping in the last handle, for the other descriptors |
| `HandleIndex.RemoveIsRightExactly` | src/th_poll.c:142-160 | a removal keeps the index's invariant (a sound table, inverse to the array) if and only if the table's erasure is safe |
| `HandleIndex.RemoveSeesExactly` | src/th_poll.c:142-160 | after any removal, descriptor by descriptor, the lookup leads to its own handle if it had one, is not the removed one and was not cut off, the swapped-in handle included, and otherwise to none |
| `HandleIndex.EnterAtPosition` | src/th_poll.c:125-128 | a handle whose descriptor has a position, stale or not, is put there, and nothing else changes |
| `HandleIndex.StaleRemoval` | src/th_poll.c:146-158 | a removal by a stale position behind the handles in use drops the last handle and leaves the others |
| `HandleIndex.CrowdedIndex` | src/th_poll.c:106-129 | adding descriptors 6, 7 and 14 leads to a table with a wrapped entry |
| `HandleIndex.RemoveHides` | src/th_poll.c:142-160 | removing descriptor 6 then hides descriptor 14, whose handle is still in the array |
| `HandleIndex.UnsafeHidesNothing` | src/th_poll.c:142-160 | removing descriptor 7 instead is not safe, but hides none |
| `HandleMap.HandleMap.Set` | src/th_poll.c:106-129 | the handle is put behind the others and indexed, or where the table points to, in any state that removals may have left, and also when memory for the array or the table is lacking |
| `HandleMap.HandleMap.TryGet` | src/th_poll.c:131-140 | the handle that the table points to, in any state; with a right index exactly the descriptor's handle |
| `HandleMap.HandleMap.Remove` | src/th_poll.c:142-160 | swap-remove in table and array, in any state; a right index stays right if and only if the table's erasure is safe |
| `TaskQueue.Queue.Push` | src/th_queue.h:44-54 | the linked items are the old ones and then the new one |
| `TaskQueue.Queue.PushQueue` | src/th_queue.h:56-66 | the other queue's items follow, and it is empty |
| `TaskQueue.Queue.Pop` | src/th_queue.h:68-79 | the oldest item, unlinked, or none |
| `HashSpec.FoundExactly` | src/th_hashmap.h:249-275 | find reaches an entry if and only if the slots on its probe path, inside the window, are all used |
| `HashSpec.LookupExact` | src/th_hashmap.h:249-275 | in a table that keeps the invariant, lookup is membership |
| `HashSpec.SetKeepsSound` | src/th_hashmap.h:125-171 | setting keeps unique keys, gap-free probe paths, the exact count and the exact window; it adds no wrapped entry unless it had to wrap |
| `HashSpec.SetIsUpdate` | src/th_hashmap.h:141-171 | setting is updating the map that the table stands for |
| `HashSpec.SetFailsExactly` | src/th_hashmap.h:170 | there is no room exactly when all slots are used and none by the key |
| `HashSpec.ShiftCloses` | src/th_hashmap.h:178-192 | closing a hole leaves no gap before any entry that has not wrapped, and trades the first hole for the last |
| `HashSpec.ShiftSettles` | src/th_hashmap.h:178-192 | the slot that stays free in the end is the first one behind the erased slot such that all entries of the run behind it have their homes behind it |
| `HashSpec.EraseShape` | src/th_hashmap.h:277-283 | after any erasure keys are unique and size, begin and end exact |
| `HashSpec.EraseAnchored` | src/th_hashmap.h:193-200 | a used slot stops the scans for the new window, so the backward scan stays in bounds |
| `HashSpec.EraseExactly` | src/th_hashmap.h:178-192 | the other entries are all still found if and only if that slot, which is determined on the table before the erasure, does not lie on the path of a wrapped entry inside the window |
| `HashSpec.EraseKeepsSound` | src/th_hashmap.h:178-200 | the invariant survives if and only if that slot lies nowhere on the path of a wrapped entry, inside the window or not; always where nothing has wrapped, and then nothing wraps afterwards |
| `HashSpec.SafeIsSetInPlace` | src/th_hashmap.h:141-171 | which is the condition under which setting any key that is left still updates its entry |
| `HashSpec.FoundAfterExactly` | src/th_hashmap.h:249-283 | entry by entry, whether it is still found after any erasure |
| `HashSpec.EraseIsRemoval` | src/th_hashmap.h:277-283 | erasing is removing the key from the map that the table stands for |
| `HashGrowth.GrownIsGood` | src/th_hashmap.h:203-234 | rehashing in place, slot by slot with an erasure and a set each, ends in a sound table of the doubled capacity, although the erasures meet entries not yet rehashed |
| `HashGrowth.GrownKeepsEntries` | src/th_hashmap.h:203-234 | and keeps every entry |
| `HashGrowth.StoredIsUpdate` | src/th_hashmap.h:236-247 | setting a key, growth included, always finds room and is updating the plain map |
| `HashGrowth.RemovedIsGood` | src/th_hashmap.h:277-283 | the invariant survives the erasure of a key if and only if it is safe |
| `HashGrowth.RemovedGetsExactly` | src/th_hashmap.h:277-283 | safe or not, a key other than the erased one keeps its value if it is not cut off, and all others are not found |
| `HashGrowth.RemovedIsRemoval` | src/th_hashmap.h:277-283 | and then the key is removed from the plain map |
| `HashGrowth.RunRefinesMap` | src/th_hashmap.h:107-283 | over every run from the empty map in which every erasure is safe the table is the plain map and counts its keys |
| `HashGrowth.NoWrapIsSafe` | src/th_hashmap.h:178-200 | where nothing has wrapped every erasure is safe, and nothing has wrapped afterwards |
| `HashGrowth.CrowdedIsReached` | src/th_hashmap.h:203-247 | setting keys 6, 7 and 14 in the empty map leads to four slots in which 14 has wrapped |
| `HashGrowth.EraseLosesWrapped` | src/th_hashmap.h:178-192 | erasing key 6 there leaves key 14 in the table but not to be found |
| `HashGrowth.UnsafeCutsNothing` | src/th_hashmap.h:178-192 | erasing key 7 there is not safe, but cuts no key off |
| `HashMap.HashMap.Reserve` | src/th_hashmap.h:106-123 | nothing to do if there is room; otherwise the entries are kept and free slots follow, up to the next power of two, unless memory is lacking |
| `HashMap.HashMap.Expand` | src/th_hashmap.h:203-234 | in any table the in-place loop does what the specification's rehashing does; without memory nothing changes |
| `HashMap.HashMap.Set` | src/th_hashmap.h:236-247 | in any table, growth included, the new table is the specification's; it fails only without memory to grow |
| `HashMap.HashMap.DoSet` | src/th_hashmap.h:141-171 | the two loops do what the specification does, in place |
| `HashMap.HashMap.UpdateBeginEnd` | src/th_hashmap.h:125-139 | the window is widened to the new slot |
| `HashMap.HashMap.TryGet` | src/th_hashmap.h:249-275 | the probes find the entry that holds the key, or show that there is none |
| `HashMap.HashMap.Prev` | src/th_hashmap.h:317-329 | the nearest used slot before the given one, never leaving the window |
| `HashMap.HashMap.Next` | src/th_hashmap.h:303-315 | the nearest used slot behind the given one, or the end of the window |
| `HashMap.HashMap.FixHole` | src/th_hashmap.h:178-201 | the loop shifts in place as the specification does, then narrows the window |
| `HashMap.HashMap.EraseEntry` | src/th_hashmap.h:277-283 | the new table is the specification's, also for a table that an earlier erasure has left with an entry cut off |
| `TransferSpec.RestDrops` | src/th_iov.h:22-40 | consuming drops exactly the first bytes that the vector describes, and leaves no entry exactly when that is all |
| `TransferSpec.ContentAt` | src/th_iov.h:22-40 | entry by entry, a vector stands for the bytes at its addresses |
| `TransferSpec.GoalBytes` | src/th_sendfile.c:26-35 | byte by byte, what is to be sent is the buffers and then the file from its offset on, as far as it goes |
| `TransferSpec.OfferIsNext` | src/th_sendfile.c:26-35 | what the socket is offered is what comes next of header and file |
| `TransferSpec.SocketOfferIsNext` | src/th_socket.c:75-125 | and so is what the POSIX socket makes of it, at most 63 header entries and 8192 bytes of the file, as long as the header entries fit |
| `TransferSpec.SocketOfferExactly` | src/th_socket.c:75-125 | its offer is the front of what comes next if and only if the file's bytes happen to continue as the passed-over header bytes do, so always with fewer than 64 entries |
| `TransferSpec.SocketSkipsEntry` | src/th_socket.c:75-86 | so not when the first byte passed over differs from the file's next one |
| `TransferSpec.EntriesNeverGrow` | src/th_iov.h:22-40 | over every run the vector never gets longer |
| `TransferSpec.StepKeepsConsistent` | src/th_sendfile.c:26-61 | every attempt, abort and finalization keeps: wire is a prefix of the goal, vector and position describe the rest |
| `TransferSpec.SentExactlyOnce` | src/th_sendvec.c:25-56 | over all runs the wire is a growing prefix; success means everything was sent once and in order; the callback runs at most once, with the number of bytes sent |
| `TransferSpec.SendingCompletes` | src/th_sendfile.c:26-61 | if the file holds the announced bytes and every attempt moves at least a byte, the operation succeeds within as many attempts as there are bytes |
| `TransferSpec.ShortFileNeverEnds` | src/th_sendfile.c:26-61 | if it does not, every run of such attempts sends what there is and leaves the operation waiting |
| `TransferSpec.SendingEndsExactly` | src/th_sendfile.c:26-61 | so the operation ends under such attempts, with success and within as many as there are bytes, if and only if the file holds the announced bytes |
| `TransferSpec.ReceivedInOrder` | src/th_recv.c:24-60 | over all runs the buffer holds the delivered bytes in order over its old content; an exact receive succeeds only when full |
| `TransferResult.ErrorEnds` | src/th_sendvec.c:31-32 | a socket error ends a send with that error, and so does an abort |
| `TransferResult.MoveGives` | src/th_sendfile.c:26-44 | an attempt may move all that is left of the header and 4 MiB of the file, moves what comes next, and succeeds exactly when that was all |
| `TransferResult.StepGives` | src/th_sendvec.c:40-61 | each event gives a send its result, or leaves it waiting: success when all is sent, the socket's error, the error of a failed resubmission, or the reason of an abort |
| `TransferResult.FirstResultStands` | src/th_sendvec.c:13-55 | over any run a send ends with the first result that an event gives, and the callback is told that one and the number of bytes sent |
| `TransferResult.RecvGives` | src/th_recv.c:25-60 | likewise for a receive; one that is not exact succeeds with its first data |
| `TransferResult.FirstRecvResultStands` | src/th_recv.c:11-60 | and over any run |
| `Transfer.IovConsume` | src/th_iov.h:22-40 | the in-place loop leaves the rest of the vector, returns the bytes it did not have, and touches no other entry |
| `Transfer.IovBytes` | src/th_iov.h:42-50 | the sum of the lengths |
| `Transfer.SendOp.Attempt` | src/th_sendfile.c:26-44 | one attempt's effect and error are the specification's, for buffers and for a file |
| `Transfer.SendOp.Fn` | src/th_sendvec.c:40-56 | the operation's function is the specification's step |
| `Transfer.RecvOp.Attempt` | src/th_recv.c:24-37 | arrived bytes go to the free part of the buffer only |
| `Transfer.RecvOp.Fn` | src/th_recv.c:39-54 | the operation's function is the specification's step |
| `FilePath.JoinSplit` | src/th_filepath.c:16-30 | splitting a path at its slashes loses nothing |
| `FilePath.SplitJoin` | src/th_filepath.c:23-28 | joining slash-free components loses nothing |
| `FilePath.NormalParts` | src/th_filepath.c:22-28 | the output's components are the input's without the empty and "." ones |
| `FilePath.ComponentsExactly` | src/th_filepath.c:16-19 | the components are the stretches between slashes and ends of the path |
| `FilePath.AcceptableExactly` | src/th_filepath.c:8-32 | which paths are accepted, in terms of characters and their positions alone |
| `FilePath.NormalIsNormal` | src/th_filepath.c:8-34 | the output is accepted again, is its own normal form, and is no longer than the input |
| `FilePath.NormalLeadsToSame` | src/th_filepath.c:16-30 | resolved component by component, the output leads where the input leads, strictly below the start |
| `FilePath.CopyNames` | src/th_filepath.c:14-31 | the loop finds a ".." or no name exactly when there is one or none, and otherwise writes the normal form |
| `FilePath.Init` | src/th_filepath.c:5-35 | success exactly for acceptable paths; then the buffer holds the normal form and its terminator |

## Left out

- WsParser.FrameParser.FillHeader: a write behind the 14-byte header buffer is not modelled; `WsBlocks.InBufferExact` says exactly when the code attempts one, and what memory it then overwrites is outside the model.
- WsParser.FrameParser.CollectHeader: assumes likewise that the header write stays inside its buffer.
- WsParser.FrameParser.DoHeader: assumes likewise that the header write stays inside its buffer.
- WsParser.FrameParser.ParseFrames: assumes likewise that the header write stays inside its buffer.
- WsParser.Receiver.Consume: assumes likewise that the header write stays inside its buffer.
- WsDelivery.Feed: assumes likewise that no header write leaves its buffer (`WsDelivery.AllInBuffer`).
- WsDelivery.InStepExactly: assumes likewise that no header write leaves its buffer (`WsDelivery.AllInBuffer`).
- HashGrowth.RunRefinesMap: runs with an unsafe erasure that cuts no key off are not covered; until the table grows, such an erasure leaves a key that the next set stores a second time (`HashSpec.SafeIsSetInPlace`), so what the map does then depends on the operations that follow.
- HashMap.HashMap.Reserve: the power of two is given by a function in place of the bit operations that compute it for values up to 2^32; `reset` and `deinit` are not modelled.
- ReactorSpec.Service: a lookup that leads behind the handles in use, to a stale slot of the handle array, which an index damaged by an unsafe removal may give, is taken as a miss.
- EventLoop.EventLoop.Register: handles and operations are values in maps keyed by descriptor and operation number, so aliasing between handle and operation objects, and the intrusive links of the loop's queue, are not captured there; the links are modelled in `TaskQueue`.
- EventLoop.EventLoop.Attempt: an accepted connection whose descriptor already has a live handle keeps that handle; the kernel does not produce this.
- SessionSpec.Receive: read errors and the upgrade to WebSocket end the connection and are not part of the runs; bytes that arrive while a response is being sent wait in the kernel until the next receive.
- Transfer.SendOp.Attempt: the `sendvec` and `sendfile` operations, whose functions differ only where a file is attached, are one class with two kinds of job.
- `th_loop_push_uncounted_task`: nothing in the modelled files calls it.
- Sizes are mathematical integers, except where a wrap is observable: the header fill, the message size check, and decimal numbers.
- Allocation succeeds, except for ring chunks, the reactor's entry vector, the hash map and the handle array; in runs of the loop the latter two do not fail; fresh memory reads as zero.
- `th_poll_handle_destroy` with an operation pending or for a handle that the index does not lead to (src/th_poll.c:145-146 asserts that it is found), and two live handles with one descriptor: excluded by what callers may do.
- The timeout passed to `poll(2)`, `accept`, `connect`, timers beyond expiry, and TLS: foreign effects or answers of the environment.
- Method, header, MIME and character tables beyond the two character classes, cookies, query variables, form variables, multipart bodies and URL decoding: fixed functions of a complete text, passed as a parameter.
- The mapping of parser errors to response codes (`th_http_error`), responses, routing, upgrades and teardown of connections.
- The file cache, the arena allocator, the router, logging and formatting.
