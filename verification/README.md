# The WebSocket protocol engine of tokio-websockets

A model of the protocol engine behind `WebSocketStream` (RFC 6455) and proofs about it: the incremental frame
decoder, the streaming UTF-8 validator, frame masking, the outgoing frame queue, and the connection that joins
them, first one endpoint alone and then two endpoints joined by byte channels.

Each part of the engine is a fast, resumable form of something simple. The project states the simple thing,
models the fast form with the branches of the source, and proves that the two agree for every input, every way
of cutting the input into reads and every behaviour of the transport.

## How the project is built

| files | content |
|---|---|
| `Bytes.dfy`, `Mask.dfy` | bytes, exclusive or, big-endian numbers; masking byte by byte and in blocks, in place |
| `Utf8.dfy`, `Validator.dfy` | UTF-8 as the encoding of scalar values and as an automaton; the four-byte carry buffer |
| `Types.dfy`, `Fragment.dfy` | opcodes, close codes, messages, the close messages an endpoint makes; fragmentation |
| `Wire.dfy`, `Refusals.dfy`, `Vectors.dfy` | printer and parser of frames on unmodified bytes: the reference for the decoder; what it refuses and when it waits; examples of the standards |
| `Codec.dfy`, `Protocol.dfy` | the resumable decoder, as a function of its state and buffer and as the object working in place |
| `Queue.dfy`, `FrameQueue.dfy` | the outgoing queue as a value, and as the object with its loops |
| `Receive.dfy`, `Exchange.dfy` | what a receiver makes of a whole byte stream; round trip |
| `Delivery.dfy`, `Interleaving.dfy`, `Texts.dfy` | what can be said of delivered messages; control frames in between; the validator over a whole stream |
| `Connection.dfy`, `Stream.dfy` | the connection as functions on its state, and the object whose methods do what these functions say |
| `Discipline.dfy`, `Answers.dfy`, `Finality.dfy`, `Wakers.dfy`, `Handshake.dfy`, `Runs.dfy` | what every operation keeps, and what holds over every run of one connection |
| `Outcomes.dfy` | which answer each call gives, and on whom a failure or a delay is to be blamed |
| `System.dfy` | two endpoints of opposite roles over two first-in first-out channels that may be cut |
| `Progress.dfy` | the closing handshake comes to its end |

The objects of the source that change in place are classes (`Validator`, `WebSocketProtocol`, `FrameQueue`,
`MessageFrames`, `WebSocketStream`); masking works on arrays. Each method is specified by a function of the old
state, and the theorems are about these functions. The environment is arbitrary:

- the transport is an oracle that grants, stalls or breaks each I/O call (`Connection.Env.io`), and the mask generator an arbitrary sequence of keys;
- `align_to_mut` may return any split into a prefix, whole blocks and a suffix;
- `simdutf8` is a specification function: valid, wrong whatever follows, or valid up to an unfinished code point;
- `FramedRead` decodes what is buffered, and reads and tries again if that is not enough; a read that moves no byte and is not the end of the stream counts as pending;
- a waker is known by the task it wakes; `usize` has 64 bits; limits do not change during a run.

## Where the code does less than one might expect

- The validator is not consulted for an empty payload (src/proto/codec.rs:170). A text message whose last frame is empty is delivered even if a code point is open, and the code point stays open: what can begin a valid text is refused next, and a text that completes the code point, which is not valid, is delivered (`Delivery.LeftOpenIsDelivered`, `Texts.InvalidTextFollows`; `Texts.AfterLeftOpen` for all inputs). `Delivery.TextValidIff` gives the exact condition under which delivered text is valid.
- A message that is too long only when assembled is reported and leaves the decoder as it was (src/proto/stream.rs:432-433), so text delivered after it need not be valid (`Delivery.TooLongIsNotForgotten`), and even if the frame was the last of its message, the peer cannot begin another data message (`Texts.TooLongStaysOpen`). Statements about delivered text and the fragment grammar go up to the first such message; those about order, size and the splitting of reads have no such bound. Once that message is ended at a code point boundary, the statements about text hold again (`Texts.TextResumes`).
- After the peer has closed, the reader flushes with its own waker (src/proto/stream.rs:288-289). `Wakers.StolenIff` says that this is the only case in which a reader replaces another task's waker, and `Wakers.StolenWakerIsReached` gives a run that reaches it.
- The end of the stream is answered after a failed write or read as after a complete handshake (src/proto/stream.rs:286-287, 311-312): `Handshake.EndedByFailure` is a run that ends so without any close, and `Handshake.EndedIsShaken` excludes it for transports that do not fail.

## Model

| member | source | states |
|---|---|---|
| Mask.MaskedAt | src/mask.rs:324-330 | the recursive definition of masking is the formula of section 5.3 of RFC 6455: octet i is combined with key octet i mod 4, each bit being set exactly if the two bits differ |
| Mask.MaskedSplit | src/mask.rs:324-330 | masking a + b is masking a, then b with the key rotated by the length of a |
| Mask.MaskedTwice | src/mask.rs:359-361 | masking twice from the same key gives the data back |
| Mask.MaskedByZeros | src/mask.rs:324-330 | the key of zeros masks nothing |
| Mask.RotateMask | src/mask.rs:313-319 | the 32-bit rotation of the big-endian word leaves the key rotated by `offset` octets |
| Mask.OneByteAtOnce | src/mask.rs:321-330 | the slice is masked, bytes outside it are untouched, and the key ends rotated by the slice's length |
| Mask.XorBlocks | src/mask.rs:344-351 | combining whole blocks with the repeated key masks exactly these blocks |
| Mask.FallbackFrame | src/mask.rs:332-357 | for every split into prefix, 8-byte blocks and suffix: same data and same final key as byte by byte |
| Mask.Frame | src/mask.rs:97-126 | the same for SIMD blocks of any size divisible by 4, nested over the fallback |
| Utf8.ValidIffAccepted | src/utf8.rs:12-15 | the automaton accepts exactly the encodings of sequences of scalar values (section 3 of RFC 3629) |
| Utf8.ExtendableIffAlive | src/utf8.rs:99-115 | it dies exactly when no continuation makes the text valid |
| Utf8.ScansAreFaithful | src/utf8.rs:88-115 | the two library scans report validity, definite faults, and the length of the valid part before an unfinished code point |
| Validation.Validator.CompleteCodepointLen | src/utf8.rs:37-54 | the unreachable branch is not reached, and the announced length exceeds what is buffered, so the subtraction is safe |
| Validation.Validator.Complete | src/utf8.rs:70-119 | the buffered code point is finished with as many bytes as it lacks, or the call ends with the right answer |
| Validation.Validator.ValidateRest | src/utf8.rs:124-152 | from a code point boundary: the right answer, and the unfinished code point at the end is carried |
| Validation.Validator.Feed | src/utf8.rs:62-153 | succeeds if and only if the bytes so far can still become valid, and are valid if complete; the carry is then the unfinished code point, and after a failure what is left of the first one |
| Validation.FeedsIffValid | src/utf8.rs:62-66 | from a reset validator, any chunks are accepted if and only if their concatenation is valid UTF-8 (complete) or can be continued to valid UTF-8 (not complete) |
| Types.CloseMessage | src/proto/types.rs:318-342 | under the documented panics' conditions the payload is empty, or a sendable code and a UTF-8 reason within 125 bytes |
| Types.AsCloseRoundTrip | src/proto/types.rs:435-461 | `as_close` gives back code and reason of `close`; without a code, 1005 and no reason |
| Types.ErrorClose | src/proto/types.rs:692-702 | the close that answers any decoder error is well formed, the decimal limit included |
| Types.ErrorCloseNames | src/proto/types.rs:692-702 | a peer reads 1007 for invalid text, 1009 for a payload too long, 1002 for other faults, each with its reason, which is valid text; 1000 and no reason from the default close |
| Types.EchoKeepsCode | src/proto/stream.rs:337-340 | a peer reads from the echo the code it sent, and no reason |
| Types.CloseEcho | src/proto/stream.rs:334-341 | a received close cut to two bytes is a well-formed close |
| Types.DecimalValue | src/proto/stream.rs:318-323 | the decimal in the reason is the number of the limit |
| Fragment.FramesFragment | src/proto/types.rs:484-524 | payloads concatenate to the message, all but the last have exactly the frame size, only the first has the message's opcode, only the last is final |
| Fragment.FragmentationIsUnique | src/proto/types.rs:484-524 | that law determines the frames |
| Fragment.MessageFrames.Next | src/proto/types.rs:487-501 | yields the first of the frames that remain, or nothing when none remains |
| Fragment.MessageFrames.Fold | src/proto/types.rs:503-523 | terminates and folds over exactly the frames of the message |
| Fragment.MessageFrames.FoldByNext | src/proto/types.rs:487-501 | folding over repeated `next` sees the remaining frames, which are all frames unless the iterator is exhausted |
| Wire.ParseExtends | src/proto/codec.rs:82-245 | an accepted or refused frame stays so, whatever bytes follow |
| Wire.ParsePrinted | src/proto/types.rs:660-679 | a printed frame, masked as the role demands and followed by anything, is parsed back to itself |
| Wire.ParsePrintedPrefix | src/proto/codec.rs:63-75 | a proper prefix of a printed frame asks for more |
| Wire.ParsedIsPrinted | src/proto/codec.rs:84-168 | what is consumed for an accepted frame is exactly its printed form; only shortest lengths are accepted |
| Wire.ParseIffPrinted | src/proto/codec.rs:82-245 | a frame is accepted at the head of some bytes if and only if it is acceptable and printed there |
| Refusals.RefusedIff | src/proto/codec.rs:84-224 | a frame is refused with an error if and only if that is the first of the rules of RFC 6455 its bytes break, each rule being said on the bits of the frame |
| Refusals.WaitsIff | src/proto/codec.rs:63-75 | more is asked for if and only if the bytes break no rule and are not the whole frame; a frame is accepted if and only if they break none and are |
| Refusals.PrintedTooLong | src/proto/codec.rs:154-159 | a frame whose payload exceeds the limit is refused as soon as the printed header has arrived, with length and limit |
| Refusals.PrintedFields | src/proto/types.rs:660-679 | a printed header has the final bit, opcode, mask bit and big-endian length of the frame, the length in the shortest form |
| Vectors.TextExamples | src/proto/types.rs:660-679 | the text examples of section 5.7 of RFC 6455 are printed as there, unmasked and with the key |
| Vectors.ControlExamples | src/proto/types.rs:660-679 | the control examples likewise, and a close |
| Vectors.BinaryExamples | src/proto/types.rs:660-679 | the examples with an extended length of two and of eight bytes |
| Codec.InPlaceTwice | src/proto/codec.rs:177-186 | unmasking on with the rotated key that lies in the buffer is unmasking all at once |
| Codec.CoupledHead | src/proto/codec.rs:180-193 | the mutated buffer has the same header, and `payload_processed` is within the available payload, so the unchecked slices are safe |
| Codec.CoupledAppend | src/proto/codec.rs:82-82 | arriving bytes keep the in-place invariant: key rotated, processed bytes plain and validated, the rest as it arrived |
| Codec.DecodeRefinesParse | src/proto/codec.rs:82-245 | one call of `decode` on the mutated buffer answers what parsing the original bytes of the frame at once answers, and keeps the invariant |
| Codec.DecodeKeepsResumable | src/proto/codec.rs:180-193 | after a call that needs more, the slices stay safe whatever is appended |
| Protocol.WebSocketProtocol.ReadHead | src/proto/codec.rs:84-168 | the header part with its early returns computes the reference header |
| Protocol.WebSocketProtocol.UnmaskInPlace | src/proto/codec.rs:177-186 | key and new payload bytes are rewritten in the buffer, nothing else |
| Protocol.WebSocketProtocol.DecodePayload | src/proto/codec.rs:196-224 | validation, completeness and the close payload, with their errors |
| Protocol.WebSocketProtocol.Take | src/proto/codec.rs:226-244 | the frame is consumed, the fragment opcode set, the progress reset |
| Protocol.WebSocketProtocol.Decode | src/proto/codec.rs:82-245 | the method does to decoder, validator and buffer what `Codec.Decode` says, also when it fails |
| Protocol.WebSocketProtocol.TakeMessageOpcode | src/proto/codec.rs:57-60 | the opcode is handed out and replaced by the continuation opcode |
| Queue.PushedAppends | src/proto/stream.rs:84-88 | pushing appends the frame's bytes to the pending bytes |
| Queue.Chunk | src/proto/stream.rs:96-110 | a prefix of the pending bytes, empty only if none are pending |
| Queue.Skip | src/proto/stream.rs:116-131 | dropping frames that the count covers leaves the flattened bytes from that count on |
| Queue.Advanced | src/proto/stream.rs:112-132 | exactly n bytes are dropped |
| Queue.VectoredIsPrefix | src/proto/stream.rs:134-166 | as many slices as there are slots, a prefix of the pending bytes, not empty if bytes are pending and there is a slot, and all of them if the slots suffice |
| Queue.ChunkIsFirst | src/proto/stream.rs:96-110 | the chunk is the first of the slices |
| Queue.EncodedBytes | src/proto/stream.rs:37-59 | `header_len` ends where `encode` and the mask end: the queued bytes are the printed frame |
| FrameQueues.EncodeHead | src/proto/types.rs:660-679 | fills the head of the array and finds the place of the mask |
| FrameQueues.EncodeItem | src/proto/stream.rs:370-393 | header array and payload of a queued frame, masked for a client |
| FrameQueues.FrameQueue.Push | src/proto/stream.rs:84-88 | the object's queue, with `pending_bytes` the length of what is pending |
| FrameQueues.FrameQueue.Remaining | src/proto/stream.rs:92-94 | is the number of pending bytes |
| FrameQueues.FrameQueue.FirstChunk | src/proto/stream.rs:96-110 | presents the first chunk |
| FrameQueues.FrameQueue.Advance | src/proto/stream.rs:112-132 | terminates, does not run out of frames, and drops exactly n bytes |
| FrameQueues.FrameQueue.ChunksVectored | src/proto/stream.rs:134-166 | presents as many slices as there are slots |
| Receive.DriveExtends | src/proto/stream.rs:416-448 | later bytes continue where the stream was starved, and change no frame and no event before |
| Receive.PumpRefinesDrive | src/proto/stream.rs:416-448 | decoding a buffer frame by frame, with the opcode taken after a message, makes of it what the reference makes of the original bytes |
| Receive.RunsAreDrives | src/proto/codec.rs:82-245 | a run over any reads gives the frames, events and end of the concatenated stream |
| Receive.SplittingDoesNotMatter | tests/cancellation_safety.rs:76-94 | any two ways of cutting a stream into reads give the same frames, events and final status |
| Exchange.DriveEncoded | src/proto/codec.rs:82-245 | any arrived part of a printed stream is received as the frames printed there, and never refused |
| Exchange.AbsorbMessage | src/proto/stream.rs:416-448 | the frames of one message, fragmented in any way, deliver that message and leave the receiver idle |
| Exchange.RoundTrip | src/proto/stream.rs:416-448 | any messages the peer can take, in any fragments and masked with any keys, are received as exactly these messages in order |
| Exchange.FlatRoundTrip | src/proto/stream.rs:486-501 | so are the messages `start_send` queues, for every frame size |
| Exchange.RoundTripInReads | src/proto/stream.rs:416-448 | the same through the resumable decoder for any reads |
| Delivery.DriveGood | src/proto/stream.rs:424-436 | every delivered and every unfinished message is within the limit; delivered messages are well formed, so `as_close` may read them |
| Delivery.AcceptedIsAbsorbed | src/proto/stream.rs:416-448 | the events of a stream are those of its accepted frames, each of which was acceptable |
| Delivery.AbsorbedFollowGrammar | src/proto/codec.rs:99-109 | accepted frames follow the grammar of section 5.4 of RFC 6455 up to the first message that is too long |
| Interleaving.ControlsAreTransparent | src/proto/codec.rs:231-236 | deleting the control frames changes no delivered data message and no final state |
| Interleaving.ControlsInBetween | src/proto/codec.rs:231-236 | well-formed control frames may come anywhere between data frames that are taken, and are delivered in their order |
| Interleaving.InterleavedRoundTrip | src/proto/stream.rs:416-448 | data messages in any fragments with well-formed control frames anywhere in between: both are delivered, each in their order, and nothing is refused |
| Delivery.TextValidIff | src/proto/codec.rs:170-200 | all text delivered before the first message that is too long is valid if and only if no text message is ended by an empty frame with a code point open |
| Delivery.AllTextValidIff | src/proto/codec.rs:170-200 | of a stream with no message that is too long, all delivered text is valid if and only if that condition holds |
| Delivery.TextFailsFast | tests/utf8_validation.rs:40-65 | of a receiver whose validator is in step: a text frame is refused as soon as the message's text so far cannot be continued to valid UTF-8, and not before; that it is in step is `Texts.CleanIffNothingLeftOpen` |
| Texts.CleanIffNothingLeftOpen | src/utf8.rs:56-60 | while no message is too long: wherever a stream is cut, the validator holds just the code point left open by the message under way, and nothing between messages, if and only if no text message is ended by an empty frame with a code point open |
| Texts.StreamFailsFast | tests/utf8_validation.rs:40-65 | in the middle of any such stream, with whatever bytes come next: a text frame is refused exactly when its message's text cannot become valid, or is complete and not valid |
| Delivery.LeftOpenIsDelivered | src/proto/codec.rs:170-170 | a stream for which the condition fails: invalid text is delivered and the next text, which is valid, is refused |
| Texts.AfterLeftOpen | src/proto/codec.rs:196-200 | with a code point left open, a text message is taken exactly when it completes that code point to valid text, and then is not valid itself; a first fragment likewise |
| Texts.InvalidTextFollows | src/proto/codec.rs:170-170 | a stream in which a second invalid text is delivered and nothing is refused |
| Delivery.TooLongIsNotForgotten | src/proto/stream.rs:432-433 | a stream that delivers invalid text after a message that is too long |
| Texts.TooLongStaysOpen | src/proto/stream.rs:432-433 | a message reported as too long stays under way, even after its last frame, so the next data message is refused |
| Texts.CleanAgain | src/proto/stream.rs:441-445 | ending it brings the validator back in step exactly if no code point is open then |
| Texts.TextResumes | src/proto/stream.rs:441-445 | from there on delivered text is valid under the same condition as before |
| Connection.Offered | src/proto/stream.rs:512-512 | what is offered to the transport is a non-empty prefix of the pending bytes |
| Connection.OfferedIs | src/proto/stream.rs:512-512 | a transport that writes vectored is offered all that is pending in up to 32 frames, another one the first slice |
| Connection.Flush | src/proto/stream.rs:503-547 | terminates; changes only queue, transport, waker and, on failure, the state; registers the waker exactly when pending; done means nothing is pending |
| Connection.ReadFrame | src/proto/stream.rs:307-330 | terminates; consumes bytes for a frame; lets only well-formed frames and reading errors through |
| Connection.PollReady | src/proto/stream.rs:476-484 | ready means that fewer bytes than the threshold are pending, or none; below the threshold nothing is done |
| Connection.PollNextFrame | src/proto/stream.rs:279-359 | a frame uses up unread bytes, an error moves the state on |
| Connection.PollNext | src/proto/stream.rs:416-448 | every message or error makes progress in the order of state rank and unread bytes, by which the drain loop of `poll_close` terminates |
| Discipline.FlushBytes | src/proto/stream.rs:503-530 | written and pending bytes together are conserved, and nothing written is taken back |
| Discipline.QueueFrameBytes | src/proto/stream.rs:361-395 | queueing a frame appends its printed form, masked with the next key exactly if the endpoint is a client |
| Discipline.SendStep | src/proto/stream.rs:486-501 | a message is taken exactly in the active state, its frames are appended, and a close ends sending |
| Discipline.SentInFrames | src/proto/stream.rs:491-498 | a message taken is queued as one frame if it is a control message, and else cut by the law of `Fragment.FramesFragment` at `frame_size` |
| Discipline.ReactInv | src/proto/stream.rs:332-356 | reacting to a frame keeps the outgoing invariants; a close ends reading |
| Discipline.ReactErrorInv | src/proto/stream.rs:309-327 | so does reacting to an error |
| Discipline.ReadFrameMeans | src/proto/stream.rs:307-330 | what reading a frame means for the whole stream read |
| Discipline.PollNextMeans | src/proto/stream.rs:416-448 | an answer of `poll_next` is the next event of the stream read, or a fault found in it, or a fault of the transport |
| Discipline.DoKeeps | src/proto/stream.rs:410-560 | every operation keeps the invariant: bytes are the frames of the messages queued, events are those of the bytes read, a close is queued last |
| Discipline.RunKeeps | src/proto/stream.rs:410-560 | so does every run |
| Answers.PollNextAnswers | src/proto/stream.rs:307-356 | an active connection answers a ping with one pong of the same payload, a close with one close from which the peer reads its code and no reason, a fault with one close from which the peer reads the code and the reason of that fault, and nothing else with anything |
| Answers.PollCloseAnswers | src/proto/stream.rs:549-559 | an active connection queues the default close once, a closing one nothing; done means all is written and the transport shut down; when it answers done is `Outcomes.CloseDecides` |
| Answers.EndedMeans | src/proto/stream.rs:286-330 | the end is answered only when the connection is over, by the handshake or by a failure of the transport or of the peer, or when the transport ended between two frames |
| Outcomes.FlushDecides | src/proto/stream.rs:511-546 | the last call to the transport decides a flush: a stall makes it pending, a break or an empty write makes it fail, and it is done when the transport's own flush, after all is written, is granted |
| Outcomes.ReadyDecides | src/proto/stream.rs:476-484 | at the threshold, `poll_ready` answers as that flush, and registers its waker if pending |
| Outcomes.ReadDecides | src/proto/stream.rs:307-330 | if no frame and no fault is found, the last call decides: pending, a transport error, the end between two frames, or an error in the middle of one |
| Outcomes.PollNextBlamed | src/proto/stream.rs:279-359 | a break of the transport is answered as its error and ends the connection; an error or a delay is answered only if the transport or the peer gave cause |
| Outcomes.PollNextIs | src/proto/stream.rs:416-448 | on a transport that does its part, `poll_next` answers the first event in the bytes that have arrived, or the fault in them; else it waits, or after a hang-up answers the end, with the state unchanged, or an error if a frame is cut short |
| Outcomes.NextIsTheEnd | src/proto/stream.rs:286-292 | and the end, if the connection is not read any more, with everything written |
| Outcomes.CleanEnd | src/proto/stream.rs:329-329 | the same told by the whole stream: a stream that ends between two frames is answered with the end, any other with an error |
| Outcomes.PollRefuses | src/proto/stream.rs:307-328 | a frame that breaks a rule is refused by the next poll with that rule's error, and answered with a close that names it |
| Outcomes.CloseDecides | src/proto/stream.rs:549-559 | `poll_close` fails only if a call broke or wrote nothing, waits only for the transport or for a peer that has neither closed nor hung up, and is done exactly when the transport takes the shutdown |
| Outcomes.CloseIsDone | src/proto/stream.rs:549-559 | on a transport that does its part it is done, unless the peer has neither closed nor hung up |
| Finality.DoOnward | src/proto/stream.rs:286-368 | no operation moves the state back, unsends, or queues after a close; what is not read any more is not touched |
| Finality.RunOnward | src/proto/stream.rs:286-368 | the same over every run |
| Finality.NextWhenOver | src/proto/stream.rs:286-292 | after the end, `poll_next` does not touch the decoder and answers pending, one transport error, or the end |
| Finality.SurfacedIsFinal | src/proto/stream.rs:307-347 | after a delivered close or a raised decoder error: no more messages on any continuation, at most one more error, then the end for ever |
| Wakers.FlushSettles | src/proto/stream.rs:511-546 | a flush registers its waker if pending, and otherwise clears it with everything written or the connection broken |
| Wakers.NextKeepsWaker | src/proto/stream.rs:294-305 | a poll of the reader keeps the registered waker, or finishes the flush it stood for |
| Wakers.NextRegisters | src/proto/stream.rs:301-304 | a poll of the reader that waits with bytes still to write leaves a waker for them: the registered one, or its own |
| Wakers.WakerIsNotStolen | tests/issue106.rs:55-75 | after any run of reads, sends, flushes and closes that leaves the connection being read, the task whose flush was the last to be told to wait is still registered, or all that was pending then is written |
| Wakers.StolenIff | src/proto/stream.rs:288-305 | the reader replaces another task's waker exactly when it flushes the answer to the peer's close and the transport stalls |
| Wakers.StolenWakerIsReached | src/proto/stream.rs:286-292 | a run from the start in which that happens: a flush told to wait, a close read, and a reader that takes the place of the writer |
| Handshake.DoShaken | src/proto/stream.rs:279-359 | without faults of the transport, reading ends only after a close was queued, and one was delivered or the peer broke the protocol |
| Handshake.EndedIsShaken | src/proto/stream.rs:286-330 | without faults of the transport and before it ends, the end is answered only after a close was queued, and one was delivered or the peer broke the protocol |
| Handshake.EndedByFailure | src/proto/stream.rs:532-537 | a run in which a failed flush ends the stream without any close |
| Runs.BytesAreConserved | src/proto/stream.rs:61-71 | after every run, bytes written and bytes pending are the encoding of all frames queued, in order |
| Runs.FramesAreCut | src/proto/stream.rs:491-498 | after every run, the frames queued are those of its messages, each cut at the frame size |
| Runs.FramesFit | src/proto/stream.rs:370-388 | no data frame of a run is larger than the frame size, and every frame of a client has a key of its own, drawn in order |
| Runs.EventsFollowBytes | src/proto/stream.rs:416-448 | after every run, the events are those of the bytes read, in order |
| Runs.DeliveredIsGood | src/proto/stream.rs:416-448 | every message a run delivers is well formed and within the limit |
| Runs.DeliveredTextIsValid | src/proto/codec.rs:170-200 | under the condition of `TextValidIff`, every text a run delivers before the first message that is too long is valid, and every text if there is no such message |
| Runs.ValidatorInStep | src/utf8.rs:56-60 | after every run that has decoded all it has read, under the same conditions, the validator holds just the code point left open by the message under way |
| Runs.RunFailsFast | tests/utf8_validation.rs:40-65 | whatever arrives at such a connection next, text is refused exactly when it can no longer become valid |
| Runs.AtMostOneClose | src/proto/stream.rs:366-368 | a close is queued at most once in a run, and last |
| Runs.QueuedIsConstructible | src/proto/stream.rs:315-341 | everything queued, automatic messages included, is a well-formed message |
| Runs.CloseComesToAnEnd | tests/pr102_regression.rs:26-34 | once the peer has hung up, `poll_close` ends in one call on a transport that does not stall, even if every write breaks |
| System.ReceivedFromPeer | src/proto/stream.rs:416-448 | of any arrived part of what a connection wrote, its peer receives a prefix of the messages queued and finds no fault |
| System.EndToEnd | src/proto/stream.rs:410-560 | for endpoints of opposite roles whose limits admit control frames and each other's messages, with valid text: after any interleaving, cut or not, each has delivered a prefix of the other's messages; while it is still reading, all of them if all is written, arrived and read; once it has delivered a close, all of them up to and including that close |
| System.NoProtocolErrors | src/proto/stream.rs:307-330 | between such endpoints, in no interleaving does either decoder find a fault in what it has read, whatever the transports do, wherever a channel is cut and whichever call reads; so `poll_next` answers no error but one of the transport |
| System.HandshakeComplete | src/proto/stream.rs:332-347 | between such endpoints, without transport faults or cuts, an endpoint stops reading only after queueing exactly one close, as its last message, and delivering everything the other has queued, a close being the last |
| Progress.CloseReachesEnd | src/proto/stream.rs:549-559 | without stalls, `poll_close` against a peer that has closed and written all answers done, with the handshake over and the transport shut down |
| Progress.HandshakeFinishes | src/proto/stream.rs:549-559 | from every state such endpoints reach without transport faults or cuts, stalls included: once the transports no longer stall, three calls of `poll_close` by turns bring both to the end, with everything written and delivered and both transports shut down |
| System.OutputIsAlwaysValid | fuzz/fuzz_targets/stream.rs:202-242 | whatever bytes arrive and however the transport behaves, what is written is the beginning of a stream accepted by a peer whose limit admits control frames and the application's messages, with valid text |
| Streams.WebSocketStream.WriteSome | src/proto/stream.rs:512-512 | the transport takes a prefix of what is offered, and the queue advances past it |
| Streams.WebSocketStream.PollFlush | src/proto/stream.rs:503-547 | the method does what `Connection.Flush` says |
| Streams.WebSocketStream.SetFlushingWaker | src/proto/stream.rs:397-407 | the waker is registered |
| Streams.WebSocketStream.QueueFrame | src/proto/stream.rs:361-395 | the method does what `Connection.QueueFrame` says |
| Streams.WebSocketStream.ReadFrame | src/proto/stream.rs:307-330 | with the resumable decoder and its mutated buffer, does what `Connection.ReadFrame` says on the original bytes |
| Streams.WebSocketStream.React | src/proto/stream.rs:332-356 | the method does what `Connection.React` says, and the unexpected state is not reached |
| Streams.WebSocketStream.ReactError | src/proto/stream.rs:309-327 | the method does what `Connection.ReactError` says |
| Streams.WebSocketStream.PollNextFrame | src/proto/stream.rs:279-359 | the method does what `Connection.PollNextFrame` says |
| Streams.WebSocketStream.AssembleFrame | src/proto/stream.rs:424-447 | one round of reassembly, the opcode being taken from the decoder |
| Streams.WebSocketStream.PollNext | src/proto/stream.rs:416-448 | the method does what `Connection.PollNext` says |
| Streams.WebSocketStream.PollReady | src/proto/stream.rs:476-484 | flushes if the threshold is reached |
| Streams.WebSocketStream.QueueFragments | src/proto/stream.rs:494-498 | the frames of a split message are queued in order |
| Streams.WebSocketStream.QueueMessage | src/proto/stream.rs:491-498 | one frame or the fragments of the message are queued |
| Streams.WebSocketStream.StartSend | src/proto/stream.rs:486-501 | the method does what `Connection.StartSend` says |
| Streams.WebSocketStream.DrainStream | src/proto/stream.rs:553-553 | the drain loop terminates and does what `Connection.Drain` says |
| Streams.WebSocketStream.PollClose | src/proto/stream.rs:549-559 | drains the stream, flushes and shuts the transport down as `Connection.PollClose` says |
| Streams.WebSocketStream.PollShutdown | src/proto/stream.rs:556-558 | the last step of closing; its failure does not change the state |

## Left out

- Delivery.TextValidIff: goes up to the first assembled message that is too long, because after it delivered text need not be valid (`Delivery.TooLongIsNotForgotten`); it holds again as `Texts.TextResumes` says.
- Delivery.AbsorbedFollowGrammar: goes up to the same point, because the decoder then still waits for continuations of a message that was reported.
- Wakers.WakerIsNotStolen: is about runs that leave the connection being read; after the peer's close the reader's own waker is registered (`Wakers.StolenIff`).
- Mask.Frame: alignment of memory, processor features and vector instructions; every split is allowed instead.
- Streams.WebSocketStream.QueueFragments: takes the frames one at a time; that `fold` visits the same frames is `Fragment.MessageFrames.FoldByNext`.
- The HTTP upgrade, TLS, name resolution, hashing and random numbers, and the builders that accept and connect.
- Capacity handling and sharing of byte buffers; payloads are sequences.
- Changing limits during a run, and machines whose `usize` is not 64 bits wide.
- Scheduling of tasks, the text of errors beyond the length and encoding of close reasons, `size_hint` and `is_terminated`.
