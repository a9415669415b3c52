# A model of a WebSocket connection and of the simulation protocol around it, with proofs

The repository streams the frames of a particle simulation to browsers through a vendored copy of
WebSocket++, and steps the simulation with workers over a message bus. This project models the
parts of it that have to be right for every input and every schedule, and proves that they are.

| file | what it models |
|---|---|
| `Bytes.dfy` | octets, network byte order, concatenation |
| `Utf8.dfy` | the table-driven UTF-8 validator against the grammar of RFC 3629 |
| `Mask.dfy` | masking, octet-wise and word-wise, on little- and big-endian machines |
| `Frame.dfy` | the frame header: reading, building, checking |
| `Stream.dfy` | the reference receiver: what one octet does |
| `Receiver.dfy` | the receiving half of the protocol processor, as an object with a work buffer |
| `Wire.dfy`, `Delivery.dfy` | what a sequence of frames means, and what is promised about the messages delivered |
| `Sender.dfy`, `RoundTrip.dfy` | the sending half, and the round trip of logical messages |
| `Close.dfy` | close codes and close payloads |
| `WriteQueue.dfy`, `Writer.dfy` | senders and the I/O strand under any interleaving, and the object that takes their steps |
| `Transport.dfy`, `Race.dfy` | what the peer reads, and the interleavings of sending and closing lock by lock |
| `Lifecycle.dfy`, `Connection.dfy` | the life of a server connection as a transition system, and the object that follows it |
| `Opening.dfy`, `Outbox.dfy` | when a run opens the connection, and what it puts into the write queue |
| `Handlers.dfy`, `CloseHandshake.dfy` | which handlers are called in a run, and the closing handshake |
| `Md5.dfy` | incremental MD5: buffer, counters and padding around an arbitrary compression function |
| `Collect.dfy`, `Simulation.dfy` | chunk reassembly over an at-least-once bus, and the retrying step loop |
| `Base64.dfy`, `HttpParameters.dfy` | base64, and the parameter list of the subprotocol header |

The receiver is proved in two layers. `Stream` says what one octet does to the message being
assembled and the octets of the current frame; everything else a processor stores is a function of
these two, and `Receiver.Processor` is proved to be that function after every call. `Wire` then
says what whole frames mean and proves both directions: encoded frames do what they mean, and
whatever is accepted is encoded frames. The theorems about concurrency are about all runs of a
transition system (`WriteQueue.System`, `Lifecycle.Conn`); the classes beside them take their
steps, and every method keeps the invariant of the system.

`size_t` has 64 bits, permessage-deflate is off, message buffers can always be allocated, and the
connection is a server; the codec is modelled for both roles. Masking keys and the results of
reads, writes, timers, handlers and the bus are parameters that may take any value.

Where the code does not do what its documentation or the standard says, the model follows the code:

- a fragmented text message is checked for completeness only if its last frame carries the text
  opcode, which a continuation does not (`processors/hybi13.hpp:537`): `Delivery.TextDelivery` is
  the exact condition, `Delivery.FragmentedTextMayBeIncomplete` an input;
- the size limit is compared with a sum that may exceed 64 bits (`processors/hybi13.hpp:457`), and
  the most significant bit of a 64-bit length is not checked although section 5.2 of RFC 6455
  requires it to be 0: `Delivery.LimitIsExact` is the exact condition, `Delivery.LimitCanWrapAround`
  an input for every limit;
- a connection that is closing answers a close frame with an unusable code or reason by another
  close frame: `CloseHandshake.WhenCloseIsRepeated` says exactly when, `CloseHandshake.CloseCanBeRepeated`
  is a run;
- a message of the application can be queued after a close frame, because the state is checked under
  one lock and the message pushed under another (`impl/connection_impl.hpp:110-142`):
  `Race.RaceIsExact` gives exactly the interleavings, `Race.RaceHappens` is one;
- the handler documentation (`connection.hpp:51-78`) promises the open or the fail handler for every
  WebSocket attempt, which holds, but a plain HTTP connection can get the fail handler too, even after
  its response has been written (`impl/connection_impl.hpp:1706-1718`): `Handlers.HandlerContract` says
  exactly when no handler is called, `Handlers.HttpConnectionMayFail` is a run that calls one;
- a sender refuses a text message whose first fragment ends within a character, although the whole
  message is well-formed: `RoundTrip.EndToEnd` has the exact condition, `RoundTrip.CutCharacterIsRefused`
  an input;
- a quoted string cannot carry a value that ends in a backslash: `HttpParameters.QuotedRoundTrip` is
  the exact condition, `HttpParameters.QuotedBackslash` an input;
- a step in which some worker has no particles does not complete, if such a worker sends no chunk, as
  `_chunk_particles` would have it; that workers cut their lists that way is an assumption, since nothing
  in the repository produces a `particle_update`: `Collect.ChunkedRoundTrip`, `Simulation.CollectedStep`.

## Model

| member | source | states |
|---|---|---|
| `Bytes.FromBigEndianOfBigEndian` | ci/websocketpp/websocketpp/common/network.hpp:66-100 | a number that fits into k octets is read back from its network-order octets |
| `Bytes.BigEndianOfFromBigEndian` | ci/websocketpp/websocketpp/common/network.hpp:66-100 | the octets of a network-order number are written out again as they were |
| `Bytes.NetworkOrder` | ci/websocketpp/websocketpp/common/network.hpp:66-100 | of two octets the first is worth 256 times as much as the second |
| `Utf8.TableClasses` | ci/websocketpp/websocketpp/utf8_validator.hpp:45-54 | the first 256 table entries give each octet the class of its range |
| `Utf8.TableTransitions` | ci/websocketpp/websocketpp/utf8_validator.hpp:55-59 | the remaining entries are the transitions between the nine decoder states |
| `Utf8.StepMeaning` | ci/websocketpp/websocketpp/utf8_validator.hpp:69-78 | one decoding step after the first octets of a character reaches accept exactly if the character is complete, and otherwise stands for one more octet of it or rejects; the code point holds the bits so far |
| `Utf8.RunConcat` | ci/websocketpp/websocketpp/utf8_validator.hpp:105-118 | cutting the input between two calls of decode changes nothing |
| `Utf8.RejectIsAbsorbing` | ci/websocketpp/websocketpp/utf8_validator.hpp:69-78 | no further octets lead out of the reject state |
| `Utf8.CharAccepted` | ci/websocketpp/websocketpp/utf8_validator.hpp:69-78 | from a boundary every well-formed sequence leads back to accept and leaves a scalar value that encodes to it |
| `Utf8.Decompose` | ci/websocketpp/websocketpp/utf8_validator.hpp:69-78 | input not rejected is whole characters followed by the beginning of one |
| `Utf8.AcceptsExactlyWellFormed` | ci/websocketpp/websocketpp/utf8_validator.hpp:45-78 | the automaton accepts an octet string if and only if it is a concatenation of the sequences of section 4 of RFC 3629 |
| `Utf8.AcceptLeavesScalar` | ci/websocketpp/websocketpp/utf8_validator.hpp:69-78 | whenever the automaton is back in accept its code point is the scalar value just read, at most 0x10FFFF and no surrogate |
| `Utf8.NotRejectedIffExtensible` | ci/websocketpp/websocketpp/utf8_validator.hpp:105-118 | input is not rejected if and only if some continuation makes it well-formed |
| `Utf8.LookUpClass` | ci/websocketpp/websocketpp/utf8_validator.hpp:69-70 | the table look-up of an octet is the class used by the step |
| `Utf8.LookUpTransition` | ci/websocketpp/websocketpp/utf8_validator.hpp:76-77 | the table look-up of state and class is the successor used by the step |
| `Utf8.Validator.DecodeByte` | ci/websocketpp/websocketpp/utf8_validator.hpp:91-96 | the object advances its state and code point by one step |
| `Utf8.Validator.Decode` | ci/websocketpp/websocketpp/utf8_validator.hpp:105-118 | decoding a piece advances the object as the automaton, stopping at the first octet that rejects |
| `Utf8.Validator.Complete` | ci/websocketpp/websocketpp/utf8_validator.hpp:124-126 | true exactly at a character boundary |
| `Utf8.Validator.Reset` | ci/websocketpp/websocketpp/utf8_validator.hpp:129-132 | back to the start state |
| `Utf8.Validate` | ci/websocketpp/websocketpp/utf8_validator.hpp:143-149 | true if and only if the string is well-formed UTF-8 |
| `Mask.MaskedAt` | ci/websocketpp/websocketpp/frame.hpp:644-655 | octet i is masked with key octet i mod 4 |
| `Mask.MaskIsInvolution` | ci/websocketpp/websocketpp/frame.hpp:644-655 | masking twice with the same key restores the payload |
| `Mask.MaskedConcat` | ci/websocketpp/websocketpp/frame.hpp:830-841 | masking a payload in two pieces, the second with the key turned by the length of the first, is masking it at once |
| `Mask.PreparedKeyIsPeriodic` | ci/websocketpp/websocketpp/frame.hpp:595-604 | the prepared key repeats the four key octets, on either byte order |
| `Mask.CircshiftRotates` | ci/websocketpp/websocketpp/frame.hpp:612-623 | shifting a periodic prepared key keeps it periodic and turns the key by the offset, on either byte order |
| `Mask.MachineShiftRight` | ci/websocketpp/websocketpp/frame.hpp:612-623 | the octet-wise shift of a word is the shift of the 64-bit register |
| `Mask.MachineShiftRightFar` | ci/websocketpp/websocketpp/frame.hpp:612-623 | the same for the high offsets |
| `Mask.MachineShiftLeft` | ci/websocketpp/websocketpp/frame.hpp:612-623 | the octet-wise left shift of a word is that of the 64-bit register |
| `Mask.MachineShiftLeftFar` | ci/websocketpp/websocketpp/frame.hpp:612-623 | the same for the high offsets |
| `Mask.MachineOr` | ci/websocketpp/websocketpp/frame.hpp:600-621 | joining words octet by octet is the register operation |
| `Mask.MachineXor` | ci/websocketpp/websocketpp/frame.hpp:777-779 | exclusive or of words octet by octet is the register operation |
| `Mask.MaskedWords` | ci/websocketpp/websocketpp/frame.hpp:777-779 | one more whole word masked with a periodic key is eight more octets masked |
| `Mask.ByteMask` | ci/websocketpp/websocketpp/frame.hpp:644-655 | writes the payload masked with the key turned by the offset and nothing else, also in place |
| `Mask.ByteMaskCirc` | ci/websocketpp/websocketpp/frame.hpp:830-841 | writes exactly the masked octets and returns the key for the octets that follow |
| `Mask.MaskWords` | ci/websocketpp/websocketpp/frame.hpp:706-712 | the loop over whole words masks the whole words octet by octet |
| `Mask.MaskRest` | ci/websocketpp/websocketpp/frame.hpp:781-786 | the loop over the last octets completes the masking |
| `Mask.WordMaskCirc` | ci/websocketpp/websocketpp/frame.hpp:768-789 | word-wise masking equals octet-wise masking for every length, including the key returned |
| `Mask.WordMaskExact` | ci/websocketpp/websocketpp/frame.hpp:702-717 | word-wise masking of a whole message equals octet-wise masking for every length |
| `Frame.OnlyHeaderOctetsMatter` | ci/websocketpp/websocketpp/frame.hpp:516-585 | size, key and acceptance depend only on the octets that belong to the header |
| `Frame.DecodeOfEncode` | ci/websocketpp/websocketpp/frame.hpp:189-275 | every field of a built header is read back, for every 64-bit size, and both checks on lengths accept it |
| `Frame.EncodeOfDecode` | ci/websocketpp/websocketpp/processors/hybi13.hpp:848-951 | a header accepted by both checks is the header built from the fields read from it, so its length is minimally encoded |
| `Frame.HeadersAreUnique` | ci/websocketpp/websocketpp/processors/hybi13.hpp:848-951 | two accepted headers with the same fields are the same octets |
| `Frame.FrameOpcodes` | ci/websocketpp/websocketpp/processors/hybi13.hpp:876-902 | which opcodes pass, between messages and within one |
| `Stream.BasicUnfolds` | ci/websocketpp/websocketpp/processors/hybi13.hpp:394-410 | the first two octets taken together or one by one are treated alike |
| `Stream.HeaderInBulk` | ci/websocketpp/websocketpp/processors/hybi13.hpp:411-422 | any number of extended header octets taken at once is the same as one by one |
| `Stream.BodyGrows` | ci/websocketpp/websocketpp/processors/hybi13.hpp:801-806 | payload octets that arrive later are unmasked as the continuation of those before |
| `Stream.PayloadInBulk` | ci/websocketpp/websocketpp/processors/hybi13.hpp:477-499 | any number of payload octets taken at once is the same as one by one |
| `Stream.RejectedStays` | ci/websocketpp/websocketpp/processors/hybi13.hpp:826-831 | text rejected after some octets is rejected after more |
| `Stream.DrainByMessages` | ci/websocketpp/websocketpp/impl/connection_impl.hpp:1032-1103 | the drain loop, message by message, is the octet-wise machine |
| `Stream.DrainConcat` | ci/websocketpp/websocketpp/impl/connection_impl.hpp:1032-1103 | reading two pieces one after the other is reading their concatenation |
| `Stream.DrainOfChunks` | ci/websocketpp/websocketpp/impl/connection_impl.hpp:1032-1103 | any sequence of reads delivers what one read of everything delivers, with the same first error |
| `Stream.ChunkInvariance` | ci/websocketpp/websocketpp/processors/hybi13.hpp:382-508 | for every octet stream, well-formed or not, any two ways of cutting it up give the same messages and the same first error |
| `Receiver.Processor.constructor` | ci/websocketpp/websocketpp/processors/hybi13.hpp:1043-1062 | a new processor is idle between frames |
| `Receiver.Processor.ResetHeaders` | ci/websocketpp/websocketpp/processors/hybi13.hpp:548-560 | waits for the two octets of a basic header, with all header octets zero |
| `Receiver.Processor.CopyBasicHeaderBytes` | ci/websocketpp/websocketpp/processors/hybi13.hpp:744-773 | takes as many basic header octets as are needed and there |
| `Receiver.Processor.StepBasic` | ci/websocketpp/websocketpp/processors/hybi13.hpp:394-410 | the basic header step does to the octets ahead what the octet-wise machine does |
| `Receiver.Processor.CopyExtendedHeaderBytes` | ci/websocketpp/websocketpp/processors/hybi13.hpp:776-784 | takes extended header octets, the cursor staying within the twelve |
| `Receiver.Processor.SelectMessage` | ci/websocketpp/websocketpp/processors/hybi13.hpp:426-474 | starts or continues the message of the frame within the size limit; a control frame leaves data and UTF-8 state alone |
| `Receiver.Processor.StartPayload` | ci/websocketpp/websocketpp/processors/hybi13.hpp:418-435 | checks the extended header and waits for exactly the payload |
| `Receiver.Processor.StepExtended` | ci/websocketpp/websocketpp/processors/hybi13.hpp:411-474 | the extended header step does what the octet-wise machine does |
| `Receiver.Processor.UnmaskInPlace` | ci/websocketpp/websocketpp/processors/hybi13.hpp:801-806 | unmasks the chunk in the buffer and nothing else |
| `Receiver.Processor.ProcessPayloadBytes` | ci/websocketpp/websocketpp/processors/hybi13.hpp:799-836 | appends the unmasked octets and fails exactly if they make the text invalid |
| `Receiver.Processor.FinalizeMessage` | ci/websocketpp/websocketpp/processors/hybi13.hpp:518-546 | a message is ready unless the last frame has the text opcode and the text is incomplete |
| `Receiver.Processor.FinishFragment` | ci/websocketpp/websocketpp/processors/hybi13.hpp:492-499 | a frame without FIN leaves the message assembled so far |
| `Receiver.Processor.StepApplication` | ci/websocketpp/websocketpp/processors/hybi13.hpp:477-499 | the payload step does what the octet-wise machine does |
| `Receiver.Processor.Step` | ci/websocketpp/websocketpp/processors/hybi13.hpp:394-504 | every turn of the loop advances the same outcome |
| `Receiver.Processor.Consume` | ci/websocketpp/websocketpp/processors/hybi13.hpp:382-508 | terminates, and the octets used, the error and the state are those of the octet-wise machine run up to the next message; without an error it ends ready or with all input used and more needed |
| `Receiver.Processor.GetMessage` | ci/websocketpp/websocketpp/processors/hybi13.hpp:567-583 | hands out the finished message and waits for the next frame |
| `Receiver.Processor.ReadFrames` | ci/websocketpp/websocketpp/impl/connection_impl.hpp:1024-1103 | one read delivers exactly the messages of the octets and the first error |
| `Wire.HeaderChecks` | ci/websocketpp/websocketpp/processors/hybi13.hpp:848-951 | the checks on the octets of a header are the checks on the frame |
| `Wire.PayloadOctets` | ci/websocketpp/websocketpp/processors/hybi13.hpp:799-836 | the octets of a frame unmask to its payload and extend its message |
| `Wire.ConsumeFrame` | ci/websocketpp/websocketpp/processors/hybi13.hpp:382-508 | the octets of any frame, followed by anything, do to a receiver what the frame means by section 5.4 of RFC 6455 |
| `Wire.DrainOfFrames` | ci/websocketpp/websocketpp/impl/connection_impl.hpp:1032-1103 | the octets of any sequence of frames deliver what the frames mean |
| `Wire.FeedCases` | ci/websocketpp/websocketpp/processors/hybi13.hpp:391-505 | every octet accepted either leaves the frame going on or completes it, and the receive invariant holds again |
| `Wire.FullIsFrame` | ci/websocketpp/websocketpp/processors/hybi13.hpp:394-499 | a completed frame is the encoding of the frame read from it, and completing it is taking that step |
| `Wire.CompleteKeeps` | ci/websocketpp/websocketpp/processors/hybi13.hpp:490-546 | what is handed out is a data message or close, ping or pong, never rejected text |
| `Wire.AcceptedIsFrames` | ci/websocketpp/websocketpp/processors/hybi13.hpp:382-508 | whatever octets are accepted are the encoding of a sequence of frames and the beginning of one more, and what was delivered is what the frames mean: the first opcode and the concatenated fragments |
| `Delivery.DeliveredTextIsExtensible` | ci/websocketpp/websocketpp/processors/hybi13.hpp:826-831 | text delivered can always be completed to well-formed UTF-8 |
| `Delivery.TextDelivery` | ci/websocketpp/websocketpp/processors/hybi13.hpp:536-541 | the exact condition on which text is delivered: well-formed if its last frame carries the text opcode, extensible otherwise |
| `Delivery.FragmentedTextMayBeIncomplete` | ci/websocketpp/websocketpp/processors/hybi13.hpp:536-541 | two frames that make the receiver deliver half a character |
| `Delivery.LimitIsExact` | ci/websocketpp/websocketpp/processors/hybi13.hpp:453-460 | the size limit holds for an accepted frame if and only if the sum of sizes fits into 64 bits |
| `Delivery.LimitCanWrapAround` | ci/websocketpp/websocketpp/processors/hybi13.hpp:453-460 | on octets: after any frame, of a text or binary message, the header of a continuation of 2^64 - 1 octets leaves every receiver waiting for that payload, whatever its limit |
| `Delivery.AssembleWithinLimit` | ci/websocketpp/websocketpp/processors/hybi13.hpp:438-461 | no data message over the limit is assembled from frames shorter than 2^63 |
| `Delivery.BufferIsBounded` | ci/websocketpp/websocketpp/processors/hybi13.hpp:438-461 | at every point of such a stream the octets buffered and still awaited are within the limit |
| `Delivery.ControlFramesAreTransparent` | ci/websocketpp/websocketpp/processors/hybi13.hpp:430-474 | leaving out the control frames changes neither the data messages nor the message being assembled |
| `Delivery.FrameRules` | ci/websocketpp/websocketpp/processors/hybi13.hpp:848-951 | by their numbers, exactly the frames that are not refused: known opcodes, masked by clients only, control frames whole and of at most 125 octets, continuations exactly within a message, sizes within the limit; and which refusals a size leads to |
| `Delivery.RefusedFrame` | ci/websocketpp/websocketpp/impl/connection_impl.hpp:1058-1079 | a refused frame ends the reading with its error, whatever follows |
| `Delivery.OversizedIsReported` | ci/websocketpp/websocketpp/processors/hybi13.hpp:438-461 | a first frame or a continuation over the limit ends the reading with the error for messages that are too big |
| `Delivery.RefusedHeader` | ci/websocketpp/websocketpp/impl/connection_impl.hpp:1058-1079 | a refused header ends the reading with its error, whatever follows |
| `Delivery.BadHeaders` | ci/websocketpp/websocketpp/processors/hybi13.hpp:848-951 | a reserved bit in a data frame and a size that is not minimally encoded end the reading, each with its error |
| `Sender.CopyPayload` | ci/websocketpp/websocketpp/processors/hybi13.hpp:961-966 | masks for a client, copies for a server |
| `Sender.PrepareDataFrame` | ci/websocketpp/websocketpp/processors/hybi13.hpp:605-685 | refuses control opcodes and ill-formed text, and otherwise carries exactly that frame |
| `Sender.PrepareControl` | ci/websocketpp/websocketpp/processors/hybi13.hpp:977-1017 | refuses data opcodes and more than 125 octets, and otherwise carries exactly that frame |
| `Sender.PrepareClose` | ci/websocketpp/websocketpp/processors/hybi13.hpp:696-730 | gives a frame for 1005 without a reason and for the codes 1000 to 1003, 1007 to 1014 and 3000 to 4999 with at most 123 octets, carrying code and reason, and refuses everything else |
| `RoundTrip.DataIsDeliveredWhole` | ci/websocketpp/websocketpp/processors/hybi13.hpp:567-583 | the expected delivery of a fragmented message: the control messages between its fragments, then opcode and concatenated payload |
| `RoundTrip.DataFrameStep` | ci/websocketpp/websocketpp/processors/hybi13.hpp:426-546 | each fragment of a deliverable message is accepted and extends the message, the last delivers it |
| `RoundTrip.FragmentsAssemble` | ci/websocketpp/websocketpp/processors/hybi13.hpp:382-508 | the frames of a fragmented message, with control frames between them, deliver the message and the control messages |
| `RoundTrip.AllAssemble` | ci/websocketpp/websocketpp/processors/hybi13.hpp:382-508 | the frames of any list of deliverable messages deliver that list |
| `RoundTrip.FramesEndToEnd` | ci/websocketpp/websocketpp/processors/hybi13.hpp:382-508 | the octets of the frames of any list of messages, cut up anyhow, are delivered as that list |
| `RoundTrip.EndToEnd` | ci/websocketpp/websocketpp/processors/hybi13.hpp:605-685 | for any list of messages within the limit of the peer, any masking keys and any cutting into reads: if nothing is refused, the octets the preparing functions return are delivered as exactly that list and the peer is idle after it, and nothing is refused if and only if each piece with the text opcode is well-formed by itself |
| `RoundTrip.ControlsArePrepared` | ci/websocketpp/websocketpp/processors/hybi13.hpp:977-1017 | control messages are prepared as the frames of the list |
| `RoundTrip.FragmentsArePrepared` | ci/websocketpp/websocketpp/processors/hybi13.hpp:605-685 | the pieces of a message are all prepared if and only if the piece carrying the text opcode is well-formed by itself, and then give the octets of its frames |
| `RoundTrip.AllArePrepared` | ci/websocketpp/websocketpp/processors/hybi13.hpp:605-685 | what the preparing functions return for a list of messages, if nothing is refused, is the octets of its frames, and when something is refused |
| `RoundTrip.CutCharacterIsRefused` | ci/websocketpp/websocketpp/processors/hybi13.hpp:621-624 | a deliverable text in two pieces, one octet of a character each, that a sender refuses |
| `RoundTrip.Receive` | ci/websocketpp/websocketpp/impl/connection_impl.hpp:1024-1103 | a processor handed chunk after chunk delivers what the chunks mean |
| `Transport.PeerReadsInPushOrder` | ci/websocketpp/websocketpp/impl/connection_impl.hpp:1793-1886 | for every interleaving of the write queue and every cutting by the network the peer reads the frames pushed first, in push order |
| `Transport.NothingAfterCloseOnTheWire` | ci/websocketpp/websocketpp/impl/connection_impl.hpp:1793-1910 | for every life of the connection and every interleaving of its writes: on the wire nothing of the application follows a close frame, and nothing at all follows a terminal message |
| `Close.ExtractReason` | ci/websocketpp/websocketpp/close.hpp:333-348 | the octets after the code, with an error if and only if they are not UTF-8 |
| `Close.CodeRoundTrip` | ci/websocketpp/websocketpp/close.hpp:294-322 | code and reason written into a payload are read from it, without error exactly for 1000 to 1003, 1007 to 1014 and 3000 to 4999; which other codes are reserved and which invalid |
| `Close.ShortPayloads` | ci/websocketpp/websocketpp/close.hpp:294-302 | an empty payload stands for 1005, a single octet for 1002 with an error |
| `Close.PayloadRoundTrip` | ci/websocketpp/websocketpp/close.hpp:294-322 | writing out the code and reason read from a payload gives the payload |
| `WriteQueue.Batch` | ci/websocketpp/websocketpp/impl/connection_impl.hpp:1807-1817 | a batch is a prefix of the queue that ends at the first terminal message, or everything |
| `Writer.Writer.WritePush` | ci/websocketpp/websocketpp/impl/connection_impl.hpp:2210-2225 | the counter remains the size of the waiting payloads modulo 2^64, and the new message waits behind all others |
| `Writer.Writer.WritePop` | ci/websocketpp/websocketpp/impl/connection_impl.hpp:2228-2248 | the oldest message leaves the queue, and the counter remains the size of what waits |
| `Writer.Writer.Enqueue` | ci/websocketpp/websocketpp/impl/connection_impl.hpp:120-142 | a push is a step of the write system and keeps its invariant; a write is asked for exactly if none is under way |
| `Writer.Writer.CollectBatch` | ci/websocketpp/websocketpp/impl/connection_impl.hpp:1796-1828 | the loop is the collecting step of the write system and keeps its invariant; what it takes with the flag ends at the first terminal message or leaves nothing |
| `Writer.Writer.FillBuffer` | ci/websocketpp/websocketpp/impl/connection_impl.hpp:1830-1837 | the buffers handed to the transport hold header and payload of each message of the batch, in order |
| `Writer.Writer.HandOver` | ci/websocketpp/websocketpp/impl/connection_impl.hpp:1830-1837 | keeps the invariant; what was given to the transport so far and what waits are together all octets pushed, in order |
| `Writer.Writer.FinishBatch` | ci/websocketpp/websocketpp/impl/connection_impl.hpp:1895-1910 | the connection is to be terminated exactly if the write failed or the batch ended with a terminal message; nothing is handed over, and the invariant of the write system is kept |
| `Writer.Writer.ReleaseFlag` | ci/websocketpp/websocketpp/impl/connection_impl.hpp:1913-1927 | giving the flag back keeps the invariant, so that a write is asked for whenever messages wait and none is under way |
| `WriteQueue.BatchIsUnique` | ci/websocketpp/websocketpp/impl/connection_impl.hpp:1807-1817 | the loop that stops after a terminal message takes exactly the batch |
| `WriteQueue.InvIsKept` | ci/websocketpp/websocketpp/impl/connection_impl.hpp:1793-1928 | every step of a sender or of the strand keeps the protocol invariant |
| `WriteQueue.WriteProtocol` | ci/websocketpp/websocketpp/impl/connection_impl.hpp:1793-1928 | for every interleaving: at most one write outstanding, no lost wakeup, pushed is handed over plus batch plus queue in order, the counter is the waiting payload, terminal only last |
| `WriteQueue.WireOrder` | ci/websocketpp/websocketpp/impl/connection_impl.hpp:1830-1837 | the octets handed over are those of the messages pushed first |
| `WriteQueue.TerminalIsFinal` | ci/websocketpp/websocketpp/impl/connection_impl.hpp:1895-1910 | after a terminal message or a failed write nothing else reaches the transport in any continuation, and the flag stays up |
| `WriteQueue.FailedWriteIsFinal` | ci/websocketpp/websocketpp/impl/connection_impl.hpp:1895-1910 | for every run with a failed write, whatever comes after it: nothing more is handed over and the flag stays up |
| `WriteQueue.OnlyTerminalsEndUnfailed` | ci/websocketpp/websocketpp/impl/connection_impl.hpp:1901-1910 | without a failed write only a terminal message ends the connection |
| `WriteQueue.RunsAreBounded` | ci/websocketpp/websocketpp/impl/connection_impl.hpp:1793-1928 | without further pushes only finitely many steps are possible |
| `WriteQueue.QuietMeansDone` | ci/websocketpp/websocketpp/impl/connection_impl.hpp:1793-1928 | nothing but a push can happen exactly when the system is quiet, and then all messages were handed over or the connection is over |
| `WriteQueue.NothingIsStranded` | ci/websocketpp/websocketpp/impl/connection_impl.hpp:1793-1928 | both together for every run: no message waits forever for a write that nobody starts |
| `WriteQueue.WhatIsLeftBehind` | ci/websocketpp/websocketpp/impl/connection_impl.hpp:1793-1928 | told by the events: when nothing but a push can happen, everything pushed was handed over unless a write failed or a terminal message was handed over last |
| `Lifecycle.EventFollows` | ci/websocketpp/websocketpp/impl/connection_impl.hpp:716-1430 | every handler and call keeps the lifecycle invariant, never moves the state back, and queues only what the state allows |
| `Lifecycle.StateOnlyMovesForward` | ci/websocketpp/websocketpp/impl/connection_impl.hpp:1698-1748 | connecting, open, closing, closed: never back in any run |
| `Opening.OpensExactly` | ci/websocketpp/websocketpp/impl/connection_impl.hpp:716-1431 | in every run the open handler is called if and only if the events are a handshake: start, transport ready, the request read in any number of reads, and a response written without error whose status, by the request or set since, is 101, with nothing between that ends the connection |
| `Opening.RefusedNeverOpens` | ci/websocketpp/websocketpp/impl/connection_impl.hpp:1388-1416 | a run in which no request is answered with 101 and no such status is set never opens |
| `Opening.ConnectingStep` | ci/websocketpp/websocketpp/impl/connection_impl.hpp:716-1431 | which events a connection survives before it is open, and what they make of its stage and status |
| `Outbox.QueueIsWhatWasAsked` | ci/websocketpp/websocketpp/impl/connection_impl.hpp:104-323 | in every run the write queue is exactly what the events asked for, in order and each in the state it found: the frames of data, pings and pongs in the open state, the answers to pings and close frames, the reports of errors |
| `Outbox.SameCode` | ci/websocketpp/websocketpp/processors/base.hpp:261-285 | the close code of each error by its number: 1007 for bad text, 1009 for too much, 1011 for what is no fault of the peer, otherwise 1002 |
| `Outbox.Requests` | ci/websocketpp/websocketpp/impl/connection_impl.hpp:304-323 | what a close call queues, by the number of its code: nothing for codes that may not be sent, an empty payload for 0 and for 1005, otherwise code and the first 123 octets of the reason, terminal for five codes |
| `Handlers.HandlerContract` | ci/websocketpp/websocketpp/connection.hpp:51-78 | in every run: at most one shutdown; when it is over, open then close were called once each, or only fail, or none, and none exactly if a plain HTTP response was written while connecting and no later event before the transport went down brought an error or sent a deferred response |
| `Handlers.EndedNext` | ci/websocketpp/websocketpp/impl/connection_impl.hpp:1351-1431 | which events record that a plain HTTP connection has ended, and which overwrite that |
| `Handlers.EndedAt` | ci/websocketpp/websocketpp/impl/connection_impl.hpp:1405-1431 | before any event of a run the connection counts as ended HTTP exactly if such a response was written and nothing overwrote it since |
| `Handlers.HttpConnectionMayFail` | ci/websocketpp/websocketpp/impl/connection_impl.hpp:1706-1718 | a run in which a fully answered HTTP request ends with the fail handler |
| `Handlers.DeferredIsSentOnce` | ci/websocketpp/websocketpp/impl/connection_impl.hpp:661-710 | a deferred response is sent by the first call after that, as an error of the server if no status has been set, and not again |
| `Lifecycle.NothingAfterClose` | ci/websocketpp/websocketpp/impl/connection_impl.hpp:110-115 | in every run of handlers and calls nothing the application sends is queued after a close frame |
| `Race.RaceIsExact` | ci/websocketpp/websocketpp/impl/connection_impl.hpp:110-142 | with the locks as the code takes them: a message follows a close frame if and only if its thread found the connection open before the close frame was pushed and pushes after it |
| `Race.AtomicSendsKeepTheOrder` | ci/websocketpp/websocketpp/impl/connection_impl.hpp:110-142 | if nothing comes between the check and the push of any thread, no message follows a close frame |
| `Race.RaceHappens` | ci/websocketpp/websocketpp/impl/connection_impl.hpp:2124-2148 | an interleaving in which a message follows the close frame |
| `CloseHandshake.CloseIsAnswered` | ci/websocketpp/websocketpp/impl/connection_impl.hpp:1977-2029 | every close frame arriving in the open state is answered: usable code and reason octet for octet, an empty payload with 1000, anything else with 1002, and the state is closing |
| `CloseHandshake.RepliesByCode` | ci/websocketpp/websocketpp/close.hpp:294-322 | which close payloads are usable, by the number of the code, and the first octets of the reply to each |
| `CloseHandshake.UsableCloseIsEchoed` | ci/websocketpp/websocketpp/impl/connection_impl.hpp:1977-2029 | a close frame with code 1000 to 1003, 1007 to 1014 or 3000 to 4999 and a reason in UTF-8 is echoed octet for octet |
| `CloseHandshake.EstablishedStep` | ci/websocketpp/websocketpp/impl/connection_impl.hpp:965-2155 | exactly which events end a connection that is open or closing, which make it clean, and that it starts closing exactly with a close frame queued |
| `CloseHandshake.PeerClosesFirst` | ci/websocketpp/websocketpp/impl/connection_impl.hpp:1977-2029 | the whole handshake started by the peer: one terminal reply, then closed and clean, the close handler called after the open handler |
| `CloseHandshake.WeCloseFirst` | ci/websocketpp/websocketpp/impl/connection_impl.hpp:304-323 | the whole handshake started here with a usable code: one close frame, and a usable answer ends the connection cleanly |
| `CloseHandshake.ViolationIsReported` | ci/websocketpp/websocketpp/impl/connection_impl.hpp:1058-1079 | a protocol error in the open state is reported with a terminal close frame carrying its code |
| `CloseHandshake.WhenCloseIsRepeated` | ci/websocketpp/websocketpp/impl/connection_impl.hpp:1981-2018 | while closing, another close frame is sent if and only if the code or reason received is not usable |
| `CloseHandshake.CloseCanBeRepeated` | ci/websocketpp/websocketpp/impl/connection_impl.hpp:1981-2018 | a run from the start that queues two close frames: ours is answered by one with a single octet of payload |
| `CloseHandshake.OneCloseFrame` | ci/websocketpp/websocketpp/impl/connection_impl.hpp:1977-2049 | a peer that sends only usable close frames is sent at most one |
| `Connection.Connection.Terminate` | ci/websocketpp/websocketpp/impl/connection_impl.hpp:1698-1747 | from every state: closed with exactly one shutdown asked for, nothing queued and no handler called; a failed shutdown is chosen exactly if no handler was called so far; the error given is kept |
| `Connection.Connection.HandleTerminate` | ci/websocketpp/websocketpp/impl/connection_impl.hpp:1751-1778 | the one shutdown is completed; an opened connection gets its close handler, any other at most the fail handler, and then nothing more is due |
| `Connection.Connection.Send` | ci/websocketpp/websocketpp/impl/connection_impl.hpp:104-150 | exactly in the open state, for a data opcode and, with the text opcode, well-formed text, queues the frame of opcode, FIN and payload and reports so; otherwise queues nothing; no close frame precedes it |
| `Connection.Connection.SendMessage` | ci/websocketpp/websocketpp/impl/connection_impl.hpp:120-126 | exactly in the open state queues the message as it is and reports so, otherwise queues nothing; no close frame precedes it |
| `Connection.Connection.Ping` | ci/websocketpp/websocketpp/impl/connection_impl.hpp:155-221 | exactly in the open state and with at most 125 octets queues a ping frame and reports so, otherwise queues nothing; no close frame precedes it |
| `Connection.Connection.Pong` | ci/websocketpp/websocketpp/impl/connection_impl.hpp:252-292 | exactly in the open state and with at most 125 octets queues a pong frame and reports so, otherwise queues nothing; no close frame precedes it |
| `Connection.Connection.Close` | ci/websocketpp/websocketpp/impl/connection_impl.hpp:304-323 | moves to closing with one close frame queued, the reason cut to what fits, or reports and changes nothing that is queued |
| `Connection.Connection.SendCloseFrame` | ci/websocketpp/websocketpp/impl/connection_impl.hpp:2065-2158 | exactly one close frame is queued and the state is closing, or none can be built and state and queue stay |
| `Connection.Connection.ProcessControlFrame` | ci/websocketpp/websocketpp/impl/connection_impl.hpp:1937-2055 | in the open state a ping of at most 125 octets that is to be answered queues one pong with the same payload, other pings and pongs nothing, and neither changes the state; every close frame in the open state is answered as the closing handshake demands; a usable answer ends a closing connection |
| `Connection.Connection.ProcessClose` | ci/websocketpp/websocketpp/impl/connection_impl.hpp:1977-2049 | what a close frame does by the grammar of its code and reason, keeping the lifecycle invariant |
| `Connection.Connection.HandleProtocolError` | ci/websocketpp/websocketpp/impl/connection_impl.hpp:1058-1079 | in the open state exactly one terminal close frame with the code of the error is queued; in any other state, or when errors drop the connection, it is closed with nothing queued |
| `Connection.Connection.HandleReadHandshake` | ci/websocketpp/websocketpp/impl/connection_impl.hpp:804-941 | queues nothing and calls no handler; before the connection is open it survives exactly a read without error while the request is awaited, and then status, error and kind of response are those of the refusal or of the request, with 500 for no status |
| `Connection.Connection.HandleWriteHttpResponse` | ci/websocketpp/websocketpp/impl/connection_impl.hpp:1351-1431 | a connection in the opening handshake opens exactly if the write had no error, the request was being processed and the status is 101, and is closed otherwise; the open handler is called exactly then, and only as the first handler; nothing is queued |
| `Connection.Connection.Handle` | ci/websocketpp/websocketpp/impl/connection_impl.hpp:716-2155 | every event keeps the lifecycle invariant and changes the object as the transition system whose runs the lifecycle theorems are about |
| `Md5.BlocksGoOn` | ci/websocketpp/websocketpp/common/md5.hpp:372-390 | full blocks of a longer message: those of the first part, then those of what was left of it with the rest |
| `Md5.PaddingFillsBlocks` | ci/websocketpp/websocketpp/common/md5.hpp:393-409 | 1 to 64 octets of padding, then the length, fill whole blocks (RFC 1321, sections 3.1 and 3.2) |
| `Md5.PaddingIsInjective` | ci/websocketpp/websocketpp/common/md5.hpp:393-409 | different messages shorter than 2^61 octets stay different when padded |
| `Md5.PaddedOctets` | ci/websocketpp/websocketpp/common/md5.hpp:393-409 | what follows the message, octet by octet: 0x80, zeros, and the length in bits in eight octets, the least significant first |
| `Md5.InitialDigest` | ci/websocketpp/websocketpp/common/md5.hpp:349-355 | the octets of the initial digest are those of section 3.3 of RFC 1321 |
| `Md5.CountersAdd` | ci/websocketpp/websocketpp/common/md5.hpp:361-370 | adding to the two counters with a carry is adding to the bit length modulo 2^64 |
| `Md5.Offset` | ci/websocketpp/websocketpp/common/md5.hpp:360-360 | the low counter alone gives the fill of the buffer |
| `Md5.State.constructor` | ci/websocketpp/websocketpp/common/md5.hpp:349-355 | the state of the empty message |
| `Md5.State.AddLength` | ci/websocketpp/websocketpp/common/md5.hpp:366-370 | the counters hold the new bit length |
| `Md5.State.FillBlock` | ci/websocketpp/websocketpp/common/md5.hpp:372-382 | completes and compresses the buffered block, or buffers everything |
| `Md5.State.ProcessBlocks` | ci/websocketpp/websocketpp/common/md5.hpp:384-391 | compresses the full blocks and buffers what is left |
| `Md5.State.Append` | ci/websocketpp/websocketpp/common/md5.hpp:357-391 | after any appends the state is that of the concatenation |
| `Md5.State.Finish` | ci/websocketpp/websocketpp/common/md5.hpp:393-412 | the digest is that of the message padded by RFC 1321 |
| `Md5.Counters` | ci/websocketpp/websocketpp/common/md5.hpp:403-405 | the octets of the two counters are those of the 64-bit length |
| `Md5.HashPieces` | ci/websocketpp/websocketpp/common/md5.hpp:349-412 | hashing in pieces, however cut, is hashing the message |
| `Collect.ChunksFlatten` | src/pipeline/server.py:301-303 | chunks put together in order give the list |
| `Collect.ChunkSizes` | src/pipeline/server.py:301-303 | none is empty or too long, only the last is shorter, and there are no more than needed |
| `Collect.JoinChunks` | src/pipeline/server.py:390-393 | concatenates the chunks in index order, or fails exactly if one is missing |
| `Collect.ReceiveMessage` | src/pipeline/server.py:363-396 | what one message does to buffers and results; nothing if it is no update or of another step |
| `Collect.CollectUpdates` | src/pipeline/server.py:352-404 | folds the messages of the batches in order, stops after the first batch with enough workers or at the timeout, and fails exactly if a join does |
| `Collect.OtherStepsAreIgnored` | src/pipeline/server.py:336-350 | leaving out all messages of other steps and all that are no updates gives the same result |
| `Collect.UpdateIsCounted` | src/pipeline/server.py:374-396 | for an update of the step, whatever it claims: its chunk is kept unless one of that number is there, the worker is complete exactly with as many as the message says there are, and a join fails exactly if their numbers are not 0 to one less |
| `Collect.OthersAreLeftAlone` | src/pipeline/server.py:374-396 | a message changes neither the chunks nor the entry of any other worker |
| `Collect.Pigeonhole` | src/pipeline/server.py:388-393 | as many different chunk numbers as there are chunks are all of them |
| `Collect.WorkerIsKept` | src/pipeline/server.py:374-396 | a message leaves its worker as far as the chunks that have arrived say |
| `Collect.Reassembly` | src/pipeline/server.py:352-404 | under any order, repetition, batching and noise: joining never fails, a worker has an entry exactly if all its chunks have arrived, and the entry is their concatenation |
| `Collect.FirstCompleteFirst` | src/pipeline/server.py:386-396 | the entries are in the order in which their workers had all chunks there for the first time |
| `Collect.ChunkedRoundTrip` | src/pipeline/server.py:301-404 | chunked and collected, a list arrives, as it was, if and only if it is not empty and all its chunks have been seen |
| `Simulation.LastWins` | src/pipeline/server.py:410-411 | of several particles with one id the last reported is kept |
| `Simulation.MergeKeepsIds` | src/pipeline/server.py:406-412 | merging keeps every id once and invents none |
| `Simulation.MergeIsInOrder` | src/pipeline/server.py:406-412 | each particle merged is that of the last report of its id, by worker and place in its list, and the merge is in the order in which the ids were reported first |
| `Simulation.MergeWithBoundsCheck` | src/pipeline/server.py:406-412 | merges, or fails exactly if a worker is unknown to the grid |
| `Simulation.EnoughKnownWorkersAreAll` | src/pipeline/server.py:466-477 | as many known workers as there are: exactly all of them |
| `Simulation.Orchestrator.RunSimulation` | src/pipeline/server.py:443-487 | the loop runs as its transition function, queueing its frames and keeping its particles |
| `Simulation.StepProtocol` | src/pipeline/server.py:443-487 | in every run the frames are those of steps 0, 1, 2, ... in order, frame i from the complete set of workers in a turn of step i, these turns in increasing order, with every particle once, and no step is attempted more than eleven times |
| `Simulation.RunEndsExactly` | src/pipeline/server.py:448-487 | a run ends exactly at the first turn in which something is raised, a worker is unknown to the grid, or too few workers answer for the eleventh time in a row; until then each success is one step |
| `Simulation.IdsAreConserved` | src/pipeline/server.py:475-484 | if in each turn a complete answer reports the particles distributed in that turn, no particle is ever lost or added |
| `Simulation.CollectedStep` | src/pipeline/server.py:352-412 | workers that chunk their lists make a complete step if and only if no list is empty and all chunks have arrived, and then the merged particles are those reported, each id once |
| `Base64.CharacterRoundTrip` | ci/websocketpp/websocketpp/base64/base64.hpp:43-59 | each six-bit value is read back from its character, which is of the alphabet |
| `Base64.GroupRoundTrip` | ci/websocketpp/websocketpp/base64/base64.hpp:76-81 | three octets are restored from their four six-bit values |
| `Base64.SameBits` | ci/websocketpp/websocketpp/base64/base64.hpp:76-81 | the four values are the 24 bits of the three octets, in order |
| `Base64.FillerDoesNotMatter` | ci/websocketpp/websocketpp/base64/base64.hpp:157-171 | the octets emitted for an incomplete group do not depend on the filler |
| `Base64.EncodedLength` | ci/websocketpp/websocketpp/base64/base64.hpp:66-112 | four characters for every three octets begun |
| `Base64.KnownVectors` | ci/websocketpp/websocketpp/base64/base64.hpp:66-112 | groups of one, two and three octets as in the vectors of section 10 of RFC 4648 |
| `Base64.RoundTrip` | ci/websocketpp/websocketpp/base64/base64.hpp:131-174 | every octet string is decoded from its encoding |
| `Base64.Encode` | ci/websocketpp/websocketpp/base64/base64.hpp:66-112 | the refilling loop computes the encoding |
| `Base64.Decode` | ci/websocketpp/websocketpp/base64/base64.hpp:131-174 | the refilling loop decodes the characters before the first foreign one |
| `HttpParameters.TokenTable` | ci/websocketpp/websocketpp/http/constants.hpp:78-95 | the table holds exactly the token characters of section 2.2 of RFC 2616 |
| `HttpParameters.ExtractToken` | ci/websocketpp/websocketpp/http/parser.hpp:72-78 | the longest run of token characters at the cursor |
| `HttpParameters.ExtractLws` | ci/websocketpp/websocketpp/http/parser.hpp:139-151 | white space with at most one leading line break |
| `HttpParameters.ExtractAllLws` | ci/websocketpp/websocketpp/http/parser.hpp:164-177 | all white space; terminates with the cursor in range |
| `HttpParameters.ExtractQuotedString` | ci/websocketpp/websocketpp/http/parser.hpp:92-127 | a quoted string with its escapes, or the cursor back where it was; terminates in range |
| `HttpParameters.QuotedRoundTrip` | ci/websocketpp/websocketpp/http/parser.hpp:92-127 | a value whose quotes are escaped is read back if and only if it does not end in a backslash |
| `HttpParameters.QuotedBackslash` | ci/websocketpp/websocketpp/http/parser.hpp:92-127 | a single backslash in quotes is not read as a quoted string |
| `HttpParameters.ExtractAttributes` | ci/websocketpp/websocketpp/http/parser.hpp:195-276 | the attribute list, or the beginning exactly on a syntax error; terminates in range |
| `HttpParameters.SpaceHere` | ci/websocketpp/websocketpp/http/parser.hpp:139-177 | any spaces and tabs, also after line ends that continue the line, are read up to what follows |
| `HttpParameters.AttributesRoundTrip` | ci/websocketpp/websocketpp/http/parser.hpp:195-276 | any nonempty list of printed attributes, without value, with a token or with a quoted value that can be quoted, and with any white space around names and values, is read back up to where it ends, the last value of a name being kept |
| `HttpParameters.ParametersRoundTrip` | ci/websocketpp/websocketpp/http/parser.hpp:293-377 | any nonempty list of parameters with their attributes, printed with white space wherever it may be, is read back to the last octet |
| `HttpParameters.ExtractParameters` | ci/websocketpp/websocketpp/http/parser.hpp:293-377 | the parameter list, or the beginning exactly on a syntax error; terminates in range on any input |
| `HttpParameters.SubprotocolHeader` | ci/websocketpp/websocketpp/processors/hybi13.hpp:249-258 | the list a client prints is the names joined by comma and space |
| `HttpParameters.ExtractSubprotocols` | ci/websocketpp/websocketpp/processors/hybi13.hpp:332-349 | the names of the parameters, or a parse error |
| `HttpParameters.SubprotocolRoundTrip` | ci/websocketpp/websocketpp/impl/connection_impl.hpp:458-475 | any nonempty list of acceptable names, joined, is parsed to the same names without attributes, to the last octet |

## Left out

- Delivery.BufferIsBounded: assumes frames shorter than 2^63 octets, because beyond that the check adds modulo 2^64; `Delivery.LimitIsExact` is the exact condition for one frame.
- Lifecycle.NothingAfterClose: holds with each call atomic; the interleavings lock by lock are in `Race`, which leaves out everything but sending and closing.
- Transport.NothingAfterCloseOnTheWire: composes calls that are atomic with the write queue, likewise.
- Handlers.HandlerContract: assumes that all handlers are installed; it counts the places where they are called.
- WriteQueue.WriteProtocol: assumes that the payload of a message is not changed while it is queued, which the code shares with the caller, and one I/O strand, as with the asio transport.
- Md5.State.Append: a piece is shorter than 2^64 - 64 octets, as any buffer in memory is.
- HttpParameters.ExtractAttributes: the attributes collected before a syntax error are not compared, because the caller drops them.
- Collect.ReceiveMessage: decoding of the particles in a message always succeeds; a message that cannot be decoded raises out of the collection.
- The close code and reason a connection reports about itself after it has been terminated: error texts only.
- Handlers of the application that call back into the connection: their calls are separate events after the one that called the handler.
- The state of timers: a timer can expire at any time, which allows more runs than the code has.
- The client role of the connection object, whose read path goes on after terminating (`impl/connection_impl.hpp:1629`).
- hybi00, hybi07 and hybi08, permessage-deflate, SHA-1 and the HTTP message parser.
- The arithmetic of one MD5 block: any function of four words and a block.
- The asio and iostream transports, TLS, sockets, Kafka clients, the CUDA kernel, particle physics, grid bounds, logging and configuration.
