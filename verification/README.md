# UART command link: protocol, receiver and task pipeline

A Dafny model of the firmware's UART link and proofs about it. The link carries frames
`@LL:TTT:PAYLOAD:CC\n`: a start byte, the length of `TTT:PAYLOAD` in hexadecimal, a type, a payload of at
most 48 bytes, an XOR checksum over `LL:TTT:PAYLOAD`, and a line feed.

| file | what it models |
|---|---|
| `bytes.dfy` | bytes, XOR on bytes, C strings |
| `codec.dfy` | the frame format as functions: what is encoded, what is accepted; round trips |
| `wire_format.dfy` | the same frames spelled in literal characters; when the receiver gives up |
| `protocol.dfy` | `protocol.c` in place: structures, encoder, body decoder, whole-frame validator |
| `stream.dfy` | the receiver as a machine whose state is the partial frame; accounting, deadline, agreement with the validator |
| `stream_theorems.dfy` | soundness on arbitrary streams, stream round trip and exactly when it holds |
| `resync.dfy` | recovery from any receiver state |
| `recovery.dfy` | exactly when recovery is certain |
| `corruption.dfy` | one corrupted byte, for the validator and for the receiver |
| `hypotheses.dfy` | what happens to recovery and detection without the restrictions on payloads |
| `parser.dfy` | `parser.c`: the nine-state parser over its fixed buffers |
| `status.dfy` | the status report: printing, truncation, reading back, when it fits |
| `app.dfy` | `app.c` and `actuators.c`: requests, responses, the LED |
| `meaning.dfy` | what the application promises, in the literal texts of commands and answers |
| `pipeline.dfy` | interrupt and five tasks as freely interleaved steps over five bounded queues |
| `pipeline_invariant.dfy` | every step keeps the invariant of the pipeline |
| `pipeline_theorems.dfy` | conservation, refinement, status report, LED, drain, over every run |
| `status_limit.dfy` | how many received bytes a status report stands, exactly |
| `end_to_end.dfy` | from the receive line to the transmit line |
| `firmware.dfy` | the globals, task locals and program points, changed step by step in place, with 32-bit counters |
| `firmware_theorems.dfy` | line, LED and counters of the firmware after any schedule and at rest |

How the parts fit together:

* `Codec.FrameMessage` says which byte strings are valid frames. The C validator is proved to compute it on
  the C string it is given, and the encoder to write `Codec.Frame`, its inverse.
* `WireFormat` and `Meaning` say what the bytes, texts, answers and the LED mean in literal characters, without
  the tables of the program; the tables are proved to agree with them, and the results about whole runs are
  stated in their terms.
* `Stream.Next` and `Stream.Emit` give the receiver in one rule: a byte either extends a viable partial
  frame, or completes a valid one, or is an error, after which only a `@` is kept. `ByteParser.Parser` is
  the real state machine; its live buffer prefixes are proved to be that partial frame.
* `Pipeline.Perform` is one atomic step of interrupt or task: a queue operation, an access to a shared
  counter, a transmitted byte. A run is any sequence of enabled steps.
* `Firmware` has one class per task, with the task's program point among its fields; `Firmware.Board` joins
  them. Guards and branches are decided by these fields alone. `Valid()` says that the ghost `steps` taken so
  far are a run of `Pipeline` and that the fields are where this run leads. The counters in `Pipeline` do not
  wrap; those in `Firmware` are 32-bit and are proved to be their remainders.

A byte is an integer from 0 to 255, `char` comparisons are those of the source on bytes, and read-only
buffers are sequences. Queue operations are atomic. A 32-bit counter has one writer and is read in one
access, so its increment is one step and its read another; the seven counters of a status report are read
at different moments, in any order.

Where code and documentation disagree, the model follows the code:

* `docs/FRAME_GENERATION_AND_PARSING.md:264-269` restricts payloads to printable characters without `@`.
  The code enforces neither. Properties that need such a restriction state it; `RoundTripExactly` shows
  that for the round trip only `\r` matters, because the parser drops it even inside a body.
* `docs/FRAME_GENERATION_AND_PARSING.md:533-537` allows upper-case digits only. The code also accepts lower
  case. In LL this changes the checksum, in CC it does not; `CanonicalReverse` and `OneByteCorruption` say
  exactly what follows.
* `docs/FRAME_GENERATION_AND_PARSING.md:681-687` applies the resynchronisation rule to a bad checksum as
  well; the code resets plainly. The two agree, because the byte is then `\n`.
* A byte that arrives between enabling the interrupt and setting the receive queue is counted in `irq` but
  neither queued nor counted as dropped (`firmware/drivers/uart_comm.c:82-87`); the model counts such bytes
  as `early`.

Results to note:

* Uniqueness of the status report fails in one corner: a report of exactly 20 digits may also be the truncated
  report of a larger drop count; `StatusDetermines` gives the exact condition.
* A status report is complete in every run that has received at most 1238 bytes, and there is a run with 1239
  bytes whose report is cut off; `LimitIsExact` proves both halves.
* The stream round trip fails exactly for payloads that contain `\r`; `RoundTripExactly` proves both halves.
* Recovery fails when a payload near the beginning contains `@`: a receiver can stay out of step for ever, and
  `NeverRecovers` gives the payload. `RecoversExactly` says when recovery is certain: for frames of 56 bytes or
  more in all, from every state, exactly when those that begin within the first 52 bytes have no `@` in their
  payloads. A sender can check this before it sends.
* The receiver detects every corruption of one byte exactly when payloads avoid all of `@`, `\n` and `\r`;
  `ExactlyTheseThree` proves it for every choice among the three.

## Model

| member | source | states |
|---|---|---|
| Codec.ChecksumDetectsChange | firmware/protocol/protocol.c:142-162 | the XOR checksum changes whenever exactly one byte changes |
| Codec.RoundTrip | firmware/protocol/protocol.c:251-385 | every message with a valid type and at most 48 payload bytes is what its frame decodes to |
| Codec.FrameInjective | firmware/protocol/protocol.c:166-249 | different messages have different frames |
| Codec.AcceptedIsEncodable | firmware/protocol/protocol.c:276-334 | every accepted byte string has 12 to 60 bytes and carries a message that can be encoded, of the announced length |
| Codec.ReencodeValidates | firmware/protocol/protocol.c:251-385 | encoding an accepted message again and validating gives the same message |
| Codec.CanonicalReverse | firmware/protocol/protocol.c:286-333 | an accepted frame is reproduced byte for byte by the encoder exactly when its four hexadecimal digits are upper case |
| Codec.FrameByte | firmware/protocol/protocol.c:209-239 | the bytes of a frame outside its payload are `@` first, `\n` last, and upper-case digits, letters and `:` between |
| WireFormat.AcceptedExactly | firmware/protocol/protocol.c:286-385 | exactly the byte strings spelled `@LL:TTT:PAYLOAD:CC\n` are accepted, with literal delimiters and type texts, LL the body length, CC the 8-bit XOR, digits of either case, at most 48 payload bytes |
| WireFormat.FrameExactly | firmware/protocol/protocol.c:166-249 | the encoder takes the six types with at most 48 payload bytes and writes the one such spelling in upper-case digits |
| WireFormat.TypeField | firmware/protocol/protocol.c:55-82 | an accepted string has a given type exactly when bytes 4 to 6 are its literal text, begins with byte 64 and ends with byte 10 |
| WireFormat.EncodedTypeField | firmware/protocol/protocol.c:24-46 | the same for what is encoded |
| WireFormat.BodyExactly | firmware/protocol/protocol.c:336-385 | a body decodes to a message exactly when it has 4 to 52 bytes, the literal type text, byte 58 and the payload |
| WireFormat.ViableExactly | firmware/protocol/parser.c:128-193 | the receiver keeps collecting exactly as long as the bytes can still begin a frame, but for a first length digit that no length has |
| WireFormat.SpecialBytes | firmware/protocol/parser.c:112-126 | byte 13 changes nothing, byte 64 starts a frame, also after an error, and byte 0 ends a C string |
| Protocol.ComputeChecksum | firmware/protocol/protocol.c:142-162 | the loop computes the checksum of the first `length` bytes |
| Protocol.MessageSet | firmware/protocol/protocol.c:84-109 | succeeds exactly for a valid type and a C string of at most 48 bytes; the structure then holds it, terminated; otherwise it is untouched |
| Protocol.Snprintf | firmware/protocol/protocol.c:219-223 | a formatted text is written up to the size less one and terminated, the rest of the buffer is kept, the full length is returned |
| Protocol.BuildChecksumInput | firmware/protocol/protocol.c:209-223 | the local buffer receives exactly `LL:TTT:PAYLOAD`, terminated, within its 57 bytes |
| Protocol.EncodeFrame | firmware/protocol/protocol.c:166-249 | succeeds exactly when the type is valid, the stored length is the C-string length and the buffer is longer than payload plus 12; writes exactly the frame and a terminator; otherwise leaves the buffer alone |
| Protocol.DecodeBodyInto | firmware/protocol/protocol.c:336-385 | accepts exactly the bodies `TTT:PAYLOAD` of a known type and legal length, stores the message, and touches nothing on failure |
| Protocol.ValidateFrame | firmware/protocol/protocol.c:251-334 | accepts exactly the valid frames among C strings and yields their message; touches nothing on failure |
| Corruption.OneByteCorruption | firmware/protocol/protocol.c:286-333 | one byte of a frame replaced: rejected, except for a change of letter case in CC, which keeps the message |
| Corruption.OneByteCorruptionOfString | firmware/protocol/protocol.c:276-334 | the same for the C string, where a NUL byte cuts the frame short |
| Corruption.BehindTheHeader | firmware/protocol/parser.c:160-205 | the same for every payload whatsoever when the corrupted byte lies behind the header; a `\r` in the payload costs the message too |
| Corruption.OneByteCorruptionOfStream | firmware/protocol/parser.c:137-205 | one byte of a frame replaced anywhere, fed to a receiver in reset: nothing is delivered, or the original message after a case change in CC, for payloads without `@`, `\n` and `\r` |
| Hypotheses.LineFeedForges | firmware/protocol/parser.c:144-150 | with `\n` in the payload a corrupted length makes the receiver deliver another message |
| Hypotheses.StartForges | firmware/protocol/parser.c:121-126 | with `@` in the payload a corrupted start byte makes it deliver a message held inside the payload |
| Hypotheses.ReturnForges | firmware/protocol/parser.c:112-118 | with `\r` in the payload a corrupted length makes it deliver a shorter message |
| Hypotheses.ExactlyTheseThree | firmware/protocol/parser.c:104-211 | of `@`, `\n` and `\r`, payloads must avoid all three for every corruption of one byte to be detected by the receiver, and then it is |
| Stream.CarriageReturnsInvisible | firmware/protocol/parser.c:112-118 | leaving out every `\r` changes neither state nor any READY or ERROR |
| Stream.IncrementalEqualsWhole | firmware/protocol/parser.c:104-211 | a byte string starting with `@` gives READY with m on its last byte and nothing before exactly when the validator accepts it with m |
| Stream.AccountingFrom | firmware/protocol/parser.c:25-34 | from any partial frame, payload length plus 12 per READY, 1 per ERROR and the partial frame never exceed what was there plus the bytes received |
| Stream.Accounting | firmware/protocol/parser.c:25-34 | over every stream, the frames of the delivered messages, 1 per ERROR and the current partial frame never exceed the bytes consumed |
| Stream.RemainingDecreases | firmware/protocol/parser.c:128-205 | inside a frame every byte without a verdict brings the verdict strictly closer |
| Stream.VerdictDeadline | firmware/protocol/parser.c:128-210 | inside a frame a READY or ERROR comes within at most 59 bytes other than `\r` |
| StreamTheorems.Soundness | firmware/protocol/parser.c:121-205 | any stream splits into discarded bytes, one valid frame per delivered message, in order and disjoint, and the partial frame; each frame ends with the very byte that gave the READY of its message |
| StreamTheorems.ReadyEndsWithFrame | firmware/protocol/parser.c:195-205 | at a READY the most recent bytes other than `\r` are a valid frame of the delivered message |
| StreamTheorems.StreamRoundTrip | firmware/protocol/parser.c:104-211 | the frames of any messages without `\r` in their payloads, with `\r` inserted anywhere, deliver exactly those messages without error and end in reset |
| StreamTheorems.RoundTripExactly | firmware/protocol/parser.c:112-118 | the frames of a list of messages are received as that list exactly when no payload contains `\r` |
| Resync.Resynchronises | firmware/protocol/parser.c:24-34 | from any state at most one stray verdict, within 56 bytes, at most five messages missed, every frame that begins at offset 52 or later delivered in order without error, if frames that begin before have no `@` in their payloads |
| Recovery.RecoversExactly | firmware/protocol/parser.c:24-34 | recovery is certain from every state, with `\r` anywhere, exactly when the frames that begin within the first 52 bytes have no `@` in their payloads |
| Recovery.Aligned | firmware/protocol/parser.c:104-211 | if from some `@` among frames the receiver delivers the last messages without error and ends in reset, a frame begins at that `@` |
| Resync.FiveCanBeLost | firmware/protocol/parser.c:152-174 | five is reached: a receiver waiting for a 52-byte body misses five frames with one ERROR |
| Hypotheses.NeverRecovers | firmware/protocol/parser.c:24-34 | a receiver left at `@34:` delivers nothing from any number of frames with payload `xxxx@34:` |
| Hypotheses.NotRecovered | firmware/protocol/parser.c:24-34 | so for six or more such frames no choice of stray verdict and missed messages describes a recovery |
| ByteParser.Parser.constructor | firmware/protocol/parser.c:95-99 | a new parser is in reset with nothing consumed |
| ByteParser.Parser.Reset | firmware/protocol/parser.c:73-93 | reset forgets the partial frame although only the first body byte is cleared |
| ByteParser.Parser.Fail | firmware/protocol/parser.c:24-34 | an error drops the partial frame and reuses an offending `@` as the next start |
| ByteParser.Parser.ChecksumMatches | firmware/protocol/parser.c:49-70 | compares the XOR of `LL:` and the body with the two received digits |
| ByteParser.Parser.ConsumeHeader | firmware/protocol/parser.c:128-158 | length digits, length range and separator, as the abstract receiver |
| ByteParser.Parser.ConsumeBody | firmware/protocol/parser.c:160-167 | body bytes are stored in bounds, as the abstract receiver |
| ByteParser.Parser.ConsumeChecksum | firmware/protocol/parser.c:169-193 | separator and checksum digits, as the abstract receiver |
| ByteParser.Parser.Decide | firmware/protocol/parser.c:195-205 | at the end byte, checksum and body decide between the message and an error, and the parser is reset |
| ByteParser.Parser.ConsumeEnd | firmware/protocol/parser.c:195-205 | the end of a frame as the abstract receiver; the message structure changes only on READY |
| ByteParser.Parser.ConsumeByte | firmware/protocol/parser.c:102-211 | one byte moves the live buffer prefixes, the verdict and the message exactly as the abstract receiver |
| ByteParser.Parser.ConsumeAll | tests/host/test_parser.c:33-52 | feeding a stream gives the result codes, messages and error count of the abstract receiver |
| ByteParser.SameOnEveryInput | firmware/protocol/parser.c:73-93 | parsers with equal live prefixes give the same result on each byte of every input and the same messages, whatever stale bytes they hold |
| Status.StatusReadsBack | firmware/app/app.c:176-183 | with at most 20 digits the report is complete and parses back, behind its literal labels, to rx, ae, irq, pb, pm, pe and qd; otherwise it is exactly the first 48 characters |
| Status.StatusTextSpelled | firmware/app/app.c:176-183 | the report is `rx=` and rx, `,ae=` and ae, and so on for all seven counters, written out |
| Status.StatusDetermines | firmware/app/app.c:176-185 | exactly when the payload determines the seven 32-bit counters |
| Status.StatusEncodable | firmware/app/app.c:158-186 | the report is always a valid STS message without NUL, `\n`, `\r` or `@` |
| Status.ShortRunsFit | firmware/app/app.c:166-185 | a report that can be shown where at most 1238 bytes have been received needs at most 20 digits, however unevenly its counters were read |
| Status.BuildStatusMessage | firmware/app/app.c:158-186 | the message structure holds the truncated report, whatever the counters |
| App.FixedSendable | firmware/app/app.c:99-135 | every fixed response can be framed and contains no byte that a receiver could misread |
| App.LedMeaning | firmware/app/actuators.c:33-45 | the LED is decided by the last on or off command and the parity of the toggles after it; the pin is active low |
| Meaning.RequestByText | firmware/app/app.c:44-136 | which request a message is, by its type and the literal text of its C string |
| Meaning.ResponseByText | firmware/app/app.c:99-135 | the response chosen is, by literal texts, the answer promised to the message, and no other |
| Meaning.LedByText | firmware/app/app.c:53-72 | after any messages the LED shows the last `led=on` or `led=off` among them and the parity of the `led=toggle` behind it |
| PipelineInvariant.BytesKept | firmware/app/tasks.c:36-37 | no step loses, duplicates or reorders an accepted byte on its way to the parser |
| PipelineInvariant.ParsingKept | firmware/app/tasks.c:58-72 | parser state and counters follow the abstract receiver on the bytes consumed |
| PipelineInvariant.MessagesKept | firmware/app/tasks.c:66-69 | every message found is handled or waiting, in order |
| PipelineInvariant.ApplicationKept | firmware/app/app.c:84-136 | one response per handled message; rx is exact, and ae is the number of answered messages that are none of the five literal commands |
| PipelineInvariant.MarksKept | firmware/app/app.c:92-128 | the application's counters at each message are its position and the refusals before it |
| PipelineInvariant.AnswersKept | firmware/app/app.c:99-135 | each response has the literal text promised to its message; a status report's counters were read between its message and the next |
| PipelineInvariant.TransmissionKept | firmware/app/tasks.c:147-172 | the wire and the rest of the current frame are the frames of the responses taken, in order |
| PipelineInvariant.ActuationKept | firmware/app/app.c:109-113 | LED commands are queued once each, in order, before their acknowledgement, and the pin follows them |
| PipelineInvariant.InvAlways | firmware/app/tasks.c:29-174 | all of these hold after every run from boot |
| PipelineTheorems.Conservation | firmware/drivers/uart_comm.c:72-90 | every received byte and every found message is in exactly one place in every reachable state |
| PipelineTheorems.QueuesBounded | firmware/config/app_config.h:6-10 | the five queues never hold more than 64, 64, 8, 8 and 8 items |
| PipelineTheorems.WaitsWhileFull | firmware/config/app_config.h:6-10 | a task that wants to send waits exactly while that many items are queued |
| PipelineTheorems.CountersConsistent | firmware/app/app.c:166-183 | ae <= rx <= pm, 12*pm + pe <= pb and pb + qd <= irq |
| PipelineTheorems.StatusShows | firmware/app/app.c:92-186 | the status report that answers message i prints rx == i + 1 and as ae the messages before it that are none of the five literal commands, in every run |
| PipelineTheorems.QueryCounted | firmware/app/tasks.c:62-72 | once a status query has been handled, 12*pm + 7 + pe <= pb |
| PipelineTheorems.StatusNeverTruncated | firmware/app/app.c:158-186 | in every run with at most 1238 received bytes every status report is complete and reads back |
| StatusLimit.Burst | firmware/drivers/uart_comm.c:81-87 | of bytes that arrive before any task runs exactly the first 64 are accepted and all others counted as dropped |
| StatusLimit.AnyInput | firmware/drivers/uart_comm.c:81-87 | every stream of 64 bytes or more can be accepted whole with any number of other bytes lost on the way |
| StatusLimit.LimitIsSharp | firmware/app/app.c:158-186 | a run from boot that receives 1239 bytes and whose status report is cut off; the report is given character by character |
| StatusLimit.LimitIsExact | firmware/app/app.c:158-186 | every status report of every run with at most n received bytes is complete exactly when n <= 1238 |
| PipelineTheorems.WireDecodes | firmware/app/tasks.c:152-172 | a fresh receiver reading the wire decodes exactly the responses sent to their last byte, without error |
| PipelineTheorems.WireSpelled | firmware/app/tasks.c:162-171 | what goes out for a response is its frame with bytes 13 and 10 in place of the last one |
| PipelineTheorems.PipelineRefines | firmware/app/tasks.c:29-174 | messages are handled as the receiver delivers them from the accepted bytes, answered once each in order, and the wire is a prefix of the answers' CRLF frames |
| PipelineTheorems.OneResponsePerMessage | firmware/app/app.c:84-136 | one response per handled message but for the one in hand; every response encodes within the 64-byte buffer |
| PipelineTheorems.AcknowledgedCommands | firmware/app/app.c:109-113 | `cmd=ok` responses <= queued commands <= that number plus one |
| PipelineTheorems.WorkDecreases | firmware/app/tasks.c:29-174 | every step but an interrupt uses up work |
| PipelineTheorems.NotStuck | firmware/app/tasks.c:29-174 | while a queue or task holds anything some step other than an interrupt is possible |
| PipelineTheorems.Drains | firmware/app/tasks.c:29-174 | without interrupts every schedule ends within a bound, and only with everything empty |
| PipelineTheorems.CanDrain | firmware/app/tasks.c:29-174 | from every state such a schedule exists |
| PipelineTheorems.DrainedResult | firmware/app/tasks.c:29-174 | once drained, everything accepted is handled, answered and on the wire, the LED is the fold of the commands from off, all counters are exact |
| EndToEnd.LosslessAcceptsAll | firmware/drivers/uart_comm.c:81-87 | without early or dropped bytes the accepted bytes are the received ones |
| EndToEnd.AcceptedInOrder | firmware/drivers/uart_comm.c:72-90 | in every run the accepted bytes are the received ones in their order, and exactly the early and the dropped ones are missing |
| EndToEnd.CommandsAnswered | firmware/app/tasks.c:29-174 | frames received without loss are handled as sent and answered one by one; status reports show their position; LED and counters are as the messages say, by their literal texts |
| EndToEnd.NoiseCostsFive | firmware/protocol/parser.c:24-34 | after arbitrary noise at most five of the following messages are missed and at most one message is spurious, if frames that begin within 52 bytes have no `@` in their payloads |
| EndToEnd.LossCostsFive | firmware/app/tasks.c:29-174 | after the last lost byte, whatever came before, at most five of the messages sent from then on are not handled and at most one handled message is spurious; each handled message is answered on the wire |
| Firmware.SimpleMessage | firmware/app/app.c:21-35 | a message is set from any C string, or refused when it cannot be framed |
| Firmware.ConsumeOne | firmware/app/tasks.c:64-72 | the parser's verdict on a byte, with the message it reports |
| Firmware.FormatStatus | firmware/app/app.c:158-186 | the status message built from the values read |
| Firmware.EncodeOutgoing | firmware/app/tasks.c:152-171 | a queued message is encoded into the 64-byte buffer when it can be, and what is to be sent is its frame with `\r\n` for `\n` |
| Firmware.Dispatch | firmware/app/app.c:99-135 | the branch taken and the LED command are those of the literal text of the message |
| Firmware.UartPort.Isr | firmware/drivers/uart_comm.c:72-90 | counts the byte in 32 bits, queues it, or counts it as dropped when the queue is full |
| Firmware.UartPort.SetQueue | firmware/drivers/uart_comm.c:19-22 | from now on received bytes are queued |
| Firmware.UartPort.Receive | firmware/app/tasks.c:36 | takes the oldest byte of the interrupt's queue |
| Firmware.UartPort.Send | firmware/app/tasks.c:37 | hands that byte over |
| Firmware.ParserTaskState.Receive | firmware/app/tasks.c:58-60 | takes the oldest byte |
| Firmware.ParserTaskState.CountByte | firmware/app/tasks.c:62 | counts it in 32 bits |
| Firmware.ParserTaskState.Consume | firmware/app/tasks.c:64-72 | the real parser makes the abstract receiver's step, and its result alone decides the branch taken next |
| Firmware.ParserTaskState.CountMessage | firmware/app/tasks.c:66-67 | counts a message in 32 bits |
| Firmware.ParserTaskState.CountError | firmware/app/tasks.c:70-72 | counts an error in 32 bits |
| Firmware.ParserTaskState.Send | firmware/app/tasks.c:68 | hands the message over |
| Firmware.AppTaskState.Receive | firmware/app/tasks.c:91 | takes the oldest message |
| Firmware.AppTaskState.Count | firmware/app/app.c:92-131 | counts it in 32 bits and goes to the branch of its request |
| Firmware.AppTaskState.Actuate | firmware/app/app.c:109-110 | hands the LED command over |
| Firmware.AppTaskState.ReadCounter | firmware/app/app.c:177-183 | reads one shared 32-bit counter, in any order |
| Firmware.AppTaskState.Format | firmware/app/app.c:158-186 | builds the report from the values read |
| Firmware.AppTaskState.Send | firmware/app/app.c:21-35 | hands over the response of its branch, always a valid message; a message that is none of the five literal commands goes on to count an error |
| Firmware.AppTaskState.CountRefusal | firmware/app/app.c:99-135 | counts an application error in 32 bits |
| Firmware.TransmitTaskState.Receive | firmware/app/tasks.c:148-152 | takes the oldest response and encodes it; one that cannot be encoded is skipped |
| Firmware.TransmitTaskState.SendByte | firmware/drivers/uart_comm.c:49-60 | sends the next byte of the frame, the last one as `\r\n` |
| Firmware.ActuatorTaskState.Receive | firmware/app/tasks.c:132 | takes the oldest command |
| Firmware.ActuatorTaskState.ApplyCommand | firmware/app/actuators.c:22-46 | sets, clears or toggles the pin |
| Firmware.Board.PossibleIsEnabled | firmware/app/tasks.c:29-174 | what the queues and program points of the board allow is exactly what the abstract system allows |
| Firmware.Board.Take | firmware/app/tasks.c:29-174 | any possible step on the fields continues the run of the abstract system by that step |
| Firmware.Board.NextStep | firmware/app/tasks.c:29-174 | while anything is queued or held some step other than an interrupt is possible on the fields |
| FirmwareTheorems.AtAnyMoment | firmware/app/tasks.c:29-174 | after any schedule the transmit line decodes without error to the literal answers to the first messages of the accepted bytes, the LED shows the first of these messages, the counters are those of the run modulo 2^32, and only early and dropped bytes are missing from the accepted ones |
| FirmwareTheorems.AtRest | firmware/app/tasks.c:29-174 | at rest every message of the accepted bytes is answered on the line with its literal answer, the LED shows all of them, and the seven counters are exact modulo 2^32; without loss everything received was accepted |
| FirmwareTheorems.RecoversAtRest | firmware/app/tasks.c:29-174 | after the last lost byte, at rest, the line answers all but at most five of the messages sent from then on, with at most one spurious message, and the LED shows them |
| FirmwareTheorems.RunSchedule | firmware/app/tasks.c:198-206 | any schedule can be tried on the board, and every run of the abstract system can be carried out |
| FirmwareTheorems.Settle | firmware/app/tasks.c:29-174 | without interrupts the tasks come to rest |
| FirmwareTheorems.Serve | firmware/app/tasks.c:29-174 | bytes that arrive one at a time at a board at rest are all served: one literal answer per message on the line, LED and counters exact |

## Left out

- The ROS 2 bridge, the scripts, the build files and the register set-up of clock, pins, UART and LED; only the initial level of the LED pin is kept.
- FreeRTOS itself: queues are bounded sequences, scheduling is arbitrary interleaving, `usart_send_blocking` completes. Priorities, stacks and timing are not modelled.
- `task_telemetry` and `firmware/app/sensors.c`: the task is never created.
- NULL-pointer guards, among them READY without a message structure (`firmware/protocol/parser.c:199`), and an interrupt without a received byte, which does nothing.
- The `default` branch of the parser: the state type has only the nine values, so it cannot be reached.
- General `snprintf`, `strncpy`, `strcmp` and `strlen`: only their effect on the texts used. `strlen` and `strcmp` are the function `CString`.
- Board: a message structure used within one step is created in that step, so stale bytes behind the terminator of queued messages do not appear.
- OneByteCorruptionOfStream: for a corrupted header byte, stated for payloads without `@`, `\n` and `\r`; `ExactlyTheseThree` shows that none of the three can be left out.
- Resynchronises: stated for payloads without `\r`, since frames with `\r` are not delivered even in step (`RoundTripExactly`). Its condition on `@` is exact (`RecoversExactly`) from 56 bytes on; with fewer the receiver may still be waiting for the rest of a body, and the condition is sufficient only.
- NoiseCostsFive: the same conditions as Resynchronises, for the same reasons.
