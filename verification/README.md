# Apogee-FC verification

A Dafny model of the Apogee-FC flight computer and its ground client: the framed UART
protocol with its CRC, the resynchronising stream decoder, the telemetry and command codecs,
health monitoring, fault recovery, the flight loop, and the ground-side stream processor.
`dafny verify dfyconfig.toml` checks everything.

The model keeps the form of the program. Objects that update their fields are classes whose
methods do the same work in the same order; each method is proved equal to a function on
values, and the theorems are about those functions. Handler callbacks become the list of
events a push returns. Byte arrays with a used length (`EncodedFrame`) become sequences of
that length. Enumerations carry one extra constructor for values cast in from outside.

## What is proved

* **Frames and CRC** (`Crc`, `BitStrings`, `Polynomial`, `FrameCodec`, `ErrorDetection`,
  `BitErrors`). The CRC loop computes the remainder of polynomial division over GF(2) by x^16 +
  x^12 + x^5 + 1 (section 2 of ITU-T Recommendation V.41) with the initial register 0xFFFF, for
  every message. From that follow the error guarantees: odd numbers of flipped bits, bursts
  within any sixteen bits, and changes of one or two adjacent bytes. The last one has one
  exception, stated as an equivalence: because the CRC is stored low byte first, the change
  0x89, 0xA1 across the last covered byte and the first CRC byte cancels out in every frame. No
  three flipped bits, wherever they are, can turn a frame into another one, and in every frame
  four can. `FrameDiagnosis` tells from the bytes which reason the decoder gives, and how each
  kind of damage is named.
* **Stream decoder** (`StreamMachine`, `FrameStreamDecoder`, `BatchScanner`,
  `StreamGuarantees`). For every input, in any chunking, the byte-at-a-time decoder reports
  exactly what a scan over the whole input finds, and no byte is lost: the input is the noise
  spans, frames and dropped spans, in order, followed by the buffer. A valid frame is delivered
  once 76 bytes have come in from its start unless an earlier frame reaches over it. At the end
  of the stream the decoder does not look again, so a whole frame behind an unfinished header is
  lost. Which positions the decoder comes to is told from the input alone (`Reached`):
  `DecidedExactlyWhen`, `DeliveredExactlyWhen` and `BufferedExactlyWhen` determine every
  decision, every delivered frame and the lost rest by it, and `FrameLostAtEnd` gives an input
  that loses a frame. A noise report can cover no byte at all; `EmptyNoiseExactlyWhen` says
  when, and `EmptyNoiseOccurs` shows inputs that get there. `StreamReports` says the same of
  what the handler is told: noise counts, reasons and the bytes handed over.
* **Messages** (`TelemetryCodec`, `CommandCodec`). All four codecs are inverse to each other on
  everything they accept. Telemetry decoding does not look at the message type, so re-encoding
  returns the same bytes exactly when the type byte is 0x01, and every other known type does
  occur. `WireFormat` gives every message byte for byte, and each reason for refusing one.
* **Ground processor** (`GroundClient`, `CleanStreams`). The malformed-input flag stays down for
  exactly the streams that are telemetry and acknowledgement messages back to back. For every
  other stream `ComplaintsExactlyWhen` gives the complaints.
* **Flight loop** (`FlightMode`, `Telemetry`, `Health`, `FaultManager`, `CommandProcessor`,
  `FlightLoop`, `FlightComputer`, `FlightHistory`, `TelemetryPacing`). Mode and faults in closed
  form over every history of readings and commands, a bound on the telemetry rate, and telemetry
  that can always be encoded. `TickComesExactlyWhen` says for every run when a tick comes, and
  from it follows that period changes accepted often enough put the tick off
  (`TickIsPostponed`). While the period is left alone the schedule is exact (`ScheduleIsKept`).
* **End to end** (`Mission`). Whatever bytes come up, the ground understands everything sent
  down: one telemetry line per tick, one acknowledgement per command, in order. `Fly` runs the
  objects themselves and `FlyAndDecode` hands what they send to the ground's.

Times are mathematical integers. Sequence numbers wrap at 2^32, the CRC works on sixteen-bit
words, and all stored integers have their own widths. The repository's README.md says that the
ground client prints accepted command acknowledgements; the code prints every acknowledgement,
and so does the model.

## Model

| member | source | states |
|---|---|---|
| Bytes.WriteLittleEndian | common/include/apogee/telemetry_codec.hpp:94-118 | the looped writers change exactly the field's bytes, to the value's low bytes, least significant first |
| Bytes.ReadLittleEndian | common/include/apogee/telemetry_codec.hpp:128-146 | the looped readers return the number those bytes stand for |
| Bytes.StoreThenLoad | common/include/apogee/telemetry_codec.hpp:102-146 | every number that fits its field is read back unchanged |
| Bytes.LoadThenStore | common/include/apogee/telemetry_codec.hpp:102-146 | every field that is read is written back byte for byte |
| Crc.ComputeCrc16 | common/include/apogee/frame_codec.hpp:70-87 | the nested loops compute the register function the theorems are about |
| Crc.BitStepsLinear | common/include/apogee/frame_codec.hpp:79-83 | any number of bit steps is linear over exclusive or |
| Crc.BitStepsInjective | common/include/apogee/frame_codec.hpp:79-83 | any number of bit steps is injective |
| Polynomial.DivisionIsExact | common/include/apogee/frame_codec.hpp:72-72 | long division by the generator gives the only quotient and remainder there are |
| Polynomial.ByteStepIsSerial | common/include/apogee/frame_codec.hpp:75-84 | taking a byte in at once equals taking in its bits one by one |
| Polynomial.CrcIsRemainder | common/include/apogee/frame_codec.hpp:70-87 | for every message the CRC is the remainder of the message times x^16, first sixteen bits inverted, and nothing else is |
| Crc.CheckValue | tests/host/frame_codec_test.cpp:15-19 | the published check value 0x29B1 of the digits 1 to 9 |
| FrameCodec.Encode | common/include/apogee/frame_codec.hpp:160-197 | the array-filling encoder returns the specified bytes, or the first failing check |
| FrameCodec.Decode | common/include/apogee/frame_codec.hpp:199-254 | the decoder returns the specified frame, or the first failing check in its order |
| FrameCodec.EncodedLayout | common/include/apogee/frame_codec.hpp:178-195 | where sync pair, header fields, payload and CRC lie in an encoded frame |
| FrameCodec.EncodeSucceedsWhen | common/include/apogee/frame_codec.hpp:164-176 | encoding succeeds exactly for version 1, a known type and at most 64 payload bytes |
| FrameCodec.EncodeThenDecode | common/include/apogee/frame_codec.hpp:160-254 | every encodable frame comes back, unused payload bytes as zero |
| FrameCodec.DecodeThenEncode | common/include/apogee/frame_codec.hpp:160-254 | every accepted byte sequence is encoded back to itself |
| FrameCodec.FramesAreEncodings | common/include/apogee/frame_codec.hpp:160-254 | the decoder accepts exactly what the encoder can produce |
| FrameDiagnosis.DecodeFailsExactlyWhen | common/include/apogee/frame_codec.hpp:199-254 | each of the seven reasons, and acceptance, exactly when it is given, told from the bytes in the decoder's order |
| FrameDiagnosis.DamageIsNamed | tests/host/frame_codec_test.cpp:102-140 | cutting, lengthening, or changing sync, version, type, length or anything behind the header of any frame has the reason that goes with it |
| FrameDiagnosis.EncodeFailsExactlyWhen | common/include/apogee/frame_codec.hpp:160-176 | each of the three reasons for not encoding, exactly when it is given |
| WireFormat.FrameWire | common/include/apogee/frame_codec.hpp:178-195 | every byte of an encoded frame, by position and value |
| WireFormat.FrameRead | common/include/apogee/frame_codec.hpp:199-254 | every field of a decoded frame from its bytes, the rest of the payload zero |
| WireFormat.GoldenFrame | tests/host/frame_codec_test.cpp:23-52 | the frame of the codec test, all fifteen bytes |
| ErrorDetection.CrcKeepsParity | common/include/apogee/frame_codec.hpp:75-84 | CRC and message have the same bit parity |
| ErrorDetection.FramesAreEven | common/include/apogee/frame_codec.hpp:237-244 | every accepted frame holds an even number of set bits from byte 2 on |
| ErrorDetection.OddErrorsAreCaught | common/include/apogee/frame_codec.hpp:199-244 | an odd number of flipped bits after the sync pair is always rejected |
| ErrorDetection.WindowMatters | common/include/apogee/frame_codec.hpp:75-84 | messages that differ only within sixteen consecutive bits have different CRCs |
| ErrorDetection.ShortBurstsAreCaught | common/include/apogee/frame_codec.hpp:237-244 | errors within any sixteen consecutive covered bits are always rejected |
| ErrorDetection.BurstAcrossCrc | common/include/apogee/frame_codec.hpp:190-194 | across the last covered byte and the low CRC byte exactly the change 0x89, 0xA1 escapes |
| ErrorDetection.BurstDetection | common/include/apogee/frame_codec.hpp:190-244 | any change of one or two adjacent bytes, anywhere in a frame, is rejected with that one exception |
| BitErrors.PowersDiffer | common/include/apogee/frame_codec.hpp:79-83 | the powers of x modulo the generator differ over the 592 bits of the longest frame |
| BitErrors.FlippedMeans | common/include/apogee/frame_codec.hpp:199-254 | flipping listed bits changes exactly those |
| BitErrors.CrcMissesExactlyWhen | common/include/apogee/frame_codec.hpp:237-244 | flipped bits behind the sync pair escape the CRC exactly if their powers of x add up to zero, the stored CRC read low byte first, and are accepted exactly if the header checks pass as well |
| BitErrors.FewErrorsAreCaught | common/include/apogee/frame_codec.hpp:199-244 | any one, two or three flipped bits anywhere in a frame make it undecodable |
| BitErrors.FourErrorsEscape | common/include/apogee/frame_codec.hpp:190-194 | in every frame four flipped bits leave another frame |
| FrameStreamDecoder.Decoder.PushBytes | common/include/apogee/frame_stream_decoder.hpp:29-35 | the events and the new buffer are those of feeding the bytes one after the other |
| FrameStreamDecoder.Decoder.PushByte | common/include/apogee/frame_stream_decoder.hpp:57-82 | hunting for the sync pair, then buffering and processing, as the value function says |
| FrameStreamDecoder.Decoder.ProcessBuffer | common/include/apogee/frame_stream_decoder.hpp:84-135 | the loop terminates and settles everything that can be settled |
| FrameStreamDecoder.Decoder.Turn | common/include/apogee/frame_stream_decoder.hpp:86-134 | one turn of that loop settles one verdict and shrinks the buffer or stops |
| FrameStreamDecoder.Decoder.RejectBuffer | common/include/apogee/frame_stream_decoder.hpp:137-145 | reports the whole buffer, then drops up to the next candidate |
| FrameStreamDecoder.Decoder.Rescan | common/include/apogee/frame_stream_decoder.hpp:147-171 | keeps the buffer from the next candidate after its first byte on |
| FrameStreamDecoder.Decoder.TakeFrame | common/include/apogee/frame_stream_decoder.hpp:118-130 | hands over exactly the frame's bytes and realigns the rest |
| FrameStreamDecoder.Decoder.AlignToSync | common/include/apogee/frame_stream_decoder.hpp:173-206 | keeps the rest from its first candidate on and reports the bytes before it |
| FrameStreamDecoder.Decoder.Finish | common/include/apogee/frame_stream_decoder.hpp:37-50 | reports a non-empty buffer as truncated and empties it |
| StreamMachine.FeedConcat | common/include/apogee/frame_stream_decoder.hpp:29-35 | how the input is cut into chunks makes no difference |
| StreamMachine.FeedConserves | common/include/apogee/frame_stream_decoder.hpp:57-220 | old buffer and input equal the settled spans in order followed by the new buffer |
| StreamMachine.SettledMeans | common/include/apogee/frame_stream_decoder.hpp:57-106 | between pushes the buffer is exactly a sync-prefixed piece shorter than the frame it announces |
| StreamMachine.FeedIsProper | common/include/apogee/frame_stream_decoder.hpp:84-171 | accepted spans decode, dropped spans are at least two bytes, only four rejection reasons occur |
| BatchScanner.ProcessIsScan | common/include/apogee/frame_stream_decoder.hpp:84-135 | processing a buffer is scanning the input from where the buffer starts |
| BatchScanner.ScanExtends | common/include/apogee/frame_stream_decoder.hpp:84-171 | more input never changes a decision, it only adds to them |
| BatchScanner.StreamIsScan | common/include/apogee/frame_stream_decoder.hpp:57-206 | frames, rejections, their positions and the buffer are those of the batch scan |
| BatchScanner.HandlerSeesScan | common/include/apogee/frame_stream_decoder.hpp:57-206 | the frames and rejections reported to the handler are the scan's, in order |
| StreamGuarantees.DecisionsAreSound | common/include/apogee/frame_stream_decoder.hpp:84-171 | every decision is at a sync pair and right for it; decisions are ordered and disjoint |
| StreamGuarantees.EverySyncPairIsDecided | common/include/apogee/frame_stream_decoder.hpp:84-206 | no sync pair is skipped except inside an accepted frame |
| StreamGuarantees.RecoveryIsBounded | common/include/apogee/frame_stream_decoder.hpp:85-206 | a valid frame is delivered within 76 bytes of its start unless an earlier frame covers it |
| StreamGuarantees.DeliveredFramesWereSent | common/include/apogee/frame_stream_decoder.hpp:108-122 | every delivered frame stands in the input where it was found |
| StreamGuarantees.DeliveredOnceSettled | common/include/apogee/frame_stream_decoder.hpp:84-206 | a valid frame has been delivered exactly if its start is settled and no other frame reaches over it |
| StreamGuarantees.DecidedExactlyWhen | common/include/apogee/frame_stream_decoder.hpp:84-206 | from the input alone: a frame or rejection is reported exactly at a position that no earlier reached one holds back, and as the bytes there call for |
| StreamGuarantees.DeliveredExactlyWhen | common/include/apogee/frame_stream_decoder.hpp:37-50 | from the input alone: a valid frame is delivered by the end of the stream exactly if no earlier reached position frames over it or still waits |
| StreamGuarantees.BufferedExactlyWhen | common/include/apogee/frame_stream_decoder.hpp:37-50 | from the input alone: the bytes left at the end are those from the one reached position that still waits |
| StreamGuarantees.FrameLostAtEnd | common/include/apogee/frame_stream_decoder.hpp:37-50 | a whole frame behind an unfinished header is never delivered |
| StreamGuarantees.EmptyNoiseExactlyWhen | common/include/apogee/frame_stream_decoder.hpp:173-206 | a push reports noise of zero bytes exactly when 0xA5 arrives right behind a frame that a rejected header had kept waiting |
| StreamGuarantees.EmptyNoiseOccurs | common/include/apogee/frame_stream_decoder.hpp:198-201 | that report is reached behind every frame of at most 69 bytes |
| StreamGuarantees.BytesAreAccountedFor | common/include/apogee/frame_stream_decoder.hpp:57-220 | noise, frame, dropped and buffered bytes add up to the input, with the bound on their counts |
| StreamGuarantees.DeliveryThroughNoise | common/include/apogee/frame_stream_decoder.hpp:58-134 | frames between sync-free gaps are all delivered, nothing is rejected, and exactly the gaps are noise or buffered |
| StreamReports.ReportedIsNoise | common/include/apogee/frame_stream_decoder.hpp:57-220 | the counts in the noise events add up to the bytes settled as noise, for every run of spans |
| StreamReports.ReportsAccountForBytes | common/include/apogee/frame_stream_decoder.hpp:57-220 | reported noise, delivered frames, dropped bytes and buffer add up to the input |
| StreamReports.GapsAreReported | common/include/apogee/frame_stream_decoder.hpp:58-134 | between sync-free gaps the handler gets every frame and no rejection, and the noise it is told of and the buffer are exactly the gaps |
| StreamReports.RejectedExactlyWhen | common/include/apogee/frame_stream_decoder.hpp:84-145 | every rejection and its reason from the input alone: oversized length, then wrong version, unknown type, wrong CRC of complete bytes |
| StreamReports.DamageIsReported | common/include/apogee/frame_stream_decoder.hpp:108-115 | a frame damaged behind its header, where the decoder comes to it, is rejected for its CRC |
| StreamReports.RejectionsHandOverBuffer | common/include/apogee/frame_stream_decoder.hpp:137-145 | every rejection hands over all bytes held at its moment, from the failed candidate on |
| StreamReports.DecodeStream | common/include/apogee/frame_stream_decoder.hpp:29-50 | the object fed a whole stream and finished: its events, and the undecided rest reported truncated |
| FlightMode.StateMachine.Dispatch | common/include/apogee/flight_mode.hpp:28-52 | the transition table, and true exactly when the mode moved |
| FlightMode.MovesExactlyWhen | common/include/apogee/flight_mode.hpp:28-52 | the four moves between modes, and no other |
| Telemetry.Collector.Capture | common/include/apogee/telemetry.hpp:28-38 | the snapshot carries the current number, which then advances modulo 2^32 |
| Telemetry.SimulatedSensorSource.Read | common/include/apogee/sensor_source.hpp:16-23 | the n-th read returns sample n modulo 8 |
| Telemetry.SampleCycle | tests/host/sensor_source_test.cpp:15-42 | the eight samples by value, and round again |
| Health.Evaluate | common/include/apogee/health.hpp:42-60 | the report built up bit by bit is the specified one |
| Health.Evaluated | common/include/apogee/health.hpp:42-60 | healthy exactly within the limits, each bit for its own limit, no unknown bit |
| Health.FaultBits | common/include/apogee/health.hpp:9-60 | bit values and limits in plain numbers, no other bit |
| FaultManager.Manager.Update | common/include/apogee/fault_manager.hpp:18-46 | new mask, streak, faulted flag and event |
| FaultManager.FaultedExactlyWhen | common/include/apogee/fault_manager.hpp:15-46 | faulted exactly if a fault was ever there and fewer than three healthy reports followed, for both initial values |
| FaultManager.EventExactlyWhen | common/include/apogee/fault_manager.hpp:18-46 | which event a report raises, from the reports alone |
| FaultManager.EventsAlternate | common/include/apogee/fault_manager.hpp:18-46 | FaultDetected and HealthConfirmed strictly alternate |
| FaultManager.LatchedIsUnion | common/include/apogee/fault_manager.hpp:20-42 | the latched mask is the union of all reports since the last HealthConfirmed |
| FaultManager.LatchedBitExactlyWhen | common/include/apogee/fault_manager.hpp:20-42 | a bit is latched exactly if some report since the last HealthConfirmed had it set, for every bit and both initial values |
| TelemetryCodec.EncodeTelemetry | common/include/apogee/telemetry_codec.hpp:159-197 | the payload-filling encoder returns the specified frame or the first failing check |
| TelemetryCodec.DecodeTelemetry | common/include/apogee/telemetry_codec.hpp:199-239 | the decoder returns the specified message or the first failing check |
| TelemetryCodec.TemperatureInverse | common/include/apogee/telemetry_codec.hpp:148-155 | two's complement storage and reading of temperatures are inverse |
| TelemetryCodec.EncodeTelemetrySucceedsWhen | common/include/apogee/telemetry_codec.hpp:159-196 | encoding succeeds exactly for a valid mode and known fault bits |
| TelemetryCodec.EncodeTelemetryThenDecode | common/include/apogee/telemetry_codec.hpp:159-239 | every encodable message comes back unchanged |
| TelemetryCodec.DecodeTelemetryThenEncode | common/include/apogee/telemetry_codec.hpp:199-239 | an accepted frame is encoded back to itself exactly when its type byte is 0x01 |
| TelemetryCodec.OtherTypesAreRead | common/include/apogee/telemetry_codec.hpp:199-211 | every message in a frame of another known type is read all the same, and not encoded back to it |
| WireFormat.TelemetryWire | common/include/apogee/telemetry_codec.hpp:159-197 | all 31 bytes of a telemetry message, the temperature in two's complement |
| WireFormat.TelemetryRead | common/include/apogee/telemetry_codec.hpp:199-239 | every field of an understood telemetry frame from its place, whatever the frame's type |
| WireFormat.TelemetryEncodeFailsExactlyWhen | common/include/apogee/telemetry_codec.hpp:159-172 | unknown mode first, then a fault mask of 8 or more |
| WireFormat.TelemetryDecodeFailsExactlyWhen | common/include/apogee/telemetry_codec.hpp:199-239 | each reason for not understanding a telemetry frame, exactly when it is given |
| CommandCodec.EncodeCommand | common/include/apogee/command_codec.hpp:203-229 | the encoder returns the specified frame or failure |
| CommandCodec.DecodeCommand | common/include/apogee/command_codec.hpp:231-268 | the decoder returns the specified command or the first failing check |
| CommandCodec.EncodeAck | common/include/apogee/command_codec.hpp:270-298 | the encoder returns the specified frame or failure |
| CommandCodec.DecodeAck | common/include/apogee/command_codec.hpp:300-330 | the decoder returns the specified acknowledgement or the first failing check |
| CommandCodec.EncodeCommandThenDecode | common/include/apogee/command_codec.hpp:203-268 | every known command encodes and comes back, its period zero unless it sets one |
| CommandCodec.DecodeCommandThenEncode | common/include/apogee/command_codec.hpp:203-268 | every accepted command frame is encoded back to itself |
| CommandCodec.EncodeAckThenDecode | common/include/apogee/command_codec.hpp:270-330 | every known acknowledgement encodes and comes back |
| CommandCodec.DecodeAckThenEncode | common/include/apogee/command_codec.hpp:270-330 | every accepted acknowledgement frame is encoded back to itself |
| WireFormat.CommandWire | common/include/apogee/command_codec.hpp:203-229 | all bytes of a command, by position and value |
| WireFormat.CommandRead | common/include/apogee/command_codec.hpp:231-268 | every field of an understood command from its place, no argument unless it takes one |
| WireFormat.CommandDecodeFailsExactlyWhen | common/include/apogee/command_codec.hpp:231-268 | each reason for not understanding a command frame, exactly when it is given |
| WireFormat.AckWire | common/include/apogee/command_codec.hpp:270-298 | all fourteen bytes of an acknowledgement, by position and value |
| WireFormat.AckRead | common/include/apogee/command_codec.hpp:300-330 | every field of an understood acknowledgement from its place |
| WireFormat.AckDecodeFailsExactlyWhen | common/include/apogee/command_codec.hpp:300-330 | each reason for not understanding an acknowledgement frame, exactly when it is given |
| WireFormat.CommandEncodeFailsExactlyWhen | common/include/apogee/command_codec.hpp:203-298 | only unknown identifiers keep a command or an acknowledgement from being sent |
| CommandProcessor.Processor.Process | common/include/apogee/command_processor.hpp:15-32 | answer, mode and period after a command |
| CommandProcessor.Processor.RequestSafeMode | common/include/apogee/command_processor.hpp:35-47 | accepted in Safe and Nominal only, and moves Nominal to Safe |
| CommandProcessor.Processor.ChangePeriod | common/include/apogee/command_processor.hpp:49-58 | accepted exactly from 250 to 10000 ms, otherwise nothing changes |
| CommandProcessor.StatusExactlyWhen | common/include/apogee/command_processor.hpp:15-58 | each status, exactly when it is answered, in every mode |
| GroundClient.GroundStreamProcessor.FeedBytes | host/include/apogee/ground_client.hpp:132-136 | printed lines and complaints are those of the decoder's events, in order |
| GroundClient.GroundStreamProcessor.FinishStream | host/include/apogee/ground_client.hpp:138-142 | a leftover buffer is complained about, nothing else changes |
| GroundClient.GroundStreamProcessor.HandleEvent | host/include/apogee/ground_client.hpp:153-180 | one event prints one message or raises the flag with one complaint |
| GroundClient.GroundStreamProcessor.PrintTelemetry | host/include/apogee/ground_client.hpp:182-202 | a decodable telemetry frame is printed and counted, another one flagged |
| GroundClient.GroundStreamProcessor.PrintAck | host/include/apogee/ground_client.hpp:204-217 | a decodable acknowledgement is printed and counted, another one flagged |
| GroundClient.CommandSequencer.MakeCommand | host/include/apogee/ground_client.hpp:79-84 | commands are numbered consecutively modulo 2^32 |
| CleanStreams.PrintedExactlyWhenSent | host/include/apogee/ground_client.hpp:159-217 | a message is printed for exactly the frame it is sent as |
| CleanStreams.CleanExactlyWhen | host/include/apogee/ground_client.hpp:132-235 | no complaint exactly for messages sent back to back, and then those are printed |
| CleanStreams.FramesAreNeverMalformed | host/include/apogee/ground_client.hpp:161-166 | the malformed-frame branch is unreachable on every input |
| GroundReports.ComplaintsExactlyWhen | host/include/apogee/ground_client.hpp:132-235 | for every input all complaints in order, told from the decisions and the bytes of the delivered frames, and how many noise bytes are complained about |
| CleanStreams.RunOffline | host/apogee_ground_client.cpp:106-128 | exit status zero exactly for a non-empty file of messages back to back, however it is read |
| FlightLoop.CatchUp | flight/src/main.cpp:238-241 | the next deadline lies after now, at least one period on, and not a period too far |
| FlightComputer.Computer.constructor | flight/src/main.cpp:112-128 | the state in which the loop is entered, on parts of its own |
| FlightComputer.Computer.LoopOnce | flight/src/main.cpp:131-245 | one loop turn is its commands, then one look at the deadline, and transmits what they send |
| FlightComputer.Computer.HandleEvents | flight/src/main.cpp:132-189 | every command in the events is one step, with the next clock reading |
| FlightComputer.Computer.HandleEvent | flight/src/main.cpp:133-188 | only a frame that decodes as a command has an effect |
| FlightComputer.Computer.PollTelemetry | flight/src/main.cpp:191-242 | a due poll takes one reading and sends one snapshot; another changes nothing |
| FlightComputer.Computer.AdvanceDeadline | flight/src/main.cpp:238-241 | the do-while loop computes the caught-up deadline |
| FlightHistory.FaultsFollowReports | flight/src/main.cpp:193-204 | the fault manager has seen exactly the reports of the ticks |
| FlightHistory.ModeExactlyWhen | flight/src/main.cpp:112-204 | never Boot; Nominal exactly if three healthy readings in a row were followed by healthy readings only and no EnterSafeMode |
| FlightHistory.CommandedSafeEndsAfterFault | common/include/apogee/command_processor.hpp:35-47 | a commanded Safe mode ends only after a new fault and, behind it, a third healthy reading in a row |
| FlightHistory.DeadlineInvariant | flight/src/main.cpp:126-241 | period allowed, 250 times ticks at most deadline minus period minus start, deadline at most clock plus period |
| FlightHistory.TelemetryRateBound | flight/src/main.cpp:126-241 | at most one tick per 250 ms since boot over every run |
| FlightHistory.CatchUpKeepsPhase | flight/src/main.cpp:238-241 | the deadline advances by a positive whole number of periods |
| TelemetryPacing.TelemetryRateFloor | flight/src/main.cpp:191-241 | while the period is left alone and the deadline is looked at every d ms, at most a period and d passes per tick |
| TelemetryPacing.TickIsForced | flight/src/main.cpp:191-241 | so a tick comes within a period and d ms of any moment |
| TelemetryPacing.TickComesExactlyWhen | flight/src/main.cpp:155-241 | between any two moments of any run a tick comes exactly if a poll comes at or after the deadline due by then: that of the last accepted period change, or the one in force before; without a tick that deadline stands |
| TelemetryPacing.ScheduleIsKept | flight/src/main.cpp:191-241 | while the period is left alone and the deadline is looked at at least once a period, there is exactly one tick per period of the absolute schedule, up to the last look |
| TelemetryPacing.TickIsPostponed | flight/src/main.cpp:155-241 | no schedule whose every poll comes within 250 ms of some accepted period change has a tick, whatever the periods |
| TelemetryPacing.PostponementIsUnbounded | flight/src/main.cpp:155-241 | such schedules exist at every spacing below 250 ms and of every length |
| FlightHistory.SequenceCountsTicks | common/include/apogee/telemetry.hpp:28-38 | the next number is the tick count modulo 2^32 |
| FlightHistory.TickIsEncoded | flight/src/main.cpp:206-222 | in every reachable state the tick's message encodes and is what is sent |
| FlightHistory.EveryTickIsReported | flight/src/main.cpp:206-222 | the frame decodes to number, time, readings, mode and latched faults of its tick |
| FlightHistory.EveryCommandIsAnswered | flight/src/main.cpp:154-187 | a known command is answered by one frame that decodes to its acknowledgement |
| FlightHistory.AnswerExactlyWhen | flight/src/main.cpp:154-187 | in every reachable state the one frame sent decodes to the command's number and identifier, InvalidArgument for a period outside 250 to 10000 ms and Accepted otherwise |
| FlightHistory.PeriodExactlyWhen | common/include/apogee/command_processor.hpp:49-58 | the period in force is the last one asked for within range, 1000 ms before any |
| FlightHistory.ModeAfterTick | flight/src/main.cpp:192-204 | after a tick the mode is Nominal on the third healthy reading in a row, unchanged on a later one, and Safe otherwise |
| FlightHistory.SimulatedCycle | common/include/apogee/sensor_source.hpp:16-36 | Nominal right after ticks 7 modulo 8, Safe right after ticks 3 to 6 modulo 8, unchanged by ticks 0 to 2 modulo 8 after the first three, whatever commands arrive |
| Mission.MissionIsRun | flight/src/main.cpp:131-245 | any number of loop turns is one run of steps from boot |
| Mission.Fly | flight/src/main.cpp:105-245 | the objects, built and run for any number of loop turns, end in the mission's state and transmit its downlink |
| Mission.MissionRateBound | flight/src/main.cpp:131-245 | the rate bound for every mission with a clock that never goes back |
| Mission.MissionIsSimulated | flight/src/main.cpp:192-193 | the loop reads the simulated samples in order, one per tick |
| Mission.MissionCycle | flight/src/main.cpp:191-204 | right after a loop turn that took sample n the mode follows the eight-sample cycle, whatever was received |
| Mission.OrdersAreReceived | flight/src/main.cpp:42-53 | the executed commands are those of the received stream, in order, however it is cut |
| Mission.ReportIsOnWire | flight/src/main.cpp:177-222 | what is transmitted is the acknowledgements and telemetry messages back to back |
| Mission.AcksAnswerOrders | flight/src/main.cpp:154-187 | acknowledgements and executed commands correspond one to one, in order, with the status each command deserves |
| Mission.GroundSeesTheMission | flight/src/main.cpp:131-245 | the ground never complains about the downlink and prints one acknowledgement per received command |
| Mission.UplinkArrives | host/apogee_ground_client.cpp:211-216 | commands sent back to back arrive one by one |
| Mission.SendCommands | host/apogee_ground_client.cpp:201-224 | the commands made of the operator's lines, numbered from one, and their frames back to back |
| Mission.CommandsAreAcknowledged | flight/src/main.cpp:131-189 | every command sent by the ground is acknowledged once, in order, under its own number, accepted unless its period is out of range |
| Mission.FlyAndDecode | host/apogee_ground_client.cpp:99-128 | everything a flight transmits, decoded offline, is the flight's report, without complaint |

## Left out

- FlightComputer.Computer.LoopOnce: the bytes drained in one turn are decoded first and their events handled afterwards; the program handles each event as it occurs, which makes no difference because no handler touches the decoder.
- Mission.Fly: the program loops for ever; the model runs for as many turns as it is given chunks, and its theorems hold for every number of turns.
- GroundClient.CommandSequencer.MakeCommand: only the numbering; splitting and trimming the typed line and reading its number are library text handling.
- Mission.SendCommands: starts from lines already parsed, which name known commands only; the sending loop's socket errors are not modelled.
- Telemetry link, UART polling, device readiness, sleeping and logging: foreign calls. Received bytes, clock readings and transmitted frames are inputs and outputs of the loop turn, and the link counts as ready.
- The clock: readings come from a function of their position. Only the rate bound assumes that it never goes back, and 64-bit overflow of milliseconds is not modelled.
- Sockets, poll, file access and argument handling of the ground client: operating-system calls. Only the read loop and exit status of offline decoding are modelled, on chunks that are given.
- Output text and name tables: a printed line is its decoded message, an error line its kind.
- `SensorSource` as an interface: theorems over arbitrary readings cover any source; the loop uses the simulated one.
- Array contents beyond the used length of an encoded frame or the decoder's buffer: never read.
