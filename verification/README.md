# OpenDisplay receiver: verified model

The receiver takes a TCP stream from a sender, cuts it into messages, hands H.264
access units to an ffmpeg child and gets raw frames back, while a session state machine
decides which socket is live, where the remote cursor is and how the two clocks differ.
This project models that path in Dafny and proves what it keeps over every input, every
chunking and every interleaving.

`dafny verify dfyconfig.toml` checks everything.

## How it is organised

| files | what they model |
|---|---|
| `Common` | bytes, optional values, sizes, the C++ operators `/`, `%` and 32-bit wrap-around |
| `Rbsp`, `Bits`, `ExpGolomb`, `BitStream`, `Sps`, `SpsTheorems`, `SpsParser` | the SPS parser (`src/h264_sps.cpp`) and its inverse, the printer in `tests/h264_sps_tests.cpp` followed by the escaping of H.264 section 7.3.1 |
| `AnnexB`, `Telemetry`, `VideoFrames` | start codes, splitting, the telemetry prefix, `annexb::parse` |
| `Wire`, `Demux` | length-prefixed framing and the receiver's read loop |
| `AccessUnits`, `FakeSender`, `EndToEnd` | the streaming splitter of `tools/fake_sender.py`, and encoder output followed all the way to the receiver's dispatch |
| `Decoder`, `DecoderQueue`, `DecoderReader`, `DecoderPipeline`, `DecoderSafety`, `DecoderTheorems`, `DecoderProgress` | the decoder's shared state, its queue over whole runs, its reader loop, and all four parties (submitter, writer, child, reader) as one state machine |
| `Session`, `SessionTheorems`, `Cursors`, `ClockSync`, `LatencyStats` | connections and what each is sent, the cursor's sequence floor, the clock offset, the latency percentiles |

Two forms recur. A *function* says what a piece of code computes, as a whole; a *method*
or a *class* does it the way the source does, with its loops and field updates, and is
proved equal to the function. The lemmas are about the functions, so they hold of both; they
state what the standard or the protocol demands in its own terms and numbers, not through the
tables and tests of the code they speak of.
Printers take the bits that follow (`Print(s, rest)`) and readers return the bits that
are left, so "consumes exactly what was printed, whatever follows" is one equation.

`DecoderPipeline.State` and `Session.State` carry histories the program does not keep
(which frames were written, which bytes a child has put out, what every socket was
sent); their `Step` functions are one critical section or one signal handler each.
The child's contract, from `include/opendisplay/ffmpeg_decoder.hpp:22-28`, is a guard of
the steps `Submit` and `Emit`: each access unit written decodes to one frame of the
recorded size, and frames come out in order.

## Where the code departs from its stated intent

The model follows the code. Where a promise can fail, a lemma says exactly when it holds,
and another gives a run or an input on which it fails.

- **The record is pushed after the write** (`src/ffmpeg_decoder.cpp:250`, `261-264`). A
  fast child can have its first bytes read before the record exists; a reader that looks
  before the push then clears its buffer. `DeliveredFramesAreInOrder` says that order, size
  and capture time survive in any case. `NothingIsLostIffInTime` is the condition on the
  run: no child ever loses a byte if and only if every look that finds no record comes when
  no byte of an unrecorded frame has been read; `DeliveredFramesAreTheirOwn` adds that
  every frame then has its own pixels. `RecordsFirstIsInTime`: pushing each record before
  its frame's first byte is read is enough. `RaceMistagsAFrame` gives the run in which
  frame 0 is delivered with frame 1's pixels.
- **The restart request** makes the writer lock a mutex it holds
  (`src/ffmpeg_decoder.cpp:225-238`, `214-217`; `TakeNext` has that turn).
  `RestartNeededIffNoSize`: it can be raised if and only if no SPS was parsed before the
  decoder started and the announced panel has no area. `panel_` starts as 0x0
  (`include/opendisplay/receiver_session.hpp`); `setPanel` refuses such a size afterwards,
  and a size once known survives every restart.
- **Proving handlers stay connected** (`src/receiver_session.cpp:252-268`). After a socket
  has superseded another, its next read is swallowed and the live socket is scheduled
  for deletion: `SupersederLosesItsNextRead`; `ReadReachesDeframerIff` is the exact
  condition under which a read reaches the deframer.
- **A proof need not frame** (`src/receiver_session.cpp:258-263`, `346-348`): the first bytes
  of a pending socket end the live session even if they are no protocol at all, and then
  nobody is live: `MalformedProofLeavesNobody`, with all the ways to end in
  `LiveSessionEndsIff`.
- **The guard of `sendScroll` is inverted** (`src/receiver_session.cpp:228-233`): no
  scroll is ever sent (`StepSpoken`).
- **The fake sender's units depend on the encoder's chunks** (`tools/fake_sender.py:214-224`),
  although the comment calls them complete access units.
  `EmittedAreAccessUnitsIff`: every unit emitted is a complete access unit of the stream if
  and only if every emission, the last one included, stopped between two access units.
  `ChunkingSplitsAnAccessUnit` and `LastEmissionSplitsAnAccessUnit` are families on which
  that fails, the second with a single chunk. What the receiver gets is the same list of
  NAL units in any case (`NothingIsLost`, `EncoderOutputArrives`); a keyframe request costs
  the buffered tail, one NAL unit at most (`RestartLosesTheTailOnly`).
- **`se` overflows at the top of its range** (`src/h264_sps.cpp:70`) and `ue` reduces to 32
  bits; `SeInverts` and `UeInverts` give the exact ranges.

Two more departures are choices of the model and have no lemma of their own. The shifts of
a signed `int` in `BitReader::u` and `ue` get their two's complement meaning on overflow.
Drops are counted and never reported through `onError_`, although
`include/opendisplay/ffmpeg_decoder.hpp:30-32` says they are; the model counts them.

## Model

| member | source | states |
|---|---|---|
| Rbsp.StripEmulationPrevention | src/h264_sps.cpp:23-38 | the loop drops exactly the 03 bytes that follow two kept zeros, and the header byte |
| Rbsp.StripInvertsEscape | src/h264_sps.cpp:23-38 | stripping inverts the encoder's escaping for every byte string |
| Rbsp.StripAppend | src/h264_sps.cpp:27-36 | more input only adds to the output; what is kept of a prefix never changes |
| Rbsp.EscapeIsSafe | src/h264_sps.cpp:28-36 | an escaped payload nowhere has two zeros followed by 00, 01 or 02, carried zeros included |
| Bits.UAt | tests/h264_sps_tests.cpp:33-37 | position k of the n bits written is bit n-1-k of the value |
| Bits.BitsOfAt | src/h264_sps.cpp:74-81 | bit i of a byte string is bit 7 - i % 8 of byte i / 8 |
| Bits.UInvertsValue | tests/h264_sps_tests.cpp:56-58 | the value of a group of bits, written again, is that group |
| Bits.PackInverts | tests/h264_sps_tests.cpp:49-61 | the packed bytes, read bit by bit, are the padded bits |
| BitStream.BitReader.Bit | src/h264_sps.cpp:74-82 | one bit of what remains is consumed; throws exactly at the end |
| BitStream.BitReader.U | src/h264_sps.cpp:44-50 | value, throw and position are those of the suffix reader ReadU |
| BitStream.BitReader.Ue | src/h264_sps.cpp:52-65 | value, throw (33rd zero or end of data) and position are those of ReadUe |
| BitStream.BitReader.Se | src/h264_sps.cpp:67-71 | as Ue, through the signed mapping with C++ division |
| BitStream.SpsBitWriter.PutU | tests/h264_sps_tests.cpp:33-37 | appends exactly the n bits, most significant first |
| BitStream.SpsBitWriter.PutUe | tests/h264_sps_tests.cpp:39-45 | appends exactly the ue(v) codeword |
| BitStream.SpsBitWriter.PutSe | tests/h264_sps_tests.cpp:46-48 | appends exactly the se(v) codeword |
| BitStream.SpsBitWriter.ToBytes | tests/h264_sps_tests.cpp:49-61 | the bytes' bits are the bits written, padded with zeros to a byte |
| ExpGolomb.UeReadsBack | src/h264_sps.cpp:52-65 | for every code number and whatever follows: exactly the codeword is consumed; the value is reduced to 32 bits; more than 32 zeros throw |
| ExpGolomb.UeInverts | src/h264_sps.cpp:52-65 | ue inverts the printer if and only if the value fits an int |
| ExpGolomb.SeInverts | src/h264_sps.cpp:67-71 | se inverts the printer if and only if the code number is below INT32_MAX |
| ExpGolomb.UeExtends | src/h264_sps.cpp:52-65 | a ue that succeeds is unchanged by any further bits |
| ExpGolomb.SeExtends | src/h264_sps.cpp:67-71 | the same of se |
| Sps.ParseSpsDimensions | src/h264_sps.cpp:103-180 | total on all byte strings; a size that comes back is positive and fits an int |
| SpsTheorems.NextScaleIsStandard | src/h264_sps.cpp:93 | on legal deltas the truncating C++ remainder is the modulus of section 7.3.2.1.1.1 |
| SpsTheorems.ScalingListReadsBack | src/h264_sps.cpp:88-99 | an encoded scaling list of any size is consumed exactly, whatever follows |
| SpsTheorems.MatrixReadsBack | src/h264_sps.cpp:123-130 | a whole scaling matrix, absent lists included, is consumed exactly |
| SpsTheorems.ChromaProfiles | src/h264_sps.cpp:9-19 | the table of profiles is the condition of section 7.3.2.1.1, neither more nor less |
| SpsTheorems.ChromaReadsBack | src/h264_sps.cpp:114-131 | the chroma block, sent by the profiles the standard names and by no other, is consumed exactly and its format recovered |
| SpsTheorems.PocReadsBack | src/h264_sps.cpp:133-144 | all three picture order count types are consumed exactly |
| SpsTheorems.GeometryReadsBack | src/h264_sps.cpp:148-162 | dimensions, field flag and cropping come back exactly |
| SpsTheorems.CropUnitsIgnoreColourPlanes | src/h264_sps.cpp:117-119 | discarding separate_colour_plane_flag never changes the crop units of equations 7-19 to 7-22 |
| SpsTheorems.CodedSizeIsStandard | src/h264_sps.cpp:164-172 | the 32-bit arithmetic yields the cropped size of section 7.4.2.1.1 in unbounded integers |
| SpsTheorems.RecordReadsBack | src/h264_sps.cpp:109-172 | reading a printed record consumes it exactly and yields that size |
| SpsTheorems.RecordExtends | src/h264_sps.cpp:109-172 | a record read successfully is read the same in front of any further bits |
| SpsTheorems.ParsesEveryRecord | src/h264_sps.cpp:103-180 | print, pack, escape, prefix a header byte, parse: every well-formed record gives its section 7.4.2.1.1 size, or none when that is not positive |
| SpsTheorems.ParseIgnoresTrailingBytes | src/h264_sps.cpp:103-180 | bytes after a readable SPS change neither the size nor its refusal |
| SpsTheorems.ParseSuccessIsStable | src/h264_sps.cpp:103-180 | a success is unchanged by appending any bytes |
| SpsParser.SkipList | src/h264_sps.cpp:88-99 | the loop over one BitReader consumes and throws as the specification does |
| SpsParser.SkipMatrix | src/h264_sps.cpp:124-129 | the same of the list loop |
| SpsParser.FindProfile | src/h264_sps.cpp:12-19 | the search finds exactly the profiles of the table |
| SpsParser.ReadChromaBlock | src/h264_sps.cpp:114-131 | the same of the chroma block |
| SpsParser.SkipOffsets | src/h264_sps.cpp:140-143 | the same of the cycle loop, whose bound may be negative |
| SpsParser.ReadPocBlock | src/h264_sps.cpp:134-144 | the same of the picture order count |
| SpsParser.ReadGeometryBlock | src/h264_sps.cpp:148-162 | the same of dimensions and cropping |
| SpsParser.ReadRecord | src/h264_sps.cpp:109-172 | the same of the whole record |
| SpsParser.ParseDimensions | src/h264_sps.cpp:103-180 | the stateful parser is ParseSpsDimensions, caught exceptions included |
| AnnexB.FindStartCode | src/annexb.cpp:44-52 | the first position of 00 00 00 01 at or after `from`, or none |
| AnnexB.SplitNalus | src/annexb.cpp:54-76 | the loop yields the recursive split of the stream |
| AnnexB.NoStraddle | src/annexb.cpp:44-52 | no start code straddles a cut made in front of a start code |
| AnnexB.SplitAppend | src/annexb.cpp:54-76 | cutting a stream in front of a start code cuts its list of NAL units |
| AnnexB.SplitInvertsJoin | src/annexb.cpp:54-76 | any list of non-empty bodies without a start code, joined, is split back |
| AnnexB.EscapedHasNoCode | src/annexb.cpp:44-52 | an escaped NAL unit contains no start code, whatever its header byte |
| Telemetry.FindAt | src/annexb.cpp:20-24 | the position found is that of the first occurrence at or after `from`, and only that |
| Telemetry.ValueEndsAt | src/annexb.cpp:32-34 | the value ends at the first comma or brace, and only there |
| Telemetry.ValueBehind | src/annexb.cpp:24-36 | in any layout: the number behind the first colon, spaces skipped, up to a comma, a brace or the end; 0 where that is none |
| Telemetry.FieldWithoutKey | src/annexb.cpp:20-23 | a key that occurs nowhere reads as 0 |
| Telemetry.FieldWithoutColon | src/annexb.cpp:24-27 | a key without a colon behind it reads as 0 |
| Telemetry.StollReads | src/annexb.cpp:35-36 | white space, a sign or none, digits, anything: the signed number, or an exception outside 64 bits |
| Telemetry.StollThrows | src/annexb.cpp:35-39 | no digit where one is due is an exception |
| Telemetry.ReadField | src/annexb.cpp:19-40 | search, space skipping, delimiter and stoll with its exceptions agree with Field |
| Telemetry.FieldsReadBack | tools/fake_sender.py:219-222 | both timestamps printed by the sender, any non-negative values of 64 bits, are the ones read |
| VideoFrames.ParseFrame | src/annexb.cpp:78-101 | the method computes Parse |
| VideoFrames.Classify | src/annexb.cpp:88-99 | the loop finds the first SPS body, the first PPS body, and whether any unit has type 5 |
| VideoFrames.ParseInvertsJoin | src/annexb.cpp:78-101 | behind any NUL-free prefix the access unit comes out whole, with first SPS, first PPS and keyframe iff some type is 5 |
| VideoFrames.SplitRecoversEncoded | src/annexb.cpp:54-76 | escaped NAL units of any encoder are split back and each strips to its payload |
| Wire.FrameBytes | src/wire.cpp:7-16 | four big-endian length bytes, then the payload |
| Wire.BigEndianIsPositional | src/wire.cpp:8-13 | the header weighs 2^24, 2^16, 2^8 and 1 |
| Wire.DecodeInvertsBigEndian | src/wire.cpp:18-27 | a length comes back if it is 1 to 64 MiB - 1 and is refused otherwise |
| Wire.Deframer.Append | include/opendisplay/wire.hpp:40 | the buffer grows at its end |
| Wire.Deframer.Next | include/opendisplay/wire.hpp:45-62 | payload, failure and new buffer, in every case |
| Wire.DrainAppend | include/opendisplay/wire.hpp:45-62 | parsing a stream is parsing a prefix, then what it left over with the rest |
| Wire.AnyInterleaving | include/opendisplay/wire.hpp:38-69 | for any appends and calls of next in any order, payloads handed out and still buffered are the parse of the whole stream |
| Wire.DrainInvertsFrameAll | src/wire.cpp:7-27 | any payloads of 1 to 64 MiB - 1 bytes, framed and concatenated, are parsed back |
| Wire.BadLengthIsRefused | src/wire.cpp:23-25 | a length of 0 or of 64 MiB and more ends the stream, whatever follows |
| Wire.PartialFrameWaits | include/opendisplay/wire.hpp:47-58 | any part of a frame waits for the rest |
| Demux.OnReadyRead | src/receiver_session.cpp:334-371 | one read dispatches every complete payload, classified, in order; failure and rest are those of the parse |
| Demux.Receive | src/receiver_session.cpp:334-371 | any list of reads dispatches what one read of everything would; in particular, reads that carry the whole stream of some legal messages dispatch exactly those |
| Demux.ClassifiesSent | src/wire.cpp:29-32 | a legal control or video payload is classified as what it was sent as, with the same content |
| Demux.EveryPayloadHasItsClass | src/wire.cpp:29-32 | control if and only if 1 to 32767 bytes, a brace in front and no NUL; else skipped if and only if no start code is in it |
| Demux.StreamIsDeliveredInOrder | src/receiver_session.cpp:334-371 | any legal messages, any chunks, next() at any moments: always a prefix of the messages sent, no length refused, all of them in the end |
| Demux.PrefixOfStream | src/receiver_session.cpp:334-371 | the same of any prefix of the byte stream |
| AccessUnits.UnitsAreOk | tools/fake_sender.py:66-85 | grouping keeps all NAL units in order; each group has one slice at most and a delimiter only in front |
| AccessUnits.UnitsAreWellCut | tools/fake_sender.py:52-54 | a unit after the first begins with a delimiter, or with a slice where the one before has a slice: nothing is cut without a reason |
| AccessUnits.UnitsAreTheOnlyDivision | tools/fake_sender.py:66-85 | any division of the NAL units with these properties is the one the loop makes |
| AccessUnits.CutIsCleanIff | tools/fake_sender.py:69-84 | grouping both sides of a cut separately groups the whole if and only if the cut is at a boundary |
| FakeSender.GroupPieces | tools/fake_sender.py:66-85 | the loop with its flag computes the grouping |
| FakeSender.Forward | tools/fake_sender.py:200-224 | the buffering loop, restarts included, emits and retains what the specification says |
| FakeSender.NothingIsLost | tools/fake_sender.py:199-224 | for any chunking, NAL units emitted and those of the tail are the NAL units of the whole; the tail holds one at most; every unit is well formed |
| FakeSender.RestartLosesTheTailOnly | tools/fake_sender.py:203-208 | after any run, a restart loses the tail, one NAL unit at most, and nothing of the next encoder's output |
| FakeSender.EmittedAreAccessUnitsIff | tools/fake_sender.py:214-224 | the units emitted are complete access units of the stream, and with the tail's all of them, if and only if every emission, the last included, stopped at a boundary |
| FakeSender.LastEmissionSplitsAnAccessUnit | tools/fake_sender.py:214-224 | one access unit of two NAL units in a single chunk: the first leaves alone |
| FakeSender.ChunkingSplitsAnAccessUnit | tools/fake_sender.py:214-224 | one access unit cut between the start codes of two NAL units leaves as two units, uncut as one |
| FakeSender.EmittedBytesSplitBack | tools/fake_sender.py:80-85 | the receiver splits any unit emitted into exactly its NAL units |
| EndToEnd.OneArrives | tools/fake_sender.py:218-223 | a unit sent with its times is dispatched as a video message with that unit's bytes and times |
| EndToEnd.EncoderOutputArrives | tools/fake_sender.py:200-224 | any chunking of the encoder and of the socket: one video message per unit emitted, and their NAL units with the tail's are the encoder's |
| EndToEnd.FrameHasOwnSize | src/ffmpeg_decoder.cpp:126-134 | a received frame carries the section 7.4.2.1.1 size of the SPS record it was sent with, and its capture time |
| EndToEnd.DeliveredFramesAreShownAsSent | src/ffmpeg_decoder.cpp:79-342 | pictures with printed and escaped SPS records, sent over the socket in any reads and decoded in any interleaving: each frame delivered has its picture's capture time and the size of the last record sent up to it, in order |
| Decoder.FrameBytesExact | src/ffmpeg_decoder.cpp:302-304 | the byte count of a positive size neither wraps nor vanishes |
| Decoder.FfmpegDecoder.Start | src/ffmpeg_decoder.cpp:62-77 | both queues empty, counters reset, the video size kept |
| Decoder.FfmpegDecoder.Stop | src/ffmpeg_decoder.cpp:106-112 | both queues emptied, nothing else |
| Decoder.FfmpegDecoder.SubmitFrame | src/ffmpeg_decoder.cpp:79-104 | queue, video size and drop count after a submit |
| Decoder.FfmpegDecoder.SizeForFrame | src/ffmpeg_decoder.cpp:126-136 | own SPS, else last known size, else the announced panel |
| Decoder.FfmpegDecoder.TakeNext | src/ffmpeg_decoder.cpp:224-244 | how a turn of the writer begins: finished, locked by itself on a restart request, blocked, or with the front of the queue |
| Decoder.FfmpegDecoder.Record | src/ffmpeg_decoder.cpp:261-264 | the record goes to the end of the in-flight queue |
| Decoder.FfmpegDecoder.ReadFrames | src/ffmpeg_decoder.cpp:289-339 | the inner loop yields ReadLoop's frames, buffer, records and restart flag |
| DecoderQueue.QueueOverWholeRuns | src/ffmpeg_decoder.cpp:79-104 | over any run: pending is the newest frames, four at most; submitted = dropped + dequeued + pending; dequeued positions increase; each size is the last parseable SPS so far, else the size kept from before, else the panel |
| DecoderQueue.DropsOnlyWhenFull | src/ffmpeg_decoder.cpp:97-101 | a submit drops the oldest frame, alone and counted, if and only if four are waiting |
| DecoderQueue.SizesArePositive | src/ffmpeg_decoder.cpp:126-136 | with a panel that has an area or a size known before, every queued size is positive and its byte count exact |
| DecoderReader.ReadLoopIsCut | src/ffmpeg_decoder.cpp:289-339 | one pass is the stream cut at the record sizes, and it discards exactly the bytes beyond all records |
| DecoderReader.UnsizedRecordThrowsAway | src/ffmpeg_decoder.cpp:305-320 | a record without a size throws the buffer and all such records at the front away, delivers nothing and asks for a restart |
| DecoderReader.CutConserves | src/ffmpeg_decoder.cpp:330-338 | frames, then what is left, are the stream |
| DecoderReader.CutResumes | src/ffmpeg_decoder.cpp:288-339 | cutting chunk by chunk is cutting the whole |
| DecoderReader.CutIgnoresLaterRecords | src/ffmpeg_decoder.cpp:261-264 | records pushed beyond the bytes read so far do not change their cut |
| DecoderReader.ReadAll | src/ffmpeg_decoder.cpp:277-341 | the outer loop over any reads, with any records pushed in between, is the iterated inner loop |
| DecoderReader.ReadsAreCutIffInStep | src/ffmpeg_decoder.cpp:277-341 | no byte is discarded if and only if at every read the records pushed announce the bytes read; then frames and rest are the whole stream cut at all record sizes, no byte lost, no restart |
| DecoderSafety.FramesStep | src/ffmpeg_decoder.cpp:79-104 | every step keeps queue, sizes and the child's contract |
| DecoderSafety.OrderStep | src/ffmpeg_decoder.cpp:220-275 | every step keeps delivered, owed and still queued frames in strictly increasing order |
| DecoderSafety.RecordsStep | src/ffmpeg_decoder.cpp:261-264 | every step keeps the in-flight records those of the frames recorded and not popped, in order |
| DecoderSafety.BufferStep | src/ffmpeg_decoder.cpp:280-339 | every step keeps the buffer the newest bytes read, beginning where the popped frames end, shifted by the bytes lost |
| DecoderSafety.DeliveriesStep | src/ffmpeg_decoder.cpp:324-338 | every step keeps each delivery's size, time and place right |
| DecoderSafety.RunKeeps | src/ffmpeg_decoder.cpp:220-342 | all of it over any interleaving, child restarts included |
| DecoderTheorems.DeliveredFramesAreInOrder | src/ffmpeg_decoder.cpp:220-342 | every interleaving: strictly increasing submission order, own size and capture time, cut at its own place shifted by the bytes its child lost; no restart request |
| DecoderTheorems.DiscardIffRecordIsMissing | src/ffmpeg_decoder.cpp:293-298 | clearing loses bytes if and only if no record is in flight while bytes beyond the recorded frames were read |
| DecoderTheorems.NothingIsLostIffInTime | src/ffmpeg_decoder.cpp:250-298 | over every run: no child ever loses a byte if and only if every look of the reader that finds no record comes before any byte of an unrecorded frame is read |
| DecoderTheorems.DeliveredFramesAreTheirOwn | src/ffmpeg_decoder.cpp:220-342 | in every such run each frame has its own access unit's size, time and pixels, in order |
| DecoderTheorems.RecordsFirstIsInTime | src/ffmpeg_decoder.cpp:261-264 | a run that pushes every record before its frame's first byte is read is such a run |
| DecoderTheorems.RaceMistagsAFrame | src/ffmpeg_decoder.cpp:250-264 | a legal run from the start delivers frame 0 with the pixels of frame 1 |
| DecoderTheorems.RestartNeededIffNoSize | src/ffmpeg_decoder.cpp:305-320 | from any start: a state with the restart flag set is reachable if and only if no size is known yet and the panel has no area |
| DecoderProgress.ReachableStatesProgress | src/ffmpeg_decoder.cpp:220-339 | in every reachable state the writer still deals with the frame dequeued last or a child has accepted it; a blocked reader holds less than the frame it waits for; a popped record means a delivered frame |
| DecoderProgress.EveryDequeuedFrameIsWritten | src/ffmpeg_decoder.cpp:242-259 | over every run, failed writes and restarts included: the frames dequeued are, in order and once each, those the children accepted and the one in hand |
| DecoderProgress.EveryFrameCanGetThrough | src/ffmpeg_decoder.cpp:79-339 | from any settled state any frame can be delivered as its own, whether its first write succeeds or fails, and everything settles again |
| DecoderProgress.ReaderStepsAreReadLoop | src/ffmpeg_decoder.cpp:289-339 | the reader steps of the state machine, uninterrupted, are the inner loop, whatever sizes the records have |
| Cursors.CursorTracker.ApplyCursor | src/receiver_session.cpp:430-443 | floor, cursor shown and both counters after a message |
| Cursors.CursorTracker.OnSignals | src/receiver_session.cpp:103-112 | the slots of the cursor channel, in order: a proven flow restarts the sequence, a position is applied |
| Cursors.CursorTracker.CloseWindow | src/receiver_session.cpp:508-523 | the loss is reported and the counters restart |
| Cursors.FloorIsRunningMaximum | src/receiver_session.cpp:434-441 | the floor is the highest number seen |
| Cursors.AcceptedAreRunningMaxima | src/receiver_session.cpp:434-438 | a sequenced message is accepted if and only if it exceeds the first floor and every earlier number |
| Cursors.ShownIsWinner | src/receiver_session.cpp:440-442 | what is shown is the position of the highest number, or what was there before |
| Cursors.ShownIsLastThrough | src/receiver_session.cpp:433-442 | with or without numbers: shown is the last message that carries none or exceeds the first floor and all numbers before it; every message is counted |
| Cursors.OrderDoesNotMatter | src/receiver_session.cpp:430-443 | floor and position are the same for every permutation when equal numbers carry equal positions |
| Cursors.LossBalances | src/receiver_session.cpp:430-443 | over any run, losses of closed windows and the open one = floor growth - accepted + rejected |
| Cursors.CountersStayExact | src/receiver_session.cpp:435-439 | every report and the open counter are those losses in 32 bits |
| Cursors.ReportsAreExactInRange | src/receiver_session.cpp:508 | a window whose losses fit an int is reported exactly |
| Cursors.CursorChannel.OnDatagrams | src/cursor_channel.cpp:43-69 | signals and flow after any datagrams, unusable ones skipped |
| Cursors.SignalsAreOwed | src/cursor_channel.cpp:54-67 | the signals are, in order, the messages of the usable datagrams, each preceded by flowProven exactly where address or port differ from the one before |
| Cursors.FloorFollowsLiveFlow | src/cursor_channel.cpp:57-67 | the reset precedes the datagram that opens a flow: the floor is the maximum over the live flow alone |
| ClockSync.Best | include/opendisplay/clock_sync.hpp:33-38 | the oldest sample of least round trip |
| ClockSync.ClockSync.AddSample | include/opendisplay/clock_sync.hpp:18-26 | unusable samples are ignored, the newest fifteen kept |
| ClockSync.ClockSync.CurrentOffset | include/opendisplay/clock_sync.hpp:29-40 | the scan returns the best sample's offset |
| ClockSync.WindowIsLastUsable | include/opendisplay/clock_sync.hpp:18-26 | after any run the window is exactly the last fifteen usable samples |
| ClockSync.SampleIsBounded | src/receiver_session.cpp:400-405 | one pong's offset errs by at most half its round trip |
| ClockSync.OffsetErrorBound | src/receiver_session.cpp:400-405 | after any run an offset is known iff some pong was usable, and errs by at most half of every round trip in the window; the oldest minimum decides |
| LatencyStats.LatencyWindow.NoteFrame | src/receiver_session.cpp:167-182 | window after a frame, in every case |
| LatencyStats.WindowIsLastLatencies | src/receiver_session.cpp:167-182 | after any run the window is the last 120 clamped latencies that count, all in [0, 5000) |
| LatencyStats.Sorted | src/receiver_session.cpp:33 | ascending, and a permutation of the window |
| LatencyStats.ComputePercentile | src/receiver_session.cpp:29-38 | clamp, truncation and indexing compute Percentile |
| LatencyStats.PercentileRank | src/receiver_session.cpp:34-37 | a value of the window with at least k+1 values not above it and n-k not below, k the index read |
| LatencyStats.IndexInRange | src/receiver_session.cpp:34-36 | for p in [0, 1] that index is floor(p(n-1)) |
| LatencyStats.PercentileMonotone | src/receiver_session.cpp:29-38 | a higher percentile is never lower |
| LatencyStats.ReportedPercentiles | src/receiver_session.cpp:502-503 | over any run 0 <= P50 <= P95 < 5000, and both 0 before any latency is known |
| Session.ReceiverSession.OnReadyRead | src/receiver_session.cpp:334-371 | session state after a read of the live socket; what was dispatched is the parse of all it was fed |
| Session.ReceiverSession.AdoptSocket | src/receiver_session.cpp:275-332 | old connection and rivals aborted, deframer restarted, hello unless greeted, first bytes read |
| Session.ReceiverSession.OnNewConnection | src/receiver_session.cpp:241-273 | adopted when nobody is live, else greeted and left to prove itself |
| Session.ReceiverSession.OnProvingRead | src/receiver_session.cpp:252-264 | adopted with its bytes, or scheduled for deletion |
| Session.ReceiverSession.RaiseReadyRead | src/receiver_session.cpp:252-320 | which handlers a read runs, in connection order |
| Session.ReceiverSession.OnDisconnected | src/receiver_session.cpp:373-385 | state after a lost socket, proving or live |
| Session.ReceiverSession.DropSession | src/receiver_session.cpp:479-490 | the live socket is cut off, the proving ones stay |
| Session.ReceiverSession.CloseWith | src/receiver_session.cpp:470-477 | a farewell to the live socket, then the drop |
| SessionTheorems.StepWired | src/receiver_session.cpp:241-332 | every step keeps: the live socket is open, served and not pending; pending is distinct; connectedChanged was last raised with connected() |
| SessionTheorems.SupersededIff | src/receiver_session.cpp:246-263 | another socket becomes live in one step if and only if it was pending and its first read brought bytes that frame correctly |
| SessionTheorems.LiveSessionEndsIff | src/receiver_session.cpp:241-490 | a live session ends in one step if and only if its socket goes, it times out, a farewell is said, its own bytes do not frame, or a pending socket delivers bytes |
| SessionTheorems.MalformedProofLeavesNobody | src/receiver_session.cpp:252-263 | a pending socket's read leaves nobody live if and only if it brings bytes that do not frame |
| SessionTheorems.SilentTwinIsHarmless | src/receiver_session.cpp:247-262 | connecting, an empty read or leaving again never replaces a live session |
| SessionTheorems.AdoptionClearsTheField | src/receiver_session.cpp:275-313 | whenever a socket becomes live, pending is empty, its predecessor and every rival are cut off, and connectedChanged(true) was raised last |
| SessionTheorems.FirstConnectionIsLive | src/receiver_session.cpp:269-271 | with nobody live, who connects is live at once, greeted with one hello and announced |
| SessionTheorems.NewcomerIsGreeted | src/receiver_session.cpp:246-251 | with somebody live, a newcomer is greeted and queued, and nothing else changes |
| SessionTheorems.NewcomerProvesItself | src/receiver_session.cpp:252-263 | its first bytes, if they frame, make it live, with exactly those bytes read and no second hello |
| SessionTheorems.OnlyTheLiveSocketHears | src/receiver_session.cpp:107-239 | every timer, decoder and user event says its one message to the live socket, and nothing to any other or when nobody is live |
| SessionTheorems.EndingsCutOff | src/receiver_session.cpp:470-490 | a farewell or the watchdog cuts the live socket off and announces it; those waiting stay |
| SessionTheorems.DoomedExactly | src/receiver_session.cpp:252-268 | exactly which signals schedule a socket for deletion |
| SessionTheorems.StepSpoken | src/receiver_session.cpp:192-239 | every step keeps each socket's log: hello first, a farewell only last, never a scroll; a pending socket has its one hello |
| SessionTheorems.StepFed | src/receiver_session.cpp:326-342 | every step keeps: the deframer has been fed a prefix of what the live socket delivered, all of it unless the socket had to prove itself |
| SessionTheorems.ReachableStatesAreOk | src/receiver_session.cpp:241-490 | all of it in every reachable state |
| SessionTheorems.ReadReachesDeframerIff | src/receiver_session.cpp:252-268 | a read of the live socket reaches the deframer if and only if its proving handler is not connected |
| SessionTheorems.LiveSessionDispatchesInOrder | src/receiver_session.cpp:334-371 | any live sender's legal messages are dispatched in order; a directly adopted sender's all of them once all bytes are there |
| SessionTheorems.LegalStreamKeepsSessionUp | src/receiver_session.cpp:334-371 | no read of a stream of legal messages ends its session |
| SessionTheorems.SupersederLosesItsNextRead | src/receiver_session.cpp:252-257 | the read after the proof is dropped and the live socket scheduled for deletion |

## Left out

- `src/advertise.cpp`, `src/advertise_stub.cpp`, `gui/`: Avahi callbacks, painting, windows and command lines have no state the properties need.
- `src/receiver_messages.cpp`: control objects are opaque text in `Demux` and an enumeration in `Session`; JSON is not parsed, so a control payload that is not valid JSON counts as dispatched.
- fork, exec, pipes, `writeAll`, `waitpid`, timers and sockets are steps of the environment.
- The child's contract is assumed. A failed write has its child replaced, and nothing the old child put out for that frame is delivered as a frame of the new one.
- `DecoderPipeline.Step` has no step for `stop()`: what is proved of deliveries holds up to the call; `stop()` empties `expected_` before the writer is joined.
- Liveness is not modelled: neither `stop()` returning, nor what becomes of a writer that has locked itself.
- Each critical section, read and write is one atomic step. Looking at the front record and popping it are two steps, as in the code.
- Handlers run to completion: a modal dialog or a nested event loop inside a signal is not modelled. Signals are entries of logs.
- A socket scheduled by `deleteLater` is recorded as doomed; its later destruction is not a step.
- Session.ReceiverSession.AdoptSocket: does not model the decoder restart and the resets of the clock, the cursor floor and the window counters, because the control messages that move them are not parsed here; `Start`, `Reset`, `RestartSequence` and `CloseWindow` are those operations on their own objects. `lastRttMs_` is not reset there and is not modelled.
- The watchdog's and the timers' conditions are abstracted to events that may come at any time.
- Frame rate, bit rate, stall and flush figures of `rebuildStats` are plain quotients and counts.
- `noteFrameStats`, `percentile` and `ClockSync` work on doubles; the model uses real numbers, so rounding is not covered.
- `std::sort` is the function `Sorted`, an insertion sort, with the guarantee of the library routine.
- Sequence numbers are unbounded naturals, where the code has 64 bits; `droppedFrames_` and `cursorThisWindow_` do not wrap.
- `BitStream.SpsBitWriter.PutUe`: does not model `value + 1` overflowing at INT32_MAX, which its requires excludes as undefined in the source.
- `SpsTheorems.ParsesEveryRecord`: requires every field to be printable by the writer and the uncropped size and cropped amounts to fit an int; beyond that the source's signed arithmetic overflows.
- `toSpsNalu` in the tests does not escape; the round trip here is the encoder's, with escaping. The two agree on records whose bytes need none.
- The fake sender's control and cursor threads; its restart flag is an input of the loop.
- `EndToEnd.DeliveredFramesAreShownAsSent`: takes as given that the session submits the video messages it dispatches, in order, which is the one statement of `src/receiver_session.cpp:368`.
