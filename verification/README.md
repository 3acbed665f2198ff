# Robot microkernel: a verified model of its control path

This project models the control and safety path of a robot microkernel
written in Rust, and proves what the path is for: that telemetry is decoded
the same however the bytes arrive, that no command reaches the motors
uncleaned, unbounded or while an emergency stop is latched, and that the
geometry underneath is right.

## What is modelled

**Telemetry.** `Streaming` is the drain loop of the HAL over any decoder that
makes progress and does not reinterpret complete messages; its main theorem
is independence of chunking. `BinaryDecoders`, `KukaKrl` and `ComauPdl` are the
fixed-size, length-prefixed, element-delimited and line-delimited decoders,
each with a stream round trip, and `KukaSlots` says which value ends
up in which slot; where a length-prefixed or line decoder can wait for ever, the
exact condition is proved. The XGO codec fills four modules: `XgoFrames`
(checksummed frames), `XgoScanner` (the resynchronising scanner against one
that tries every offset), `XgoStreams` (streams, chunks, corruption) and
`XgoRegisters` (quantiser, snapshot, polling, command encoding, and the objects
that update buffers in place).

**Commands.** `Registers` is a register of capacity one; `LatestCommands` is the
lock-free slot as interleaved atomic steps over an explicit heap with address
reuse, proved memory-safe and equal to that register. `VectorSanitizers`
describes the sanitizer by its history, `ControlLoops` the 100 Hz frame around
it, `SaturationChain`, `Approaches`, `JerkRuns`, `Overshoots` and `JerkLimiters` the
third-order saturation chain, what a tick of it achieves, its runs, its overshoot
and the object that holds 32 joints,
`Pipelines` the chain from received words to bounded motion.

**Emergency stop.** `Watchdogs` is the heartbeat and the monitoring loop with its
timing, `EstopLatches` the latch inside the fieldbus loops, `SafetySystems` the two
loops with their queues in every interleaving of their atomic steps: the
watchdog decides at once, but publishes message by message.

**Geometry.** `Kinematics` proves the quaternion and matrix algebra.

Each object whose methods update fields or buffers is a class or a method on
an array, proved against a function; the theorems are about those functions
and about runs.

## Modelling choices

- f32 arithmetic is arithmetic over the reals; a square root is any function
  that is non-negative and squares back. At the sanitizer a value is a
  number, an infinity or not a number. On the wire an f32 is an opaque word
  of four bytes, and what its bits mean is a parameter.
- A missing tolerance of the limiter (infinity in the source) is a constructor
  of its own; finite ones satisfy vmax, amax, jmax >= 0, and limits are
  ordered, as the clamp of the standard library demands: it panics otherwise.
  Something over zero is infinite, zero over zero no number.
- Number parsing is a partial function supplied from outside; only framing
  and field structure matter.
- Time is a nat in milliseconds. An iteration of the watchdog reads it when it
  starts and once after publishing; the gap between two starts is a parameter.
- A publication that fails is only logged by the source. The model has a flag
  for it, so no theorem assumes delivery.

## What a reader of the code may not expect

- The scanner's comment says that a trailing 0x55 is kept. It is flushed, and
  so is a trailing 0x55 0x00. `XgoStreams.XgoCut` and `XgoStreams.XgoCutsExactly` give
  the exact consequence.
- On an empty accumulator the XGO decoder reports zero bytes to flush, so the
  drain loop makes no progress. `XgoScanner.LoopEndsExactly` and, for frame streams,
  `XgoStreams.FrameStreamLoopExactly` say when the loop is left,
  `XgoStreams.ReadsOnExactly` and `XgoStreams.FrameStreamReadsOn` which reads of a
  connection take place; `XgoStreams.SecondFrameUnread` is the smallest loss. The
  theorems on chunks are about a drain that stops on the empty buffer, and say so.
- The limiter's comment says that the velocity limit allows stopping within
  the distance without overshoot. `Overshoots.OvershootExactly` says when a tick
  overshoots, and `Overshoots.FixedTargetOvershoots` shows it from rest.
- The watchdog is tripped before its E-stop message is out, and the HAL may take
  a command before the message. In both windows it still writes commands:
  `SafetySystems.TripWindow`, `SafetySystems.QueuedWindow`, and the mirrored
  `SafetySystems.ReleaseWindow`.
- The KUKA decoder stops at the first element that brings the slots in use to
  the joint count, so a document out of order can publish zeros:
  `KukaSlots.OutOfOrderLoses`, with the exact condition in `KukaSlots.DocumentSlots`.
- The serial loop reports a clear E-stop whenever the port does not open, the
  UDP and TCP loops report the latch: `EstopLatches.OpenFailureReport`.

## Model

| member | source | states |
|---|---|---|
| Streaming.TelemetryLoop.DrainFrames | src/io_bridge/hardware_abstraction.rs:522-549 | the drain loop publishes, in order, what the decoder finds in the buffer, counts exactly the published frames and keeps exactly the residue |
| Streaming.TelemetryLoop.ReadAll | src/io_bridge/hardware_abstraction.rs:221-232 | a connection that reads any chunks and drains after each ends with the telemetry and the residue of one drain of the whole stream |
| Streaming.DrainStopsOnNone | src/io_bridge/hardware_abstraction.rs:530-535 | the loop is left with a residue on which the decoder reports nothing |
| Streaming.DrainAppend | src/io_bridge/hardware_abstraction.rs:522-549 | draining a prefix, then its residue with the rest appended, is draining the whole |
| Streaming.ChunkingIndependence | src/io_bridge/hardware_abstraction.rs:522-549 | for every decoder that makes progress and does not reinterpret a complete message, any split of a byte stream gives the same telemetry and residue |
| Streaming.FeedAppend | src/io_bridge/hardware_abstraction.rs:221-232 | reading more chunks continues where reading the earlier ones stopped, for every decoder that makes progress |
| CommandVectors.FromBytes | src/io_bridge/command_vector.rs:46-58 | the loop computes the words of a payload: whole words only, at most 32, zeros behind them |
| CommandVectors.WriteTo | src/io_bridge/command_vector.rs:72-81 | writes exactly the leading words that fit, leaves the rest of the buffer alone and returns the length |
| CommandVectors.BytesOfWord | src/io_bridge/command_vector.rs:72-81 | the least significant byte of a word comes first |
| CommandVectors.CommandRoundTrip | src/io_bridge/command_vector.rs:46-81 | every command crosses the wire unchanged |
| CommandVectors.PayloadRoundTrip | src/io_bridge/command_vector.rs:46-81 | every payload survives decoding and encoding, but for a partial word and what exceeds 32 words |
| BinaryDecoders.DecodeGeneric | src/io_bridge/adapters/generic_binary.rs:23-39 | the fixed-size decoder, loop against specification |
| BinaryDecoders.GenericIsStable | src/io_bridge/adapters/generic_binary.rs:28-38 | consumes between one and all buffered bytes, and appended bytes do not change a result |
| BinaryDecoders.GenericChunking | src/io_bridge/hardware_abstraction.rs:522-549 | chunking independence of the generic decoder |
| BinaryDecoders.GenericRoundTrip | src/io_bridge/adapters/generic_binary.rs:23-43 | any sequence of serialised commands decodes to the first 32 words of each, in order, with nothing left over |
| BinaryDecoders.FrontsAreWhole | src/io_bridge/adapters/generic_binary.rs:23-43 | up to 32 joints these are exactly the commands |
| BinaryDecoders.DecodePrefixed | src/io_bridge/adapters/universal_robots.rs:43-70 | the length-prefixed decoder, loop against specification |
| BinaryDecoders.DecodeUniversalRobots | src/io_bridge/adapters/universal_robots.rs:27-70 | as UR uses it: 6 joints at offset 248 |
| BinaryDecoders.DecodeFranka | src/io_bridge/adapters/franka_fci.rs:31-79 | as Franka uses it: 7 joints at offset 8 |
| BinaryDecoders.PrefixedIsStable | src/io_bridge/adapters/franka_fci.rs:57-73 | a length-prefixed message consumes at least its header, and appended bytes do not change it |
| BinaryDecoders.PrefixedChunking | src/io_bridge/adapters/universal_robots.rs:43-70 | chunking independence of the UR and Franka decoders |
| BinaryDecoders.PacketStream | src/io_bridge/adapters/franka_fci.rs:52-78 | a stream of whole packets yields the joints of each, in order |
| BinaryDecoders.UniversalRobotsRoundTrip | src/io_bridge/adapters/universal_robots.rs:43-70 | whatever size digits, body prefix and tail a controller writes around them: any sequence of packets with six joints behind 248 bytes of body drains to exactly the joints written, in order, with nothing left over |
| BinaryDecoders.FrankaRoundTrip | src/io_bridge/adapters/franka_fci.rs:52-78 | the same for seven joints behind 8 bytes |
| BinaryDecoders.PrefixedCompletes | src/io_bridge/adapters/universal_robots.rs:51-62 | some continuation completes a message if and only if its announced size can hold the reported joints |
| BinaryDecoders.PrefixedStall | src/io_bridge/adapters/universal_robots.rs:52-62 | otherwise the connection never publishes again, whatever arrives: the bytes pile up behind the header |
| ByteSearch.FindIsFirst | src/io_bridge/adapters/kuka_eth_krl.rs:149-158 | the search returns the first occurrence from the start offset, and nothing exactly if there is none |
| ByteSearch.FindInAppend | src/io_bridge/adapters/kuka_eth_krl.rs:149-158 | a match stays the first one when bytes are appended |
| KukaKrl.DecodeKuka | src/io_bridge/adapters/kuka_eth_krl.rs:43-74 | the element loop computes the table of all elements of the first document |
| KukaKrl.KukaIsStable | src/io_bridge/adapters/kuka_eth_krl.rs:48-51 | a decoded document is consumed with its terminator and not reinterpreted |
| KukaKrl.KukaChunking | src/io_bridge/adapters/kuka_eth_krl.rs:43-74 | chunking independence of the KUKA decoder |
| KukaKrl.ParseRendered | src/io_bridge/adapters/kuka_eth_krl.rs:117-134 | parsing an element undoes rendering it, and stops right behind it |
| KukaKrl.ScanRendered | src/io_bridge/adapters/kuka_eth_krl.rs:57-71 | scanning the bytes of a body computes the meaning of its elements, defined without byte positions |
| KukaKrl.DocumentDecodes | src/io_bridge/adapters/kuka_eth_krl.rs:43-74 | a well-formed document in front of anything is consumed whole and decodes to the fold over its elements |
| KukaSlots.TableAfter | src/io_bridge/adapters/kuka_eth_krl.rs:57-71 | after any number of elements: each slot holds the value of the last element read that fills it, zero if none, and the slots in use are those of the elements read |
| KukaSlots.DocumentSlots | src/io_bridge/adapters/kuka_eth_krl.rs:43-74 | so every slot of a decoded document, and the number published, are known; element j is read if and only if it and all earlier ones hold numbers and the earlier ones leave a joint unused |
| KukaSlots.DocumentStream | src/io_bridge/adapters/kuka_eth_krl.rs:43-74 | any number of well-formed documents in front of anything drains to the values of each, slot by slot and in order, and leaves exactly what follows; nothing, if nothing does |
| KukaSlots.AllReadExactly | src/io_bridge/adapters/kuka_eth_krl.rs:57-60 | all elements are read if and only if all hold numbers and those before the last leave a joint unused |
| KukaSlots.InOrderDocument | src/io_bridge/adapters/kuka_eth_krl.rs:61-69 | a document that names the joints in order, or no joint that exists, gives every joint its value |
| KukaSlots.IndexBetween | src/io_bridge/adapters/kuka_eth_krl.rs:136-147 | the index of a name is what stands between its first brackets, however many digits |
| KukaSlots.NoIndex | src/io_bridge/adapters/kuka_eth_krl.rs:136-147 | a name that lacks a bracket has none |
| KukaSlots.LastJointEnds | src/io_bridge/adapters/kuka_eth_krl.rs:58-60 | an element that names the last joint keeps all later ones from being read |
| KukaSlots.OutOfOrderLoses | src/io_bridge/adapters/kuka_eth_krl.rs:57-71 | the witness: with six joints, SEND[6] before SEND[1] publishes six slots, the first of them zero |
| ComauPdl.ReadFields | src/io_bridge/adapters/comau_pdl.rs:46-62 | the field loop fills each slot from its own field, in place, and gives up exactly if a field it reads is not a number |
| ComauPdl.DecodeComau | src/io_bridge/adapters/comau_pdl.rs:37-65 | the line decoder against its specification |
| ComauPdl.ComauIsStable | src/io_bridge/adapters/comau_pdl.rs:42-44 | a decoded line is consumed with its newline and not reinterpreted |
| ComauPdl.ComauChunking | src/io_bridge/adapters/comau_pdl.rs:37-65 | chunking independence of the Comau decoder |
| ComauPdl.LineCompletes | src/io_bridge/adapters/comau_pdl.rs:50-62 | a buffered line is ever decoded if and only if all the fields it reads are numbers |
| ComauPdl.LineStall | src/io_bridge/adapters/comau_pdl.rs:58-59 | otherwise every later line is kept behind it for good |
| ComauPdl.SplitLine | src/io_bridge/adapters/comau_pdl.rs:51-53 | splitting a line undoes joining its fields, whatever mix of commas and white space separates them |
| ComauPdl.LineDecodes | src/io_bridge/adapters/comau_pdl.rs:37-65 | a line of numbers is consumed whole and gives one slot per number, whatever follows |
| ComauPdl.LineReports | src/io_bridge/adapters/comau_pdl.rs:37-65 | any line whose read fields are numbers, empty and surplus fields and a carriage return included, is consumed whole and reports a value per joint up to the last one read |
| ComauPdl.LineStream | src/io_bridge/adapters/comau_pdl.rs:37-65 | any number of such lines in front of anything drains to the values of each, in order, and leaves exactly what follows; nothing, if nothing does |
| XgoFrames.Checksum | src/io_bridge/adapters/xgo_uart.rs:152-158 | the 16-bit accumulation computes the checksum and never overflows |
| XgoFrames.PushFrame | src/io_bridge/adapters/xgo_uart.rs:162-178 | writes a whole frame at the offset or nothing at all, and touches no other byte |
| XgoFrames.FrameChecks | src/io_bridge/adapters/xgo_uart.rs:215-232 | what the receiver compares on a complete buffer is exactly being a frame |
| XgoFrames.FrameSum | src/io_bridge/adapters/xgo_uart.rs:152-158 | in every frame the bytes from the length to the checksum add up to 255 modulo 256 |
| XgoFrames.CorruptionDetected | src/io_bridge/adapters/xgo_uart.rs:152-158 | changing any one byte behind LEN destroys a frame |
| XgoScanner.ScanFindsFrame | src/io_bridge/adapters/xgo_uart.rs:196-238 | a frame is reported if and only if one starts at the front, with its own length and register |
| XgoScanner.ScanWaits | src/io_bridge/adapters/xgo_uart.rs:212-222 | the scanner waits if and only if the front of a frame is buffered |
| XgoScanner.SkipIsSafe | src/io_bridge/adapters/xgo_uart.rs:197-211 | a skip never jumps over the start of a frame, complete or pending |
| XgoScanner.XgoProgresses | src/io_bridge/adapters/xgo_uart.rs:307-311 | on a non-empty buffer every report consumes between one and all bytes |
| XgoScanner.NextIsNaive | src/io_bridge/adapters/xgo_uart.rs:261-313 | one round is one or more steps of a scanner that tries every offset |
| XgoScanner.ScannerRefinesNaive | src/io_bridge/adapters/xgo_uart.rs:196-238 | the skipping scanner emits exactly the frames and leaves exactly the residue of the one that tries every offset |
| XgoScanner.LoopReachesDrain | src/io_bridge/hardware_abstraction.rs:530-547 | the real drain loop over the XGO codec comes, in finitely many rounds, to what the drain that stops on an empty buffer publishes and keeps |
| XgoScanner.LoopEndsExactly | src/io_bridge/hardware_abstraction.rs:530-547 | the real drain loop over the XGO codec is left there if and only if a pending frame remains; a buffer consumed entirely keeps it flushing zero bytes for ever |
| XgoStreams.NaiveIsIdealKept | src/io_bridge/adapters/xgo_uart.rs:200-208 | the code differs from a scanner that keeps trailing header bytes, as its comment says, in flushing a lone 0x55 or 0x55 0x00, and in nothing else |
| XgoStreams.IdealAppend | src/io_bridge/adapters/xgo_uart.rs:200-208 | the scanner the comment describes would be independent of chunking without any condition |
| XgoStreams.XgoChunking | src/io_bridge/hardware_abstraction.rs:522-549 | with the drain that stops on an empty buffer, feeding a stream in chunks is feeding it whole when no chunk but the last ends one or two bytes into a frame |
| XgoStreams.XgoCut | src/io_bridge/adapters/xgo_uart.rs:200-208 | with the drain that stops on an empty buffer, this condition is exact for one cut: the parts give the result of the whole for every continuation if and only if it holds |
| XgoStreams.XgoCutsExactly | src/io_bridge/adapters/xgo_uart.rs:200-208 | with the drain that stops on an empty buffer, so it is for any number of chunks: every cut is safe, whatever follows it, if and only if none falls one or two bytes into a frame |
| XgoStreams.LostFrame | src/io_bridge/adapters/xgo_uart.rs:200-208 | the witness: a battery answer cut there is lost |
| XgoStreams.FrameStreamRoundTrip | src/io_bridge/adapters/xgo_uart.rs:162-238 | any concatenation of frames scans back to exactly those frames, in order, with nothing left over |
| XgoStreams.FrameStreamInChunks | src/io_bridge/hardware_abstraction.rs:522-549 | with the drain that stops on an empty buffer, a frame stream fed in chunks gives exactly its frames if and only if no boundary falls one or two bytes into a frame |
| XgoStreams.ShortCutLoses | src/io_bridge/adapters/xgo_uart.rs:200-208 | with the drain that stops on an empty buffer, such a boundary loses bytes for good, in any stream |
| XgoStreams.FrameStreamLoopExactly | src/io_bridge/hardware_abstraction.rs:530-547 | on a frame stream received so far the real drain loop is left if and only if the stream is cut three or more bytes into a frame |
| XgoStreams.FrameStreamSpins | src/io_bridge/hardware_abstraction.rs:530-547 | so on whole frames it is never left |
| XgoStreams.ReadsOnExactly | src/io_bridge/hardware_abstraction.rs:221-232 | the real connection: for any stream and any split the drain loop is left after each of the first n reads, so that the next takes place, if and only if each of them ends inside a frame whose length byte has arrived; it then has lost nothing |
| XgoStreams.FrameStreamReadsOn | src/io_bridge/hardware_abstraction.rs:221-232 | on a frame stream: if and only if each of them ends three or more bytes into a frame |
| XgoStreams.FrameStreamReadWhole | src/io_bridge/hardware_abstraction.rs:221-232 | so all reads of a frame stream take place if and only if those before the last end so, and then every frame is found |
| XgoStreams.SecondFrameUnread | src/io_bridge/hardware_abstraction.rs:530-547 | the witness: of two whole frames, one a read, the guarded drain finds both, while the real connection never takes the second read |
| XgoStreams.BadFrameDropsHeader | src/io_bridge/adapters/xgo_uart.rs:215-232 | a complete buffer with a plausible length that is no frame loses exactly its header pair |
| XgoStreams.CorruptionResynchronises | src/io_bridge/adapters/xgo_uart.rs:223-232 | changing any one byte behind LEN of the frame at the front makes the scanner flush two bytes, whatever follows |
| XgoRegisters.QuantiserInverse | src/io_bridge/adapters/xgo_uart.rs:128-141 | every byte survives the way through its physical value |
| XgoRegisters.QuantiserError | src/io_bridge/adapters/xgo_uart.rs:128-141 | the decoded value lies at most one step below the clamped input |
| XgoRegisters.QuantiserMonotone | src/io_bridge/adapters/xgo_uart.rs:128-136 | the quantiser is monotone |
| XgoRegisters.MergeAnswers | src/io_bridge/adapters/xgo_uart.rs:272-304 | what one answer does to the snapshot, register by register: motor angles in mechanical degrees from their joint on, roll, pitch and yaw in slots 12, 13 and 14 if they are numbers, tenths of a volt in slot 15; every other slot keeps its value, and any other register changes nothing |
| XgoRegisters.PublicationAt | src/io_bridge/adapters/xgo_uart.rs:303-306 | one publication an answer: the first 16 slots of the snapshot it leads to |
| XgoRegisters.SnapshotIsLastWrite | src/io_bridge/adapters/xgo_uart.rs:272-304 | after any run of answers every slot holds its last write, or its initial value |
| XgoRegisters.SnapshotInRange | src/io_bridge/adapters/xgo_uart.rs:274-302 | over every run joints stay in their mechanical range, the battery in 0 to 25.5, slots 16 to 31 zero |
| XgoRegisters.SixPollsCover | src/io_bridge/adapters/xgo_uart.rs:374-384 | every six consecutive polls ask for all five registers |
| XgoRegisters.FivePollsCoverExactly | src/io_bridge/adapters/xgo_uart.rs:374-384 | five do so if and only if the one-byte counter does not wrap among them |
| XgoRegisters.PollsInTurn | src/io_bridge/adapters/xgo_uart.rs:374-384 | motors, roll, pitch, yaw, battery, by the counter modulo five |
| XgoRegisters.PollAsksForAll | src/io_bridge/adapters/xgo_uart.rs:374-384 | each register is asked for as many bytes as its answer is decoded from |
| XgoRegisters.FitSelects | src/io_bridge/adapters/xgo_uart.rs:164-166 | what an encoded command contains is among the frames of the command |
| XgoRegisters.FitExactly | src/io_bridge/adapters/xgo_uart.rs:162-178 | a frame is left out only if it does not fit: all are there if and only if they fit together |
| XgoRegisters.CommandRegisters | src/io_bridge/adapters/xgo_uart.rs:317-365 | which registers a command writes and what their bytes stand for: joint angles, gait speeds to within one quantisation step, the action rounded down |
| XgoRegisters.EncodedCommandScans | src/io_bridge/adapters/xgo_uart.rs:317-365 | for every command and buffer size the output is whole frames: the receiver finds exactly those and no byte is left over |
| XgoRegisters.EncodedJointDecodes | src/io_bridge/adapters/xgo_uart.rs:321-334 | a joint vector fed back as an answer decodes to within one step of each clamped target |
| XgoRegisters.VelocityDecodes | src/io_bridge/adapters/xgo_uart.rs:337-356 | the gait registers hold the clamped speeds to within one step |
| XgoRegisters.XgoUart.constructor | src/io_bridge/adapters/xgo_uart.rs:118-123 | starts with an all-zero snapshot and the first poll phase |
| XgoRegisters.XgoUart.DecodeTelemetry | src/io_bridge/adapters/xgo_uart.rs:261-313 | does to the snapshot exactly what the register of one answer says, and publishes it; garbage changes nothing |
| XgoRegisters.XgoUart.PollRequest | src/io_bridge/adapters/xgo_uart.rs:374-384 | writes the read request of the current phase, if there is room, and advances the wrapping counter |
| XgoRegisters.XgoUart.EncodeCommand | src/io_bridge/adapters/xgo_uart.rs:317-365 | writes exactly the frames that fit, in place, nothing else |
| XgoRegisters.XgoConnection.DrainFrames | src/io_bridge/hardware_abstraction.rs:522-549 | with the drain that stops on an empty buffer, a drain leaves the naive residue, folds all found answers into the snapshot and publishes it after each |
| XgoRegisters.XgoConnection.ReadAll | src/io_bridge/hardware_abstraction.rs:221-232 | with the drain that stops on an empty buffer, any run of reads does so with all answers found in any of them |
| XgoRegisters.RunOfReads | src/io_bridge/adapters/xgo_uart.rs:261-313 | with the drain that stops on an empty buffer, after any run of byte buffers from the start every slot holds its last write among the answers found, and the ranges hold |
| SaturationChain.SpeedLimitIsTight | src/io_bridge/jerk_limiter.rs:94-98 | the speed limit respects the velocity limit and the braking distance, and reaches one of them |
| SaturationChain.DesiredVelIsFastest | src/io_bridge/jerk_limiter.rs:75-101 | the demanded velocity points to the target, respects both limits and the approach time, and is the fastest that does |
| SaturationChain.NextAccIsAdmissible | src/io_bridge/jerk_limiter.rs:104-119 | the second acceleration clamp cannot break the jerk limit |
| SaturationChain.NextAccIsProjection | src/io_bridge/jerk_limiter.rs:104-119 | no admissible acceleration is closer to the raw demand than the one chosen |
| SaturationChain.StepIsSmooth | src/io_bridge/jerk_limiter.rs:103-136 | one tick keeps velocity and acceleration bounded, bounds both their changes, enters the geometric limits, and from inside moves at most vmax*dt |
| SaturationChain.MoveBoundExactly | src/io_bridge/jerk_limiter.rs:126-131 | from outside the limits the move stays within vmax*dt if and only if the limits come within reach |
| SaturationChain.UnsaturatedStep | src/io_bridge/jerk_limiter.rs:69-126 | where nothing saturates a tick removes exactly the share dt/tau of the distance |
| Approaches.DemandIsFastest | src/io_bridge/jerk_limiter.rs:69-101 | the demanded velocity is the fastest towards the target that does not pass it in the time v/a + a/j (the absent parts zero, at least a tick), within the velocity limit and the braking distance |
| Approaches.FastestIsUnique | src/io_bridge/jerk_limiter.rs:69-101 | that fixes it |
| Approaches.TimesExist | src/io_bridge/jerk_limiter.rs:75-86 | the two times exist wherever acceleration and jerk are not zero |
| Approaches.NothingDemanded | src/io_bridge/jerk_limiter.rs:75-101 | a tolerance of zero acceleration, or of zero jerk with a finite acceleration, demands standing still |
| Approaches.StepIsTick | src/io_bridge/jerk_limiter.rs:64-136 | a whole tick: of all admissible accelerations it takes the one whose tick comes nearest to the fastest approach, then moves with the velocity this gives, kept in the limits |
| Approaches.StepStops | src/io_bridge/jerk_limiter.rs:64-136 | the same towards standing still where no motion is admitted |
| Approaches.TickIsUnique | src/io_bridge/jerk_limiter.rs:64-136 | there is one such tick only |
| Approaches.UnhinderedDemand | src/io_bridge/jerk_limiter.rs:69-101 | where neither velocity limit nor braking distance binds the demanded velocity covers the distance in exactly that time |
| Approaches.UnhinderedStep | src/io_bridge/jerk_limiter.rs:64-126 | and, if the change of velocity is admissible, so does the velocity of the tick |
| JerkRuns.RunIsSmooth | src/io_bridge/jerk_limiter.rs:60-138 | the smoothness of a tick along every run, from rest or any bounded state, under limits that may change from tick to tick |
| JerkRuns.SecondDifference | src/io_bridge/jerk_limiter.rs:109-126 | without geometric limits the second difference of the emitted positions is at most amax*dt^2 |
| JerkRuns.ThirdDifference | src/io_bridge/jerk_limiter.rs:109-126 | with the velocity unlimited too, the third difference is at most jmax*dt^3 |
| JerkRuns.Transparent | src/io_bridge/jerk_limiter.rs:71-74 | without limits the target passes through |
| JerkRuns.DemandIsMet | src/io_bridge/jerk_limiter.rs:89-126 | without acceleration and jerk limits the demanded velocity is reached in one tick, whatever the previous one |
| JerkRuns.RateLimiterStep | src/io_bridge/jerk_limiter.rs:69-133 | with only a velocity limit the whole chain is a rate limiter, whatever the previous velocity |
| JerkRuns.RateLimiterRun | src/io_bridge/jerk_limiter.rs:69-133 | its position after k ticks towards a fixed target in closed form |
| JerkRuns.RateLimiterArrives | src/io_bridge/jerk_limiter.rs:69-133 | hence no overshoot, a distance that never grows, and arrival exactly when k*vmax*dt covers the distance |
| JerkRuns.RunIsOdd | src/io_bridge/jerk_limiter.rs:60-137 | negating all targets and reflecting all limits negates the whole trajectory |
| Overshoots.AccAgainstLowest | src/io_bridge/jerk_limiter.rs:104-119 | the limiter brakes less than demanded only at the strongest braking its limits admit |
| Overshoots.OvershootExactly | src/io_bridge/jerk_limiter.rs:89-101 | under any limits a tick passes its target if and only if the joint is too fast for that braking and the geometric limits reach beyond the target, or begin behind it: the comment promises no overshoot |
| Overshoots.NeverWithoutBraking | src/io_bridge/jerk_limiter.rs:89-101 | without acceleration and jerk limits no tick passes a target inside the geometric limits |
| Overshoots.FixedTargetOvershoots | src/io_bridge/jerk_limiter.rs:89-101 | the witness: from rest, target 3, amax 1, dt 1, three ticks lead to 4 |
| JerkLimiters.LimitVelocity | src/io_bridge/jerk_limiter.rs:75-101 | the velocity stage, statement by statement, computes the demanded velocity |
| JerkLimiters.LimitAcceleration | src/io_bridge/jerk_limiter.rs:104-119 | the acceleration stages compute the next acceleration |
| JerkLimiters.LimitJoint | src/io_bridge/jerk_limiter.rs:64-136 | the whole chain of one joint is one step of the specification |
| JerkLimiters.JerkLimiter.constructor | src/io_bridge/jerk_limiter.rs:32-43 | at rest, without limits, with dt 0.01 if the given one is not positive |
| JerkLimiters.JerkLimiter.SetLimits | src/io_bridge/jerk_limiter.rs:48-52 | sets the tolerances of the leading joints as given and nothing else |
| JerkLimiters.JerkLimiter.CopyLimit | src/io_bridge/jerk_limiter.rs:147-150 | copies a prefix in place |
| JerkLimiters.JerkLimiter.Limit | src/io_bridge/jerk_limiter.rs:60-138 | overwrites command and state of exactly the driven joints with their next step, for all tolerances and limits on which no clamp of the source panics |
| JerkLimiters.JointTicks | src/io_bridge/jerk_limiter.rs:60-138 | one command moves each joint it drives by such a tick towards its own target, under its own tolerances and limits |
| JerkLimiters.JointRests | src/io_bridge/jerk_limiter.rs:61-63 | and leaves the others alone |
| JerkLimiters.JointsAreIndependent | src/io_bridge/jerk_limiter.rs:60-137 | over any run of commands each joint does the single-joint run of the ticks that drive it |
| JerkLimiters.SameInputsSameJoint | src/io_bridge/jerk_limiter.rs:60-137 | two arms agree on a joint whenever its limits, state and inputs agree |
| Registers.Conservation | src/diagnostics/frequency_enforcer.rs:165-193 | published equals consumed plus overwritten plus what is held |
| Registers.TakenInOrder | src/diagnostics/frequency_enforcer.rs:165-193 | the values taken are a strictly ordered selection of those published; what is held came after them |
| Registers.TakeIsLatest | src/diagnostics/frequency_enforcer.rs:165-183 | a take is non-empty if and only if a publication directly precedes it, and returns that value |
| LatestCommands.NoFault | src/diagnostics/frequency_enforcer.rs:165-193 | no step of any thread reads or frees memory that is not allocated |
| LatestCommands.StepKeepsExclusive | src/diagnostics/frequency_enforcer.rs:165-193 | every step keeps each live box owned by exactly one party, addresses being reused freely |
| LatestCommands.SlotStaysFaithful | src/diagnostics/frequency_enforcer.rs:165-193 | every step keeps the slot equal to the register its history describes |
| LatestCommands.ThreadStaysFaithful | src/diagnostics/frequency_enforcer.rs:165-193 | whatever other threads do, a thread is handed what its swap got |
| LatestCommands.EveryRunIsSound | src/diagnostics/frequency_enforcer.rs:137-194 | all of this in every interleaving of any number of producers and consumers |
| LatestCommands.PublishPutsItsOwn | src/diagnostics/frequency_enforcer.rs:165-171 | what publish swaps in is what its caller gave it |
| LatestCommands.WholePublish | src/diagnostics/frequency_enforcer.rs:165-171 | a whole call leaves the register holding what its caller gave |
| LatestCommands.TakeTakes | src/diagnostics/frequency_enforcer.rs:186-193 | a take empties the slot and gets what the register holds, if anything |
| LatestCommands.WholeTake | src/diagnostics/frequency_enforcer.rs:186-193 | a whole call hands its caller what the register held and frees the box |
| LatestCommands.RunConserves | src/diagnostics/frequency_enforcer.rs:165-193 | conservation over every run, and nothing leaked once all threads are idle and the slot empty |
| LatestCommands.OneConsumer | src/diagnostics/frequency_enforcer.rs:176-193 | a single consumer is handed a strictly ordered selection of everything published, in swap order |
| LatestCommands.LatestCommand.Publish | src/diagnostics/frequency_enforcer.rs:165-171 | puts the command |
| LatestCommands.LatestCommand.Take | src/diagnostics/frequency_enforcer.rs:186-193 | takes what the register holds, if anything, and empties it |
| LatestCommands.LatestCommand.TakeOr | src/diagnostics/frequency_enforcer.rs:176-183 | the same with a fallback |
| VectorSanitizers.HistoryIsRecent | src/io_bridge/vector_sanitizer.rs:40-66 | what is remembered of a joint is, up to clamping, its most recent finite input, zero if none |
| VectorSanitizers.OutputIsClampedRecent | src/io_bridge/vector_sanitizer.rs:40-66 | the output is the word in the limits nearest to that, numerically its clamp where the limits are finite; it is finite if and only if the limits admit a finite value |
| VectorSanitizers.ClampedIsNearest | src/io_bridge/vector_sanitizer.rs:59-62 | clamping gives a word in the limits, the given one if it lies there, with none in the limits before it on the way; numerically the clamp where the limits are finite |
| VectorSanitizers.SecondSanitizerIsNoOp | src/io_bridge/hardware_abstraction.rs:558-571 | after the wire round trip a second sanitizer with the same limits changes nothing, after any run of its own |
| VectorSanitizers.NoOpWhateverHistory | src/io_bridge/hardware_abstraction.rs:558-571 | if the limits leave room for finite values it changes nothing whatever it remembers |
| VectorSanitizers.ClampToLimits | src/io_bridge/hardware_abstraction.rs:96-107 | every value becomes the nearest word in the limits, a value that is not a number stays, zeros behind |
| VectorSanitizers.ClampAgainstSanitizer | src/io_bridge/hardware_abstraction.rs:96-107 | on finite values it is the sanitizer; a value that is not a number it lets through |
| VectorSanitizers.VectorSanitizer.constructor | src/io_bridge/vector_sanitizer.rs:26-30 | starts with an all-zero history |
| VectorSanitizers.VectorSanitizer.SanitizeAndClamp | src/io_bridge/vector_sanitizer.rs:40-66 | rewrites command and history of exactly the active joints in place; finite values become the nearest word in the limits |
| ControlLoops.FramesRemember | src/diagnostics/frequency_enforcer.rs:303-324 | over any run of arrivals and empty slots, re-reading the last command adds nothing to the history |
| ControlLoops.FramePublishesRecent | src/diagnostics/frequency_enforcer.rs:303-324 | every frame publishes for every joint the word in the limits nearest to the most recent finite value that arrived, or to zero |
| ControlLoops.EmptySlotRepeats | src/diagnostics/frequency_enforcer.rs:307-324 | from the second frame on an empty slot republishes the previous bytes exactly |
| ControlLoops.FirstEmptyFrame | src/diagnostics/frequency_enforcer.rs:298-312 | the first one repeats the initial zeros if and only if the limits of every driven joint contain zero |
| ControlLoops.Serialize | src/diagnostics/frequency_enforcer.rs:321-324 | the preallocated buffer always has room for the whole command |
| ControlLoops.RealTimeControlLoop.constructor | src/diagnostics/frequency_enforcer.rs:292-298 | starts from the zero command |
| ControlLoops.RealTimeControlLoop.Tick | src/diagnostics/frequency_enforcer.rs:303-324 | one tick takes from the slot, sanitizes, beats the heartbeat and publishes what the run of arrivals determines |
| Pipelines.CleanedInLimits | src/io_bridge/hardware_abstraction.rs:558-571 | whatever words arrive, the targets handed to the limiter lie in the limits |
| Pipelines.CleanedIsLatest | src/io_bridge/hardware_abstraction.rs:558-571 | the target handed on is the last number received, clamped to the limits; zero until there is one |
| Pipelines.PipelineIsSafe | src/io_bridge/hardware_abstraction.rs:558-571 | for every sequence of words, numbers or not: positions in the limits from the first command on, moves of at most vmax*dt, bounded velocity and acceleration |
| Pipelines.PipelineFollows | src/io_bridge/hardware_abstraction.rs:558-571 | without tolerances the joint is there in the same tick |
| Watchdogs.Heartbeat.Ping | src/io_bridge/watchdog_timer.rs:58-60 | stores the time of the beat |
| Watchdogs.Heartbeat.AgeMs | src/io_bridge/watchdog_timer.rs:63-65 | the age of the last beat, zero if the clock went back |
| Watchdogs.HardWatchdog.constructor | src/io_bridge/watchdog_timer.rs:114-131 | starts untripped |
| Watchdogs.HardWatchdog.Shutdown | src/io_bridge/watchdog_timer.rs:145-147 | requests the end of the loop |
| Watchdogs.HardWatchdog.Monitor | src/io_bridge/watchdog_timer.rs:188-227 | one iteration of the loop: new state and messages |
| Watchdogs.TrippedExactly | src/io_bridge/watchdog_timer.rs:196-224 | after an iteration the watchdog is tripped if and only if the last beat was more than the timeout before its start |
| Watchdogs.StatusOfDecision | src/io_bridge/watchdog_timer.rs:196-247 | zeros go out only when tripped, and first; a status exactly on the transition, behind the E-stop, with the new flag and counter |
| Watchdogs.SilenceTrips | src/io_bridge/watchdog_timer.rs:196-226 | a control silent since t trips by t + timeout + gap and stays so |
| Watchdogs.PunctualNeverTrips | src/io_bridge/watchdog_timer.rs:196-226 | beats never further apart than the timeout cause no trip and no message |
| Watchdogs.ZerosAreSpaced | src/io_bridge/watchdog_timer.rs:209-216 | while tripped, successive zero publications are at least the reassert interval and at most that plus one gap apart |
| Watchdogs.ZerosFollow | src/io_bridge/watchdog_timer.rs:196-226 | if the silence and the monitoring go on, the next zeros do follow, within the reassert interval plus one gap |
| EstopLatches.EveryRunIsSound | src/io_bridge/hardware_abstraction.rs:182-293 | in every run over any number of connections: the latch is the last E-stop message; commands are written only while it is clear; an E-stop frame follows every engagement at once and nothing else; statuses are truthful but for one case |
| EstopLatches.LatchedStep | src/io_bridge/hardware_abstraction.rs:239-273 | while latched only a releasing message clears the latch, and a command is discarded, the zeros of the watchdog included |
| EstopLatches.ClearStep | src/io_bridge/hardware_abstraction.rs:239-273 | while clear only a message whose first byte is not zero sets it, the E-stop frame goes out with it, and a command is written as it came |
| EstopLatches.ReportsReceived | src/io_bridge/hardware_abstraction.rs:182-293 | statuses report the frames received over the open connection, however many there were before |
| EstopLatches.OpenFailureReport | src/io_bridge/hardware_abstraction.rs:190-198 | a failed open reports the latch truthfully if and only if the port is not serial or the latch clear |
| EstopLatches.SerialReportsClear | src/io_bridge/hardware_abstraction.rs:190-198 | the failing run: a serial port that goes away while latched is reported with a clear latch |
| EstopLatches.FieldbusLoop.Handle | src/io_bridge/hardware_abstraction.rs:298-410 | one event of the loop: new state and actions |
| EstopLatches.FieldbusLoop.PublishStatus | src/io_bridge/hardware_abstraction.rs:600-619 | a status that cannot be published ends the loop |
| SafetySystems.StopsOfDecision | src/io_bridge/watchdog_timer.rs:196-224 | a decision calls for an E-stop message if and only if it changes the tripped flag, and for the new value |
| SafetySystems.StepsMakeAnIteration | src/io_bridge/watchdog_timer.rs:188-227 | whatever happens between its steps, an iteration leaves the watchdog as the whole iteration would |
| SafetySystems.EveryRunAlternates | src/io_bridge/watchdog_timer.rs:188-227 | in every interleaving of the atomic steps and with other publishers: E-stop messages alternate 1,0,1,0, trips counts the 1s published or decided, and the HAL keeps its guarantees |
| SafetySystems.ZerosDelivered | src/io_bridge/watchdog_timer.rs:181-184 | a delivered zeros message appends a command of zeros for every configured joint |
| SafetySystems.EveryRunAccounts | src/io_bridge/watchdog_timer.rs:181-251 | in every interleaving, every command ever queued or written is such zeros or the payload of another publisher |
| SafetySystems.OnlyZeros | src/io_bridge/watchdog_timer.rs:181-251 | so without other publishers nothing but zeros reaches the motors |
| SafetySystems.EveryRunIsFifo | src/io_bridge/hardware_abstraction.rs:254-273 | what the HAL heard, then what is queued, is what the watchdog got through |
| SafetySystems.LatchIsTripped | src/io_bridge/watchdog_timer.rs:196-260 | in every reachable state without other publishers of E-stops the latch equals the tripped flag if and only if the E-stop messages that have not reached the HAL, still open, queued or lost since the last it heard, are even in number |
| SafetySystems.SettledLatch | src/io_bridge/watchdog_timer.rs:196-260 | so between two iterations, with the queue drained and the last E-stop publication delivered, latch and flag agree |
| SafetySystems.DiscardsExactly | src/io_bridge/hardware_abstraction.rs:239-253 | a command is taken and discarded if and only if the latch is set |
| SafetySystems.NoCommandWhileTripped | src/io_bridge/hardware_abstraction.rs:239-253 | while the watchdog is tripped, and no other publisher sends E-stops, a command of any publisher is discarded if and only if that number is even |
| SafetySystems.TripWindow | src/io_bridge/watchdog_timer.rs:199-245 | the window: between the trip and its E-stop message nothing is lost or queued, yet the latch is clear and any command is written |
| SafetySystems.QueuedWindow | src/io_bridge/hardware_abstraction.rs:239-273 | a second window: the E-stop is delivered but still queued, and the HAL takes and writes a command first |
| SafetySystems.ReleaseWindow | src/io_bridge/watchdog_timer.rs:217-219 | its mirror: until the release is published the latch holds although the watchdog is not tripped |
| SafetySystems.LostPublication | src/io_bridge/watchdog_timer.rs:241-243 | one lost E-stop publication leaves the watchdog tripped and the latch clear |
| Kinematics.MulAssociative | src/math_utils/kinematics_math.rs:216-226 | the quaternion product is associative |
| Kinematics.NormOfProduct | src/math_utils/kinematics_math.rs:216-226 | squared norms multiply, for all quaternions |
| Kinematics.TurnIsRotation | src/math_utils/kinematics_math.rs:164-187 | the matrix form against q v q*: they differ by the squared norm minus one, times v |
| Kinematics.RightHanded | src/math_utils/kinematics_math.rs:29-35 | the cross product is that of a right-handed frame |
| Kinematics.CrossIsNormal | src/math_utils/kinematics_math.rs:29-35 | and normal to both factors |
| Kinematics.ProductIs | src/math_utils/kinematics_math.rs:216-226 | the quaternion product in terms of dot and cross product |
| Kinematics.RotationIs | src/math_utils/kinematics_math.rs:164-187 | the rotation in terms of cross products, for every quaternion |
| Kinematics.RotationsCompose | src/math_utils/kinematics_math.rs:185-187 | rotating by a product of unit quaternions is rotating twice |
| Kinematics.ProductActs | src/math_utils/kinematics_math.rs:115-138 | the matrix product is the composition of the linear maps |
| Kinematics.MatrixOfProduct | src/math_utils/kinematics_math.rs:164-183 | for unit quaternions the matrix of the product is the product of the matrices |
| Kinematics.UnitPreservesDot | src/math_utils/kinematics_math.rs:185-187 | unit quaternions preserve dot products |
| Kinematics.RotationExactly | src/math_utils/kinematics_math.rs:164-187 | dot products are preserved if and only if the quaternion is a unit or has no imaginary part |
| Kinematics.InverseExactly | src/math_utils/kinematics_math.rs:205-213 | the inverse is one, on both sides, if and only if the squared norm is at least EPSILON |
| Kinematics.NormalizedIsUnit | src/math_utils/kinematics_math.rs:193-199 | whatever is normalised, the result is a unit quaternion, hence a rotation |
| Kinematics.NormalizedIsParallel | src/math_utils/kinematics_math.rs:193-199 | times the norm it is the given quaternion, if that norm is at least EPSILON; else the identity |
| Kinematics.RotateBack | src/math_utils/kinematics_math.rs:201-203 | the conjugate of a unit quaternion rotates back |
| Kinematics.Multiply | src/math_utils/kinematics_math.rs:125-138 | the double loop fills in the matrix product |

## Left out

- SaturationChain.StepIsSmooth: over the reals, so rounding of f32 is not bounded.
- XgoRegisters.XgoUart.DecodeTelemetry: over the reals, so a finite angle in degrees whose product with pi overflows f32 is not modelled.
- XgoRegisters.XgoConnection.DrainFrames: stops on an empty buffer, where the loop of the source spins; XgoScanner.LoopReachesDrain and XgoScanner.LoopEndsExactly state the difference.
- XgoRegisters.XgoConnection.ReadAll: reads on after a buffer consumed entirely, where the source does not; XgoStreams.ReadsOnExactly says which reads take place.
- XgoRegisters.RunOfReads: counts the answers of all reads, of which the source takes those XgoStreams.ReadsOnExactly describes.
- XgoStreams.XgoChunking: about the drain that stops on an empty buffer; XgoStreams.ReadsOnExactly is about the loop of the source.
- XgoStreams.XgoCut: about the drain that stops on an empty buffer.
- XgoStreams.XgoCutsExactly: about the drain that stops on an empty buffer; XgoStreams.ReadsOnExactly is about the loop of the source.
- XgoStreams.FrameStreamInChunks: about the drain that stops on an empty buffer; XgoStreams.FrameStreamReadWhole is about the loop of the source.
- XgoStreams.ShortCutLoses: about the drain that stops on an empty buffer.
- BinaryDecoders.DecodeGeneric: the frame size is not saturated at the width of usize.
- Watchdogs.HardWatchdog.Monitor: the trip counter is unbounded, and one clock stands for the wall clock of the heartbeat and the monotone clock of the loop.
- EstopLatches.EveryRunIsSound: a written frame is one handed to the transport; a write error is only logged by the source and is not distinguished.
- SafetySystems.LatchIsTripped: the queues are unbounded and lossless once a publication has succeeded.
- LatestCommands.EveryRunIsSound: atomic steps are sequentially consistent; the acquire-release ordering the source asks for is not modelled below that.
- A bound on the jerk of the emitted positions across velocity or geometric clamping: the source does not correct the stored acceleration after those clamps.
- Convergence of the limiter with acceleration or jerk limits.
- The text encoders of KUKA, Comau and UR and the binary one of Franka: number formatting belongs to the standard library.
- The AMR decoder, identical to the generic one.
- Sockets, serial ports, the message bus and the asynchronous runtimes: they are events and queues.
- The other transports' connection set-up, thread priorities, core pinning and frame jitter measurement.
- Configuration loading, brand detection, health probes, logging, the terminal interface, the failsafe, the ROS 2 bridge and the sandbox.
- Constructors from angles: sines and cosines are not modelled.
