# Rover CAN link: model and proofs

A Dafny model of the link between a Jetson and the rover's Teensy controller,
with proofs about every run of it. Times are unbounded milliseconds; the
firmware sees them modulo 2^32. Sequence numbers are modulo 256. `dafny verify
dfyconfig.toml` checks everything.

| file | what it models |
|---|---|
| `Words.dfy`, `Config.dfy` | fixed-width integers, constants of `rover_config.h` and `rover_protocol.h` |
| `Gf2.dfy` | polynomials over GF(2) modulo G = x^8+x^4+x^3+x^2+1: division, order of x, bursts, pairs |
| `Crc8.dfy` | the bit-serial CRC-8/SAE-J1850 (section 7.2.1.1 of the AUTOSAR Specification of CRC Routines) |
| `Frame.dfy` | the identifier-seeded eight-byte frame and what its CRC detects |
| `Protocol.dfy` | CONTROL and telemetry codecs, `wrapI32` |
| `Layout.dfy` | the wire format said in bytes and bits alone |
| `PyBits.dfy`, `PyProtocol.dfy`, `PyMessages.dfy` | the Python twin on unbounded integers, proved against the same specification |
| `History.dfy` | what a controller should know, as functions of the frames it received |
| `Rules.dfy` | what the controller does and reports, said on the bytes of the frames it received |
| `Controller.dfy`, `Faults.dfy` | `RoverController` as a class whose fields always equal those functions |
| `Pacing.dfy` | the telemetry schedule, wrapped and unbounded; the Jetson's sending loop uses the same one |
| `Runs.dfy` | theorems over whole runs of the controller |
| `Assembler.dfy`, `Snapshots.dfy` | `TelemetryAssembler`, and its exactness over lossy channels |
| `Jetson.dfy`, `EndToEnd.dfy` | heartbeat monitor, sending loop, and the end-to-end stop bound |
| `Availability.dfy` | how much lateness and loss the rover keeps moving through |
| `Plant.dfy`, `Cycles.dfy`, `Simulator.dfy` | the simulated rover, one telemetry cycle and when its messages agree, and the main loop |
| `Pipeline.dfy` | telemetry from the main loop to the Jetson's snapshot |

How the pieces fit. The imperative parts are classes and methods with loops.
`RoverController` carries a ghost trace of everything it ingested and polled;
its invariant says all its fields are `History.Summarize` of that trace, so each
query is specified on the history and the theorems in `Runs` hold in every
reachable state. The clock runs on: an operation that reads it more than once is
specified at each of its readings, and any time may pass between two readings
and between two operations (`Clock.Pass`). Both implementations of the protocol are proved against one
set of specification functions, which makes them equivalent. `Layout` and `Rules`
say what those functions mean without them: in byte positions, bit masks, code
numbers and indices into the trace.

Where the code does not do what its comments say, or a law has a limit:

- `firmware/src/rover_protocol.cpp:102-104` says all four identifier bytes are
  chained so that an 11-bit and a 29-bit identifier with the same low bits cannot
  collide. A one-byte seed cannot do that: identifiers 0x100 and 0x1D010100 share
  every CRC (`Frame.ExtendedIdCollides`; exact condition in
  `Frame.IdCollisionIff`). The controller compares the identifier before it looks
  at the frame, so no foreign frame is accepted because of it.
- A silence of 2^32 ms or more can look short. The watchdog misses it exactly when
  its length modulo 2^32 is below the timeout (`Runs.WatchdogLapse`, with a run in
  `Runs.SilenceOfOneWrap`). Below 2^32 ms the controller is an ideal one
  (`Runs.AgreesWithIdeal`).
- The four telemetry messages of a cycle are built from separate readings of a
  running clock, so they can contradict each other: one tick lets the age read
  299 ms next to COMM_TIMEOUT (`Cycles.TickBetweenMessages`), and one inside
  `faultWord` leaves COMM_TIMEOUT and C2_LINK_LOST both clear although the base
  station is lost (`Cycles.TickInsideFaultWord`). They agree exactly when the
  silence does not cross the watchdog timeout between the first and the last
  reading of the cycle that the watchdog decides (`Cycles.CoherentIffSteady`,
  `Cycles.SteadyIffNoCrossing`, on published snapshots
  `Pipeline.SnapshotIsOneCycle`). The light's reading does not count where the
  light shows FAULT anyway, in MANUAL with the base station lost. The current in
  the POWER frame belongs to readings before the cycle (`Cycles.DrawsCurrent`).
- `telemetryDue` reads a deadline that is 2^31 ms or more past as one still to come,
  exactly when it is still that far past modulo 2^32 (`Pacing.PollLapse`, an
  instance in `Pacing.StallOfHalfAWrap`).
- `telemetryDue` may say yes up to three times at one clock value, three times
  only when its deadline is exactly two periods past (`Pacing.BurstOnClock`;
  `Pacing.ThreeAtOnce` at the default period).
- The encoders keep only three bits of the indicator request, so decoding an
  encoded message gives it back exactly when the message is valid
  (`Protocol.DecodeOfEncode`).
- The assembler is exact exactly when neighbouring deliveries of different cycles
  do not carry the same number (`Snapshots.SnapshotsExact`), in particular when
  they are fewer than 256 cycles apart. Half of cycle 1 and half of cycle 257 are
  published as one snapshot (`Snapshots.MixedSnapshot`).
- The loss estimate is exact exactly when fewer than 255 frames were lost in a row
  (`Runs.LossEstimate`); beyond that it is too low, never too high. The comment at
  `firmware/src/rover_controller.cpp:75-76`, that a longer loss would have tripped
  the watchdog, holds when the watchdog timeout and the channel delay together are
  at most 254 sending periods (`EndToEnd.LossesCountedWhileAlive`).

## Model

| member | source | states |
|---|---|---|
| Crc8.Crc8Update | firmware/src/rover_protocol.cpp:86-95 | The nested loops compute the CRC register of the whole buffer |
| Crc8.CrcIsRemainder | firmware/src/rover_protocol.cpp:86-95 | For data of any length the register is the remainder modulo G of start register and message as one polynomial, times x^8 |
| Gf2.DivisionTheorem | firmware/src/rover_protocol.cpp:86-95 | That remainder is the one of polynomial division: quotient and remainder exist and are unique |
| Crc8.CrcChains | firmware/src/rover_protocol.cpp:101-114 | Running the CRC over two buffers in turn is running it over their concatenation |
| Crc8.CrcLinear | firmware/src/rover_protocol.cpp:86-95 | The register is linear in start register and data together, so XOR-affine in the data |
| Crc8.CrcBijective | firmware/src/rover_protocol.cpp:86-95 | For fixed data the CRC is a bijection of the register |
| Gf2.OrderOfX | firmware/src/rover_protocol.cpp:86-95 | x^n is 1 modulo G exactly when 255 divides n |
| Gf2.BurstNonzero | firmware/src/rover_protocol.cpp:86-95 | No nonzero pattern within eight consecutive bits is a multiple of G |
| Gf2.PairRemainder | firmware/src/rover_protocol.cpp:86-95 | Two bits form a multiple of G exactly when 255 divides their distance |
| Frame.FrameCrc8 | firmware/src/rover_protocol.cpp:101-114 | The frame CRC covers the four identifier bytes, low byte first, then the payload |
| Frame.SealFrame | firmware/src/rover_protocol.cpp:56-60 | Sealing in place appends sequence number and CRC to the payload and touches nothing beyond byte seven |
| Frame.SealMatches | firmware/src/rover_protocol.cpp:56-72 | Every sealed frame passes the check under its own identifier |
| Frame.MatchingFrameIsSealed | firmware/src/rover_protocol.cpp:56-72 | Every frame that passes is the sealing of its own payload and sequence number |
| Frame.UndetectedIffMultipleOfG | firmware/src/rover_protocol.cpp:64-72 | Corruption of a sealed frame of any length goes unnoticed exactly when the flipped bits are a multiple of G |
| Frame.BurstDetected | firmware/src/rover_protocol.cpp:64-72 | Every corruption within eight consecutive bits, across bytes and into the CRC, is caught |
| Frame.PairDetected | firmware/src/rover_protocol.cpp:64-72 | Two flipped bits escape exactly when a multiple of 255 bits apart |
| Frame.FrameErrorDetection | firmware/src/rover_protocol.cpp:64-72 | In an eight-byte frame every one-bit, two-bit and eight-bit-burst error is caught |
| Frame.FrameErrorsEscape | firmware/src/rover_protocol.cpp:64-72 | No more can be promised: a burst of nine bits, and three bits 24 and 25 places apart, go unnoticed wherever they fall |
| Frame.EscapingFrames | firmware/src/rover_protocol.cpp:64-72 | For every sealed frame the two corrupted frames that show it |
| Frame.IdCollisionIff | firmware/src/rover_protocol.cpp:101-114 | Two identifiers share every frame CRC exactly when their difference is a multiple of G |
| Frame.OneByteIdsSeparated | firmware/src/rover_protocol.cpp:101-114 | Identifiers that differ in one byte never share a frame CRC, whatever the payload |
| Frame.IdsInUseSeparated | firmware/src/rover_protocol.cpp:101-114 | A frame sealed under one of the five identifiers in use fails under each of the other four |
| Layout.KnownAnswer | host/rover_protocol.py:200-215 | The check value of CRC-8/SAE-J1850 over the digits one to nine is 0x4B |
| Layout.FrameCrcIsStandard | firmware/src/rover_protocol.cpp:101-114 | The frame CRC is that CRC over the four identifier bytes, low byte first, and the payload |
| Frame.ExtendedIdCollides | firmware/src/rover_protocol.cpp:102-104 | The claimed separation of 11-bit and 29-bit identifiers fails: 0x100 and 0x1D010100 always agree |
| Protocol.EncodeControl | firmware/src/rover_protocol.cpp:200-213 | Writes the sealed eight bytes of the message and nothing else in the buffer |
| Protocol.OpenFrame | firmware/src/rover_protocol.cpp:64-72 | Length first, then CRC; the sequence number is written only on success |
| Protocol.DecodeControl | firmware/src/rover_protocol.cpp:215-254 | The verdict is the first failing check for every buffer and length; the caller's message changes only on acceptance |
| Layout.ControlLayout | firmware/src/rover_protocol.cpp:200-213 | The byte or bit at which an encoded message keeps each field |
| Layout.ControlOnBytes | firmware/src/rover_protocol.cpp:215-254 | What the decoder reads out of each byte and bit |
| Layout.VerdictOnBytes | firmware/src/rover_protocol.cpp:215-254 | The first objection to every byte string, in order: length, CRC, mode above 2, reserved bit, indicator above 4, drive or steer beyond 1000 |
| Protocol.VerdictOfFrame | firmware/src/rover_protocol.cpp:200-254 | The verdict on the encoding of every message the struct can hold, valid or not |
| Protocol.DecodeOfEncode | firmware/src/rover_protocol.cpp:200-254 | Decoding an encoded message is accepted and gives it back exactly when the message is valid |
| Protocol.EncodeOfDecode | firmware/src/rover_protocol.cpp:200-254 | Every accepted frame holds a valid message and re-encodes to the same eight bytes |
| Protocol.ControlCodecBijective | firmware/src/rover_protocol.cpp:200-254 | Accepted frames and valid messages correspond one to one |
| Protocol.EncodeTelemetry | firmware/src/rover_protocol.cpp:260-317 | The four encoders write the sealed frame of their message and nothing else |
| Protocol.DecodeTelemetry | firmware/src/rover_protocol.cpp:266-330 | The four decoders check length and CRC; message and sequence number change only on success |
| Layout.TelemetryLayout | firmware/src/rover_protocol.cpp:260-317 | Identifier and byte positions of every field of the four telemetry messages |
| Layout.TelemetryVerdictOnBytes | firmware/src/rover_protocol.cpp:64-72 | Length, then CRC |
| Protocol.TelemetryRoundTrip | firmware/src/rover_protocol.cpp:260-330 | A frame decodes to a message and sequence number exactly when it is their encoding |
| Protocol.WrongIdRejected | firmware/src/rover_protocol.cpp:101-114 | Every message of every type is BAD_CRC under each identifier in use but its own |
| Protocol.CorruptionRejected | firmware/src/rover_protocol.cpp:64-72 | Any one, two or eight-bit-burst corruption of any message makes every decoder answer BAD_CRC |
| Protocol.WrapI32 | firmware/src/rover_protocol.cpp:142-150 | With C++'s truncating remainder the result is an int32 congruent to the value modulo 2^32 |
| Protocol.WrapUnique | firmware/src/rover_protocol.cpp:142-150 | There is only one such int32 |
| Protocol.WrapRecoversDisplacement | firmware/src/rover_protocol.cpp:142-150 | The wrapped difference of two wrapped readings is the true one exactly when that fits an int32 |
| PyProtocol.Crc8Update | host/rover_protocol.py:209-215 | The Python loops on unbounded integers compute the firmware's register |
| PyProtocol.FrameCrc8 | host/rover_protocol.py:223-229 | The Python frame CRC is the firmware's for every 32-bit identifier |
| PyProtocol.SealFrame | host/rover_protocol.py:232-236 | The Python seal produces the firmware's bytes; the sequence number is cut to eight bits |
| PyProtocol.Open | host/rover_protocol.py:239-246 | The Python check gives the firmware's verdict for every byte string |
| PyBits.CombineVal | host/rover_protocol.py:209-215 | On bytes, the unbounded and, or and xor are the fixed-width ones |
| PyBits.CombineLow | host/rover_protocol.py:209-215 | Masking after an unbounded bit operation loses nothing the low bits depend on |
| PyBits.AndSeesLowByte | host/rover_protocol.py:209-229 | A mask below 256 sees only the low byte of any integer, negative ones in two's complement |
| PyMessages.PackControlFlags | host/rover_protocol.py:253-261 | The Python flags byte is the firmware's |
| PyMessages.EncodeControl | host/rover_protocol.py:264-279 | Same eight bytes as the firmware for every message that packs, an error exactly for the others |
| PyMessages.DecodeControl | host/rover_protocol.py:282-305 | Same verdict and same fields as the firmware for every identifier and byte string |
| PyMessages.EncodeTelemetry | host/rover_protocol.py:312-331 | Same frames as the firmware for all fields that fit, encoder counts wrapped; an error exactly otherwise |
| PyMessages.FieldsMeant | host/rover_protocol.py:312-331 | Which field values pack, and that each argument becomes the field of its name, encoder counts modulo 2^32 |
| PyMessages.DecodeTelemetry | host/rover_protocol.py:334-371 | Same verdict, fields and sequence number as the firmware for every byte string |
| PyMessages.WrapsAgree | host/rover_protocol.py:183-185 | Floored and truncating remainders give the same wrapped value on the whole 64-bit domain |
| PyMessages.HelpersAgree | host/rover_protocol.py:188-197 | Age clamp and sequence distance agree with the firmware |
| History.SummaryAfterForeign | firmware/src/rover_controller.cpp:45-48 | A foreign frame changes nothing the controller knows but its count of ignored frames |
| History.SummaryAfterRejection | firmware/src/rover_controller.cpp:50-69 | A rejected frame sets its error and counters and leaves command, age and sequence alone |
| History.SummaryAfterAcceptance | firmware/src/rover_controller.cpp:71-99 | An accepted frame updates gap, loss and degradation by its sequence distance and clears both errors |
| Rules.AcceptedRule | firmware/src/rover_controller.cpp:45-69 | A reception is accepted exactly when its identifier, length, CRC, mode, flags, indicator and command bytes are all in order |
| Rules.MotionRule | firmware/src/rover_controller.cpp:113-144 | The outputs are bytes 0 to 3 of the last accepted frame while it is fresh and byte 4 is MANUAL with stop and c2_lost clear, or AUTONOMOUS with stop and abort clear; zero in every other case |
| Rules.LostStandsStill | firmware/src/rover_controller.cpp:113-144 | Without a fresh frame the outputs are zero |
| Rules.StopAndAbort | firmware/src/rover_controller.cpp:118-138 | Stop stops in every mode, abort stops AUTONOMOUS and not MANUAL |
| Rules.JetsonRule | firmware/src/rover_controller.cpp:163-172 | LOST without a fresh frame, DEGRADED when the last frame with a bad CRC or out of sequence was noticed less than 1000 ms ago, else OK |
| Rules.CleanNeverDegraded | firmware/src/rover_controller.cpp:163-172 | A run in which every CONTROL frame is accepted in sequence never reports DEGRADED |
| Rules.LightRule | firmware/src/rover_controller.cpp:204-229 | The light from mode, c2_lost bit and indicator bits of a fresh frame; FAULT without one |
| Rules.LightOfMessage | firmware/src/rover_controller.cpp:204-229 | Each light exactly in its case for every live valid message, whatever stop and abort say |
| Rules.C2Rule | firmware/src/rover_controller.cpp:174-186 | LOST or OK as the c2_lost bit of a fresh frame says, NOT_REPORTED without one |
| Rules.EchoRule | firmware/src/rover_controller.cpp:104-111 | Mode echo and saturated age of the last accepted frame, DISABLED and 65535 before it |
| Rules.FaultRule | firmware/src/rover_controller.cpp:188-202 | Each fault bit by its mask and the frames that set it; all others as the sensors gave them |
| Rules.CountRule | firmware/src/rover_controller.cpp:50-98 | What accepted, bad-CRC and gap counts count, as sizes of sets of receptions |
| Rules.VerdictRule | firmware/src/rover_controller.cpp:50-52 | The kept verdict is that on the last frame with the CONTROL identifier |
| Controller.RoverController.constructor | firmware/src/rover_controller.cpp:5-43 | A new controller is the summary of the empty history: stopped, disabled, base station lost, nothing received |
| Controller.RoverController.IngestFrame | firmware/src/rover_controller.cpp:45-100 | True exactly for accepted CONTROL frames; all fields stay the summary of the history, now one frame longer, dated by the two readings taken |
| Controller.RoverController.CheckSequence | firmware/src/rover_controller.cpp:71-91 | The exact change of gap, loss and degradation fields for every sequence distance |
| Controller.RoverController.CmdAgeMs | firmware/src/rover_controller.cpp:104-111 | The age since the last accepted frame, saturated; 0xFFFF only before the first |
| Controller.RoverController.WatchdogTripped | firmware/src/rover_controller.cpp:113-116 | Tripped exactly when nothing was accepted or the last acceptance is a timeout old on the clock |
| Controller.RoverController.EffectiveStop | firmware/src/rover_controller.cpp:118-138 | Stopped exactly when no fresh frame drives: mode MANUAL with stop and c2_lost clear, or AUTONOMOUS with stop and abort clear |
| Controller.RoverController.CommandedOutputs | firmware/src/rover_controller.cpp:140-144 | The numbers in the last accepted frame's first four bytes while it is fresh and its mode and flag bits let the rover move, else zero |
| Controller.RoverController.TelemetryDue | firmware/src/rover_controller.cpp:146-161 | One poll of the schedule: answer, deadline and sequence number, nothing else |
| Controller.RoverController.RecentlyDegraded | firmware/src/rover_controller.cpp:163-166 | The last CRC error or sequence gap in the history is within the hold time |
| Controller.RoverController.JetsonLinkState | firmware/src/rover_controller.cpp:168-172 | 2 without a fresh frame at the first reading, 1 when the link was spoilt less than 1000 ms before the second, else 0 |
| Controller.RoverController.C2LinkState | firmware/src/rover_controller.cpp:174-186 | 2 or 0 as the last accepted frame's c2_lost bit says while it is fresh, else 3 |
| Controller.RoverController.FaultWord | firmware/src/rover_controller.cpp:188-202 | Each own bit set exactly when its history definition holds, at its own reading, or it was reported; all other bits pass through |
| Controller.RoverController.IndicatorState | firmware/src/rover_controller.cpp:204-229 | The light's code from the mode, c2_lost and indicator bits of a fresh frame, 4 without one |
| Controller.RoverController.BuildPower | firmware/src/rover_controller.cpp:245-253 | The POWER message carries the fault word of the history at two readings |
| Controller.RoverController.BuildState | firmware/src/rover_controller.cpp:255-269 | The STATE message echoes mode, links and light of the history, each at its own reading |
| Faults.ComposeExplains | firmware/src/rover_controller.cpp:188-202 | OR-ing in the five bits sets each exactly when asked and changes no other bit |
| Runs.AgreesWithIdeal | firmware/src/rover_controller.cpp:102-229 | While nothing remembered is 2^32 ms old, every query answers as a controller with an unbounded clock, at every reading it takes |
| Runs.WatchdogLapse | firmware/src/rover_controller.cpp:104-116 | The wrapped watchdog misses a silence exactly when it is at least 2^32 ms and below the timeout modulo 2^32 |
| Runs.AnswersLapse | firmware/src/rover_controller.cpp:104-116 | The controller's age, degradation hold and watchdog differ from an unbounded clock's exactly when the time is at least 2^32 ms and falls short modulo 2^32 |
| Runs.SilenceOfOneWrap | firmware/src/rover_controller.cpp:104-144 | A concrete run that drives again after 2^32 ms of silence |
| Runs.MotionSafety | firmware/src/rover_controller.cpp:113-144 | Outputs are nonzero exactly when the last accepted frame is the sealed encoding of a valid message, young on the clock, unstopped, in MANUAL within reach or AUTONOMOUS without abort, that commands them; always within 1000 |
| Runs.CleanRun | firmware/src/rover_controller.cpp:45-69 | Deleting all foreign and rejected frames keeps the accepted messages, at every point of the run |
| Runs.RejectedFramesInvisible | firmware/src/rover_controller.cpp:45-69 | A controller that never saw those frames gives the same outputs, watchdog, age, C2 link, light and sequence statistics |
| Runs.SequenceLedger | firmware/src/rover_controller.cpp:78-91 | Accepted after the first, less duplicates, plus losses equals last minus first sequence number modulo 256 |
| Runs.LedgerOfController | firmware/src/rover_controller.cpp:78-98 | The same on the controller's own wrapping counters in every reachable state |
| Runs.CountersOfController | firmware/src/rover_controller.cpp:45-100 | The controller's counters, error flags and last verdict in terms of the frames it received |
| Runs.LossEstimate | firmware/src/rover_controller.cpp:78-91 | Under modulo-256 stamping the estimate is never too high, and exact exactly when fewer than 255 were lost in a row |
| Runs.ReportsAgree | firmware/src/rover_controller.cpp:108-229 | Timed out, LOST and age at the timeout coincide and force FAULT, NOT_REPORTED and zero outputs; for the age exactly when the timeout is at most 65534 |
| Runs.LightTellsMode | firmware/src/rover_controller.cpp:204-229 | A rover that may move shows TELEOP exactly in MANUAL, AUTONOMOUS or ARRIVED exactly in AUTONOMOUS |
| Runs.CoherentReports | firmware/src/rover_controller.cpp:108-229 | At one reading of the clock, fault bit, link, age, C2 and light agree in every reachable state |
| Runs.TelemetryPace | firmware/src/rover_controller.cpp:146-161 | Polled at least once a period, the controller's deadline and sequence number count elapsed periods exactly |
| Pacing.WrappedRefinesIdeal | firmware/src/rover_controller.cpp:146-161 | While poll gap plus period stays below 2^31 the wrapped schedule answers every poll as the unbounded one |
| Pacing.PollLapse | firmware/src/rover_controller.cpp:147-151 | A poll's wrapped answer is wrong exactly when its deadline is 2^31 ms or more past and still that far modulo 2^32 |
| Pacing.StallOfHalfAWrap | firmware/src/rover_controller.cpp:147-151 | A stall of 2^31 ms after which a deadline long past is not seen |
| Pacing.ExactPace | firmware/src/rover_controller.cpp:146-161 | After a poll at t it has fired floor((t - start) / period) + 1 times, with the deadline on the grid |
| Pacing.NeverTooMany | firmware/src/rover_controller.cpp:146-161 | However it is polled, it never fires more often than that |
| Pacing.NextFiring | firmware/src/rover_controller.cpp:147-158 | After a poll that fired, the next fires from one period after the old deadline, or after itself if it was more than two periods late |
| Pacing.BurstExact | firmware/src/rover_controller.cpp:151-158 | How often repeated polls at one time fire, as a function of lateness: at most three, and one after a stall |
| Pacing.BurstOnClock | firmware/src/rover_controller.cpp:146-161 | The same on the wrapped clock, after any run of polls |
| Pacing.ThreeAtOnce | firmware/src/rover_controller.cpp:151-158 | A run whose three polls at one clock value all fire |
| Pacing.FiringGaps | host/jetson_test.py:168-180 | Turns at gaps of at most g send at gaps of at most one period and g |
| Pacing.FiringsTakeTime | host/jetson_test.py:178-180 | However the loop turns, n further sendings take at least n - 2 periods |
| Assembler.TelemetryAssembler.Feed | host/jetson_test.py:60-87 | True exactly for telemetry identifiers; the counters stay the numbers of frames decoded per identifier and failed per reason; only frames that decode change the assembly |
| Assembler.TelemetryAssembler.Collect | host/jetson_test.py:69-87 | One decoded frame: torn cycles counted, a full set published |
| Assembler.FragmentsSnoc | host/jetson_test.py:60-69 | Foreign and undecodable frames leave no trace; a good one adds exactly its message and number |
| Snapshots.SnapshotsExact | host/jetson_test.py:40-87 | Over any in-order duplicate-free lossy channel, counts and snapshot agree with the per-cycle specification at every point exactly when neighbouring cycles carry different numbers |
| Snapshots.NearCyclesToldApart | host/jetson_test.py:69-78 | Fewer than 256 cycles between neighbours is enough |
| Snapshots.AssemblerIsExact | host/jetson_test.py:40-87 | The class's own counters and snapshot are those of the specification, for any raw traffic carrying such deliveries |
| Snapshots.Arrival | host/jetson_test.py:60-69 | A frame the controller sent arrives as its message; anything undecodable or foreign is as if it never came |
| Snapshots.Mixup | host/jetson_test.py:71-86 | The first pair of neighbouring cycles with one number is counted wrongly at once |
| Snapshots.MixedSnapshot | host/jetson_test.py:71-86 | A concrete run in which a snapshot mixing cycles 1 and 257 is published |
| Jetson.C2Monitor.OnLinkUpdate | host/c2_link.py:34-36 | A message is remembered as the newest heartbeat |
| Jetson.C2Monitor.NoConnection | host/c2_link.py:38-41 | Lost exactly when no heartbeat came or the newest is a timeout old |
| Jetson.PollC2Lost | host/c2_link.py:43-46 | Every waiting message is a heartbeat now; with none waiting the answer goes by the newest before |
| Jetson.JetsonLink.SendControl | host/jetson_test.py:99-111 | Each call draws the next number modulo 256, also when encoding fails; the frame is the firmware's encoding |
| Jetson.Driver.Turn | host/jetson_test.py:168-181 | On the schedule the telemetry uses, sends a frame that decodes to exactly the given drive and steer in MANUAL, TELEOP light, nothing else set, and the truth about the base station |
| EndToEnd.StopBound | host/jetson_test.py:168-177 | With loss, duplication and reordering of any kind and delay at most D, outputs are zero from last heartbeat + C2 timeout + D + watchdog timeout - 1 on |
| EndToEnd.StopBoundIsTight | host/jetson_test.py:168-177 | One millisecond earlier the rover still moves, on a log the sending loop makes |
| EndToEnd.TwoTurns | host/jetson_test.py:168-181 | Two turns of the sending loop make that log |
| EndToEnd.NoiseIsRejected | firmware/src/rover_protocol.cpp:64-72 | When every reception is a sent frame in time, or one cut short or damaged by two flipped bits or a burst of eight, whatever is accepted was sent and in time |
| EndToEnd.RoverStops | firmware/src/rover_controller.cpp:113-144 | The stop bound on the sending loop's and the controller's own states |
| EndToEnd.UnwatchedNeverMoves | host/jetson_test.py:174-175 | A Jetson without a base-station link to watch never makes the rover move, at any time |
| EndToEnd.LossesCounted | host/jetson_test.py:103-110 | On an in-order channel the counter is the missing count modulo 2^32; that count is never too high and exact exactly when fewer than 255 were lost in a row, and so is the counter below 2^32 losses |
| EndToEnd.LossesCountedWhileAlive | firmware/src/rover_controller.cpp:74-77 | While the watchdog does not trip between acceptances and it and the delay fit in 254 sending periods, the estimate is exact whatever was lost |
| Availability.RecentlyAccepted | PROTOCOL.md:662-667 | With at most k frames lost in a row the last accepted one is at most k + 1 sending gaps and the delay less 1 ms old, from the first acceptance on |
| Availability.BoundIsReached | PROTOCOL.md:662-667 | For every gap, every k and every delay a run that meets every assumption and reaches that age |
| Availability.StaysAlive | PROTOCOL.md:662-667 | If that fits below the watchdog timeout, the watchdog never trips and the outputs are the drive and steer given to a recent turn, or zero if the base station was lost at it |
| Plant.EncoderMeasures | tools/rover_sim.cpp:88-89 | Two wrapped encoder readings give the distance driven between them exactly when it fits an int32 |
| Plant.TruncDivRoundsToZero | tools/rover_sim.cpp:88-89 | C++ division gives the multiple nearest to the dividend between it and zero |
| Plant.TravelStep | tools/rover_sim.cpp:88-89 | Each turn moves the counter by a tenth of the command, rounded toward zero |
| Plant.ThereAndBack | tools/rover_sim.cpp:88-89 | Driving a sequence and then its negation brings the counter back |
| Plant.CreepGoesNowhere | tools/rover_sim.cpp:88-89 | Commands below ten in magnitude never move it |
| Plant.LoadOf | tools/rover_sim.cpp:95-97 | Current and voltage sag as fractions of the command's magnitude, rounded down |
| Plant.SlewArrives | tools/rover_sim.cpp:90-94 | Steering closes in by 25 a turn, arrives, stays and never overshoots |
| Simulator.RoverSim.Receive | tools/rover_sim.cpp:69-77 | A received line of up to eight bytes becomes one ingested frame |
| Simulator.RoverSim.MovePlant | tools/rover_sim.cpp:86-94 | Both counters stay congruent to the unbounded sum of truncated steps |
| Simulator.RoverSim.Turn | tools/rover_sim.cpp:82-118 | Outputs, plant, then at most one telemetry cycle of four frames with one number; each message tells what its own later reading of the running clock showed |
| Simulator.RoverSim.BuildCycle | tools/rover_sim.cpp:103-117 | Four messages, each from its own readings, in the order the loop takes them |
| Cycles.CoherentIffSteady | tools/rover_sim.cpp:99-118 | The four messages agree exactly when the watchdog answers alike at every reading that shows |
| Cycles.SteadyIffNoCrossing | tools/rover_sim.cpp:99-118 | Within the clock's range, exactly when the silence does not cross the timeout between the first and the last such reading |
| Cycles.CycleOnFrames | tools/rover_sim.cpp:99-118 | Every reported code, age, fault bit, current and voltage of a cycle in terms of the frames received and the cycle's readings |
| Cycles.TickBetweenMessages | tools/rover_sim.cpp:106-110 | A cycle in which one tick puts an age of 299 ms next to COMM_TIMEOUT at a timeout of 300 ms |
| Cycles.TickInsideFaultWord | firmware/src/rover_controller.cpp:188-202 | A cycle in which one tick between the two readings of the fault word leaves COMM_TIMEOUT and C2_LINK_LOST both clear |
| Pipeline.SnapshotIsOneCycle | host/jetson_test.py:79-86 | The Jetson's snapshot is the newest wholly delivered cycle exactly as the controller sent it; its messages agree exactly when the silence did not cross the timeout during that cycle |
| Pipeline.OneMoreCycle | tools/rover_sim.cpp:99-118 | Once any of the four frames of one more cycle have arrived, none twice, there are as many more genuine deliveries in order; when all four have, a lossless history stays lossless |
| Pipeline.FramesArrive | host/jetson_test.py:60-87 | Any frames sent one after the other arrive as so many deliveries |
| Pipeline.OneSnapshotPerPeriod | tools/rover_sim.cpp:99-118 | On a lossless channel exactly one snapshot per telemetry period is published, none torn |

## Left out

- A null clock function in the constructor (`firmware/src/rover_controller.cpp:13`).
- `telemetryDue` with a period of 0 or of 2^31 ms and more: the method follows the code there, the pacing laws do not cover it.
- Seconds as floating point in the Python code: times are integer milliseconds, and the derived `current_a` and `voltage_v` fields are absent.
- `raw_flags` of `encode_control`, which only tests use.
- `faultNames`, `fault_names`, `decodeResultName` and the other name tables, which restate constants.
- `Protocol.EncodeTelemetry` and `Protocol.DecodeTelemetry` stand for four functions each, told apart by the message kind.
- The assembler's merged dictionary is a record of the four messages; that the field names of the four do not clash is part of that choice.
- Duplicated telemetry frames: the assembler publishes a full cycle again for each; `Snapshots.SnapshotsExact` is about channels without duplicates.
- EndToEnd.StopBound: assumes that what the controller accepts was sent by the Jetson. `EndToEnd.NoiseIsRejected` derives this for two flipped bits, bursts of eight and cut frames; corruption that the CRC cannot catch (`Frame.UndetectedIffMultipleOfG`) and other senders on the CONTROL identifier are outside it. Jetson and rover times are on one axis.
- Jetson.Driver.Turn: drive and steer are parameters within the command range; the demo waveform, sleeping, receiving and printing of `run` are absent.
- `host/can_link.py`, sockets, subprocesses, the pipe parsing of `rover_sim.cpp` and the hardware parts of `rover_firmware.ino`.
- Configuration synchronisation, golden vectors and tests: finite samples of the properties above.
