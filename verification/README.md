# Embedded software qualification harness: verified model

A Dafny model of the portable C core of the harness (CRC-16, frame codec, ring queue,
configuration test, controller, telemetry) and of its Python qualification gate, with
proofs of what they promise. `dafny verify dfyconfig.toml` checks everything.

Files, in the order they build on each other:

- `Words`, `Crc`, `BitStrings`, `CrcAlgebra`, `CrcPolynomial`, `CrcDistance`, `CrcResidue`:
  the CRC loop on 16-bit registers and what it means. The register is lifted to bit
  strings once; linearity, polynomial division by x^16 + x^12 + x^5 + 1 (the generator of
  ITU-T Recommendation V.41, section 2) and error detection are proved there.
- `Frames`, `FrameLaws`, `FrameFormats`: the codec in place on byte arrays; decoding is the
  inverse of encoding; which corruptions are caught, and that the bounds are sharp; every
  buffer and its status by the byte layouts of the interface description.
- `FrameQueue`, `Config`, `ControllerModel`, `Controller`, `Telemetry`: the ring buffer and
  the controller are classes whose methods are proved against functions on states.
- `ControllerFrame`, `Runs`, `RunClock`, `RunModes`, `RunCommands`, `RunWatchdog`,
  `RunTraffic`, `RunAnswers`, `RunSteps`: sequences of calls of any length from an
  initialisation, with an unbounded history beside the wrapping state; and for every call in
  every state the status and the fault bits, in numbers. The consumer of the queue is an event of the run;
  a `Delivery` is a buffer that is decoded and, if it is a frame, received.
- `Ordering`, `GateInput`, `GateRecords`, `Gate`, `GateReport`, `GateFindings`, `GateRun`: the
  gate from decoded records to exit code.

Conventions. Bytes, wire words, CRC registers and fault bitmaps are bit-vectors;
`uint16_t` and `uint32_t` counters and clocks are integers with the wrap-around written
out. Every definition that main results rest on is pinned by a law in literal numbers, names
and bits. The interface of a frame is an integer because the code tests for values outside its
enumeration.

Where the code and its documents disagree, the model follows the code:

- `docs/SSDD.md` line 59 asks for a current heartbeat on the way from `Init` to
  `Operational`. The self-test path (`src/controller.c` lines 74-81) asks only for some
  heartbeat since the last recovery. `StaleHeartbeat` gives runs with a heartbeat of any
  age, and `EntryCurrentIff` says exactly when the heartbeat is current. The next tick
  looks at the age modulo 2^32 only: `SupervisedTickIff` and `StaleTickIff` say exactly
  when it ends the exception, `WrappedHeartbeat` is a run in which it does not, under every
  valid configuration, and `RunCurrent` says that from then on the heartbeat is truly
  current exactly if it is less than 2^32 ms old.
- Reporting an empty, non-critical fault (`src/controller.c` lines 160-165) degrades the
  controller with nothing to recover from, against lines 65 and 70-72 of `docs/SSDD.md`. No fault
  macro is empty. `EmptyFaultRun` is such a run, `LatchModes` says exactly which reports
  keep the state consistent, and `HarmlessIff` says it for whole runs: every state on the
  way is consistent if and only if no such report (`Harmless`) meets a controller that is
  neither degraded nor safe. The lemmas that need this condition are
  `RunModesConsistent` and `OnlyWorse`; all other lemmas on runs take every run.

## Model

| member | source | states |
|---|---|---|
| Crc.ComputeCrc16 | src/crc.c:3-22 | the nested loops compute the register function that the CRC lemmas are about, for every buffer and length |
| Crc.KnownAnswers | src/crc.c:3-22 | the CRC of no bytes is 0xffff, of one zero byte 0xe1f0 |
| BitStrings.BitStringAt | src/crc.c:11-14 | bit 8i + j of a message is the j-th bit of its byte i, counted from the most significant |
| CrcAlgebra.RegisterFeeds | src/crc.c:11-20 | adding a byte and shifting eight times feeds its eight bits, most significant first, into a linear shift register |
| CrcAlgebra.FeedAllLinear | src/crc.c:11-20 | the register is linear over GF(2) in start value and message together |
| CrcAlgebra.ShiftInjective | src/crc.c:13-19 | zero-input register steps lose no information |
| CrcAlgebra.CrcAffine | src/crc.c:3-22 | the CRC of an exclusive or differs from the exclusive or of the CRCs by the CRC of the all-zero message |
| CrcPolynomial.CrcIsRemainder | src/crc.c:3-22 | a word is the CRC of a message if and only if it is the remainder of preset * x^(8n) + message * x^16 by the generator, the preset with all sixteen coefficients set, "remainder" defined by an existing quotient |
| CrcPolynomial.RemainderUnique | src/crc.c:3-22 | a polynomial has only one remainder of degree below 16 |
| CrcPolynomial.MultipleSpan | src/crc.c:13-19 | first and last term of a non-zero multiple of the generator are at least 16 powers apart |
| CrcDistance.NoReturn | src/crc.c:13-19 | the order of x modulo the generator exceeds 2127 |
| CrcDistance.OddErrorsDetected | src/crc.c:3-22 | equally long messages with the same CRC differ in an even number of bits, at any length |
| CrcDistance.BurstsDetected | src/crc.c:3-22 | messages that differ only within 16 consecutive bits, at any offset, have different CRCs |
| CrcDistance.DistanceCounts | src/crc.c:3-22 | the distance of two messages is the number of positions where their bits differ |
| CrcDistance.MinimumDistance | src/crc.c:3-22 | different messages of at most 266 bytes with the same CRC differ in at least four bits |
| CrcDistance.BoundAttained | src/crc.c:3-22 | adding the generator at any byte of any message keeps the CRC |
| CrcDistance.BoundAttainedDistance | src/crc.c:3-22 | that change flips exactly four bits, so the minimum distance is sharp |
| CrcDistance.BoundAttainedBurst | src/crc.c:3-22 | that change lies within 17 consecutive bits, so the burst bound is sharp |
| CrcResidue.ResidueZero | src/crc.c:3-22 | a message followed by two bytes has CRC 0 if and only if they are its big-endian CRC |
| CrcResidue.ResidueOfBuffer | src/frame.c:189-193 | comparing the received with the computed CRC is the same as a zero residue over the whole buffer |
| Frames.PayloadLimit | src/frame.c:39-52 | no interface, known or not, allows more than the payload field holds |
| Frames.CopyBytes | src/frame.c:8-18 | copies exactly the given number of bytes and changes nothing else |
| Frames.WriteU16 | src/frame.c:27-30 | stores the high byte, then the low byte, and changes nothing else |
| Frames.WriteU32 | src/frame.c:32-37 | stores four bytes, most significant first, and changes nothing else |
| Words.SplitJoins | src/frame.c:20-30 | reading back a written word gives the word |
| Words.JoinSplits | src/frame.c:20-30 | writing back a read word gives the bytes |
| FrameFormats.BytesOfWord | src/frame.c:27-30 | high and low byte of a word are quotient and remainder by 256 |
| FrameFormats.WordOfBytes | src/frame.c:20-25 | a read word is 256 times the first byte plus the second |
| FrameFormats.BytesOfLongWord | src/frame.c:32-37 | the four bytes of a 32-bit word are its digits to base 256, most significant first |
| Frames.Encode | src/frame.c:66-129 | success writes exactly the wire form and its size and nothing beyond; every failure, the late unknown interface included, leaves buffer and size unchanged; the status is the one of the specification |
| Frames.WriteWire | src/frame.c:92-126 | header, payload and CRC are laid out as the wire form |
| Frames.OpenHeader | src/frame.c:147-184 | the header tests, in order, with their statuses |
| Frames.DecodeInto | src/frame.c:131-203 | success stores the decoded frame with a zeroed payload tail, every failure leaves the destination unchanged; no read leaves the buffer |
| FrameLaws.EncodeOkIff | src/frame.c:76-90 | encoding succeeds exactly for valid frames and buffers that hold the wire form |
| FrameLaws.DecodeWire | src/frame.c:66-203 | decoding an encoded frame gives it back with its payload tail cleared |
| FrameLaws.WireDecode | src/frame.c:66-203 | encoding a decoded frame gives back the same bytes |
| FrameLaws.DecodeIffWire | src/frame.c:131-203 | the decoder accepts exactly the wire forms of valid frames, and returns the frame |
| FrameLaws.OneInterface | src/frame.c:147-184 | no buffer is accepted under two interface types |
| FrameLaws.AcceptedResidue | src/frame.c:185-193 | an accepted buffer has between 7 and 266 bytes and CRC 0 over its whole length |
| FrameLaws.AcceptedDistance | src/frame.c:131-203 | two different accepted buffers of one length differ in an even number of at least four bits, whatever their interface types |
| FrameLaws.CorruptionRejected | src/frame.c:131-203 | one to three wrong bits, any odd number, or a burst of at most 16 bits anywhere in an encoded frame, length field included, is rejected under every interface type |
| FrameLaws.FourErrorsAccepted | src/frame.c:131-203 | both bounds are sharp: the generator added inside any payload gives an accepted buffer that differs in exactly four bits, all within 17 consecutive ones |
| FrameFormats.WireLayout | docs/ICD.md:40-94 | every byte of an encoded frame: markers, fields, length, payload and CRC at their offsets, for all four formats |
| FrameFormats.DecodeAnswers | src/frame.c:131-203 | every buffer under every interface value is accepted exactly in the documented form, or refused with the documented status |
| FrameFormats.DecodedFields | src/frame.c:147-202 | every field of an accepted frame at its offset in the buffer, its payload, and zeros behind it |
| FrameFormats.WireSizeIs | src/frame.c:54-64 | the size of any frame in numbers, 0 for an oversized one |
| FrameFormats.EncodeAnswers | src/frame.c:76-90 | the status of encoding any frame into any capacity, with limits and sizes in numbers |
| FrameQueues.FrameQueue.Init | src/queue.c:3-10 | any storage becomes an empty queue |
| FrameQueues.FrameQueue.Push | src/queue.c:12-29 | appends to the queue, or refuses at eight frames and changes nothing |
| FrameQueues.FrameQueue.Pop | src/queue.c:31-48 | hands out the oldest frame, or reports empty and changes nothing |
| FrameQueues.RingPush | src/queue.c:22-27 | writing the slot behind the ring appends to the sequence it stands for, across the wrap |
| FrameQueues.RingPop | src/queue.c:41-46 | the head slot is the first of the sequence and advancing the head removes it, across the wrap |
| Config.TextEqual | src/config.c:19-31 | compares two C strings up to their terminators and never reads past either |
| Config.TextIff | src/config.c:19-31 | a field holds a text if and only if it starts with its characters and a terminator |
| Config.CopyText | src/config.c:3-17 | the destination ends in a terminator and holds as much of the source as fits |
| Config.CheckConfig | src/config.c:45-70 | decides timeout range, setpoint range, interface mask, version and baseline |
| Config.ValidIff | src/config.c:45-70 | a configuration is valid if and only if timeout, setpoint range and mask are in their numeric ranges and the two texts are in place, terminated |
| Config.DefaultConfig | src/config.c:33-43 | the default configuration is valid |
| Controllers.Controller.Init | src/controller.c:39-72 | a valid configuration gives the initial state whatever the storage held; an invalid one changes nothing |
| Controllers.Controller.MarkSelfTestPassed | src/controller.c:74-81 | the new state is that of the state function, nothing else changes |
| Controllers.Controller.Latch | src/controller.c:152-166 | the same for fault reports |
| Controllers.Controller.AcceptCommand | src/controller.c:83-97 | state and status of the sequence guard |
| Controllers.Controller.AcceptHeartbeat | src/controller.c:99-120 | state and status of a heartbeat |
| Controllers.Controller.CommandSetpoint | src/controller.c:122-150 | state and status of a setpoint command |
| Controllers.Controller.TryRecover | src/controller.c:168-184 | state and status of a recovery |
| Controllers.Controller.OneTick | src/controller.c:186-211 | the state after one millisecond |
| Controllers.Controller.ReceiveFrame | src/controller.c:213-282 | state, queue and status of a received frame |
| Controllers.Controller.SpiWrite | src/controller.c:3-22 | state and status of a register write |
| Controllers.Controller.SpiRead | src/controller.c:24-37 | reads the register, or reports the range error and leaves the destination |
| Controllers.Controller.WriteTelemetry | src/controller.c:284-323 | 24 bytes of the advanced state and nothing beyond |
| RunSteps.Perform | src/controller.c:74-323 | each event of a run, performed on the controller object, changes the state it holds and returns the status exactly as the run says, and hands out the oldest frame or the record |
| RunSteps.Deliver | src/frame.c:131-203 | decoding a buffer in place and receiving the frame is the delivery event of a run, status included |
| RunAnswers.EncodableIff | docs/ICD.md:36-94 | a frame has a wire form if and only if interface, length and CAN identifier are within the documented numbers |
| RunAnswers.ReceiveAnswers | src/controller.c:223-264 | the status of receive in every state for every frame: range error for an invalid one, state error if its mask bit 0x1, 0x2, 0x4 or 0x8 is clear, full at eight, otherwise accepted |
| RunAnswers.DefaultMaskTakes | src/controller.c:245-246 | under mask 0x0f every valid frame is accepted while there is room |
| RunAnswers.StepAnswers | src/controller.c:74-282 | every call in every state: the status it returns and the exact fault bitmap after it, each bit in numbers; only a successful recovery clears bits, and then all |
| Telemetry.RecordReads | src/controller.c:291-321 | a reader written from the record layout recovers every field, and the whole record has CRC 0 |
| RunClock.RunClockTrue | src/controller.c:190-201 | after any N ticks clock and release counts are N, N, N/10, N/100 modulo 2^32, and the down-counters 10 - N mod 10 and 100 - N mod 100, across wraps |
| RunClock.AgeTrue | src/controller.c:202-204 | the modular heartbeat age is the true age modulo 2^32, and equal to it below 2^32 |
| RunModes.LatchModes | src/controller.c:160-165 | a fault report keeps the modes consistent if and only if it has a bit set, is critical, or the controller is degraded or safe; it drops no bit |
| RunModes.EmptyFaultRun | src/controller.c:160-165 | a run with an empty fault that becomes degraded without faults and then operational without recovery |
| RunModes.ReceiveTakes | src/controller.c:223-264 | receive accepts exactly valid frames of enabled interfaces when there is room; its range error is exactly an invalid frame |
| RunModes.StepModes | src/controller.c:74-211 | one event from a consistent state: the mode follows the documented table, consistency is kept if and only if the event is no empty, non-critical fault reported to a controller neither degraded nor safe, and fault bits go only by an accepted recovery and never non-recoverable ones |
| RunModes.HarmlessIff | src/controller.c:160-165 | over any stretch of events from a consistent state, every state on the way is consistent if and only if every report is harmless where it occurs |
| RunModes.RunModesConsistent | src/controller.c:74-211 | in every state reached without such reports: operational has no fault and both flags, init no fault and not both flags, degraded only recoverable faults and at least one, any other fault means safe |
| RunAnswers.RunModesInBits | include/esqh/esqh.h:16-23 | in every state reached by harmless events, which modes go with which of the 32 fault bits and which flags |
| RunModes.SafeForever | docs/SSDD.md:66-73 | nothing short of a new initialisation leaves the safe mode |
| RunModes.NoShortCuts | docs/SSDD.md:57-74 | no single event leads from operational to init or from degraded to operational; init is entered only by a recovery, operational only from init |
| RunModes.OnlyWorse | docs/SSDD.md:57-74 | over any stretch of harmless events without an accepted recovery, a controller past init never returns to it and never becomes less severe |
| RunModes.SucceedsIff | src/controller.c:83-150 | exactly which heartbeat, command, register and receive calls report success |
| RunModes.StepSetpoint | src/controller.c:122-150 | the setpoint changes only by a fresh in-range command in operation |
| RunModes.RunSetpointInRange | src/controller.c:139-148 | in every run the setpoint is 0 or within the configured range |
| RunCommands.RunCommandsTrue | src/controller.c:83-120 | in every run, recoveries included, accepted numbers are positive and strictly increasing, and the flags are set exactly by a self-test and a heartbeat since the last recovery |
| RunCommands.CommandsBounded | src/controller.c:87-95 | at most 65,535 commands are accepted, and never more than the last number |
| RunCommands.OperationalEarned | src/controller.c:179-182 | in every run, an operational controller saw a self-test and an accepted heartbeat since the start or the last recovery |
| RunWatchdog.WatchdogExact | src/controller.c:202-210 | a supervised controller left alone keeps its mode while the ticks fit into the timeout and is safe with the watchdog bit from the next tick on, whatever other traffic there is |
| RunWatchdog.WatchdogBitIff | include/esqh/esqh.h:20 | the watchdog bit is bit 16 |
| RunWatchdog.HeartbeatsSustain | src/controller.c:112-113 | heartbeats at most a timeout apart keep the controller operational for ever, across clock wraps |
| RunWatchdog.RunCurrent | src/controller.c:202-210 | in every run, after a supervised tick the true heartbeat age of a controller outside safe is within the timeout modulo 2^32, and truly within it if and only if it is below 2^32 |
| RunWatchdog.SupervisedTickIff | src/controller.c:202-210 | a supervised tick keeps the mode if and only if the true age it finds is within the timeout modulo 2^32, and then the heartbeat is truly current if and only if that age is below 2^32 |
| RunWatchdog.TicksSinceBeat | src/controller.c:112-113 | while no heartbeat is accepted the true age grows by exactly the ticks taken |
| RunWatchdog.StaleHeartbeat | src/controller.c:74-81 | for every age there is a run that becomes operational on a heartbeat of that age |
| RunWatchdog.StaleTickIff | src/controller.c:202-210 | the tick after such an entry keeps the controller operational if and only if the age it finds is within the timeout modulo 2^32 |
| RunWatchdog.WrappedHeartbeat | src/controller.c:202-204 | under every valid configuration there is a run operational after a supervised tick on a heartbeat 2^32 + 1 ms old |
| RunWatchdog.EntryCurrentIff | src/controller.c:74-81 | operation is entered with a current heartbeat if and only if by a heartbeat, or by a self-test when the age as the code computes it is within the timeout and less than 2^32 ms passed since the last heartbeat |
| RunWatchdog.LiveTicksBounded | src/controller.c:186-211 | in every run the supervised ticks that leave the controller outside safe are at most a timeout per accepted heartbeat and one more, plus a timeout and one per turn of the 32-bit clock |
| RunWatchdog.LiveTicksBelowWrap | src/controller.c:87-120 | below 2^32 ticks they are at most timeout times (last command number + 1), hence at most 65,536,000 |
| RunWatchdog.SupervisionEndsSafe | src/controller.c:202-210 | a controller supervised for more than 65,536,000 ticks, in fewer than 2^32, is safe |
| RunTraffic.StepQueue | src/controller.c:255-263 | only an accepted frame enters the queue, only a read leaves it |
| RunTraffic.RunQueueTrue | src/controller.c:223-281 | in every run the frames taken out followed by those queued are the accepted ones in order, and each re-encodes to the buffer it came from |
| RunTraffic.DecodedRefusal | src/controller.c:223-264 | a decoded frame is refused only for a disabled interface or a full queue |
| RunTraffic.RunCountersTrue | src/controller.c:265-281 | every counter is what it counts modulo 2^32, and the telemetry sequence counts calls modulo 65,536 |
| RunTraffic.Conservation | src/controller.c:223-281 | interface counters equal that interface's frames taken out or queued (plus register writes, for SPI), and all five add up to receive calls and register writes, modulo 2^32 |
| RunTraffic.RegistersReadBack | src/controller.c:19-36 | after any run each register holds the value last written to it |
| RunTraffic.TelemetryOfRun | src/controller.c:291-321 | the next record of any run reads back as the number of calls, the present fields, and all five unbounded counts modulo 65,536 |
| Ordering.SortForgetsOrder | tools/qualification.py:401 | sorting by unique keys gives the same result for every order of the input |
| Ordering.SortIsSorted | tools/qualification.py:674 | sorting by a total order leaves no inversion |
| Ordering.LessIff | tools/qualification.py:674 | a string is smaller if and only if it is a proper prefix or smaller at the first difference |
| GateInput.NormalizeMethods | tools/qualification.py:370-377 | collects the known methods and reports the unknown names |
| GateRecords.MethodsAre | tools/qualification.py:35-54 | exactly the accepted method names and the strategy of each |
| GateRecords.StatusesAre | tools/qualification.py:28-30 | exactly which names and flags mean passed, failed and incomplete |
| GateRecords.ReferencesAre | tools/qualification.py:296-315 | references are accepted if and only if there are some and none repeats, and come out strictly sorted |
| GateRecords.RequirementIs | tools/qualification.py:330-395 | when a requirement record is accepted by itself, and every field of what it becomes |
| GateRecords.ProcedureIs | tools/qualification.py:420-477 | the same for procedures |
| GateRecords.CaseIs | tools/qualification.py:526-555 | the same for case results |
| GateRecords.ReferenceFinding | tools/qualification.py:281-314 | which code a bad list of references raises |
| GateRecords.RequirementFinding | tools/qualification.py:330-388 | which finding any requirement record of a document raises, code and subject, or none |
| GateRecords.ProcedureFinding | tools/qualification.py:420-468 | the same for procedures |
| GateRecords.CaseFinding | tools/qualification.py:526-546 | the same for case results |
| GateRecords.EmptyDocuments | tools/qualification.py:397-398 | the code for an empty document of each kind |
| GateInput.LoadRequirements | tools/qualification.py:318-401 | accepts exactly non-empty documents of well-formed records with unique identifiers, returns them sorted, and otherwise raises exactly the specified findings in order |
| GateInput.LoadProcedures | tools/qualification.py:408-482 | the same for procedures, references sorted and without repetition |
| GateInput.ParseCaseResults | tools/qualification.py:516-560 | the same for case results |
| GateInput.FindingsAre | tools/qualification.py:329-395 | the findings are exactly the problems of the records: unreadable, an identifier that an earlier record claims, or a late problem |
| GateInput.RefusedIff | tools/qualification.py:397-401 | there is a finding if and only if the document is empty, a record does not parse or an identifier repeats |
| GateInput.RequirementsAgree | tools/qualification.py:330-395 | a requirement record parses if and only if it raises no problem by itself, and keeps the identifier it claims |
| GateInput.ProceduresAgree | tools/qualification.py:420-477 | the same for procedures |
| GateInput.CasesAgree | tools/qualification.py:526-555 | the same for cases |
| Gate.ProcedureIssues | tools/qualification.py:618-656 | exactly the issues of one procedure, and what it maps |
| Gate.TraceabilityIssues | tools/qualification.py:607-674 | exactly the issues of the relational specification, each as often as it is raised, sorted |
| Gate.RaisedAre | tools/qualification.py:618-673 | what the loops raise, one by one, is exactly what the relational specification lists |
| Gate.FindFirst | tools/qualification.py:630-632 | the record looked up is the first with the identifier |
| Gate.TraceableIff | tools/qualification.py:607-674 | there is no issue if and only if every reference resolves, every requirement and case is referenced and every method is permitted |
| Gate.ReconciledIff | tools/qualification.py:607-674 | for unique requirement identifiers, traceability in terms of the records alone: each reference meets a record with that identifier and, for requirements, without methods or with this one |
| GateFindings.MismatchIff | tools/qualification.py:633-645 | a method mismatch is reported exactly for a procedure and a known requirement it references that has methods, none of them the procedure's |
| GateFindings.UnknownRequirementIff | tools/qualification.py:620-627 | an unknown requirement is reported exactly for each reference without a record |
| GateFindings.MissingCaseIff | tools/qualification.py:646-654 | a missing case is reported exactly for each case reference without a result |
| GateFindings.UnreferencedIff | tools/qualification.py:658-673 | unmapped requirements and unknown cases are reported exactly if no procedure references them |
| GateFindings.ResultIssueIff | tools/qualification.py:702-721 | failed cases, incomplete cases and a non-zero exit code are reported exactly as they are |
| GateFindings.CodesAndSubjects | tools/qualification.py:622-719 | code and subject of every finding |
| GateFindings.ListedByCode | tools/qualification.py:727-730 | findings are listed by code, then subject, then text |
| GateFindings.DecimalReads | tools/qualification.py:719 | a number in a text reads back as the number, sign included, without leading zeros |
| GateReport.BuildReport | tools/qualification.py:689-811 | a report with exactly the specified findings, strictly sorted, and the specified metadata, rows and counts |
| GateReport.ReportFields | tools/qualification.py:777-811 | verdict, metadata, exit code, counts of positions and requirement rows of any report |
| GateReport.ProcedureRows | tools/qualification.py:732-743 | procedure rows keep order, identifier, title, references and method of the procedures |
| GateReport.RequirementRows | tools/qualification.py:745-775 | requirement rows: identifier, title, exactly the procedures that reference it, sorted, and exactly the cases those reference, each once, sorted |
| GateReport.CountCases | tools/qualification.py:777-779 | the three counts add up to the number of cases |
| GateReport.CountStatusIs | tools/qualification.py:777-779 | each count is the number of positions with that status |
| GateReport.CaseMapLast | tools/qualification.py:698 | the case looked up is the last with the identifier |
| GateReport.ProcedureStatusIff | tools/qualification.py:677-686 | exactly when a procedure passes, is incomplete and fails, by its cases |
| GateReport.RequirementStatusIff | tools/qualification.py:746-766 | exactly when a requirement passes, is incomplete and fails, by the procedures that reference it |
| GateReport.HostPassIff | tools/qualification.py:698-780 | the verdict is a pass exactly when the exit code is 0, there were no input issues, every case passed and the records are traceable |
| GateReport.HostPassMeans | tools/qualification.py:698-780 | the same for unique requirement identifiers, in terms of the records alone |
| GateReport.HostPassRows | tools/qualification.py:732-780 | a pass means that every procedure row and requirement row passes and the standalone traceability check is empty |
| GateReport.ReportUnique | tools/qualification.py:723-811 | the specification of a report leaves no choice |
| GateRun.Qualify | tools/qualification.py:970-1048 | result source and documents to report and exit code: 2 for refused input, 0 for a pass, 1 otherwise |
| GateRun.ReportedIff | tools/qualification.py:970-1037 | exactly when there is a report: one source of results, a captured code that is not negative and none beside a binary, metadata present and equal, and three documents that load |
| GateRun.SuccessIff | tools/qualification.py:1018-1048 | the gate succeeds exactly when there is a report, the binary returned 0 or the captured code is 0, every case passed and the loaded records are reconciled |
| GateRun.ExitCodeReported | tools/qualification.py:1018-1048 | a report on a binary that returned anything but 0, negative codes included, or on such a captured code, fails with a finding about that very code |
| GateRun.LoadedSorted | tools/qualification.py:401-482 | what a loader returns has strictly ascending identifiers and holds exactly the parsed records |
| GateRun.LoadedPermuted | tools/qualification.py:318-560 | a loader accepts permuted records, or refuses them in every order, and returns the same items |
| GateRun.ReferencesForgetOrder | tools/qualification.py:305-315 | references inside a procedure are parsed alike in every order |
| GateRun.MethodsForgetOrder | tools/qualification.py:370-394 | methods inside a requirement are parsed alike in every order and however often repeated |
| GateRun.OrderIndependent | tools/qualification.py:689-811 | permuting records, references inside procedures, or methods inside requirements gives the identical report or a refusal in both cases |

## Left out

- LoadRequirements: a finding has its record, code and subject, but not its message text. The same holds for the other two loaders.
- Qualify: the failure report of refused input is not modelled, only the refusal and exit code 2.
- WatchdogExact: starts from an age, as the code computes it, within the timeout; a larger one, possible only before the first supervised tick, is covered by `SupervisedTickIff`.
- NULL arguments and overlapping buffers: arguments are non-null and distinct.
- Reading JSON, running the binary (its return code is an input), argument parsing, the Markdown rendering and report files: the gate starts from decoded records.
- Key aliases, blank stripping, case folding and the requirement statement in the Python loaders: records arrive with their fields picked out, texts stripped, method and status names in lower case.
- The constant parts of the report (evidence scope, external gates, schema version) and the totals that are lengths of its lists.
- Firmware start-up, linker script, ELF inspection and build files.
- Real bus behaviour: the code models none.
