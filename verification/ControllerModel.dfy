/**
 The controller of `src/controller.c` as a function on states: one function per
 public operation, giving the next state and the returned status.
 */
module ControllerModel {
  import opened Words
  import opened Frames
  import opened Config
  import opened FrameQueues

  datatype Mode = Init | Operational | Degraded | Safe

  // Fault bits.

  const FAULT_INTERFACE: bv32 := 0x1
  const FAULT_QUEUE_OVERFLOW: bv32 := 0x2
  const FAULT_SEQUENCE: bv32 := 0x4
  const FAULT_COMMAND_RANGE: bv32 := 0x8
  const FAULT_WATCHDOG: bv32 := 0x1_0000
  const RECOVERABLE_FAULTS: bv32 := 0xf

  /** Some bit lies outside the recoverable mask. */
  predicate NonRecoverable(faults: bv32) {
    faults & !RECOVERABLE_FAULTS != 0
  }

  function WithFault(faults: bv32, fault: bv32): bv32 {
    faults | fault
  }

  function WithoutRecoverable(faults: bv32): bv32 {
    faults & !RECOVERABLE_FAULTS
  }

  predicate WatchdogBit(faults: bv32) {
    faults & FAULT_WATCHDOG != 0
  }

  const REGISTER_COUNT: nat := 16

  type Registers = r: seq<bv8> | |r| == REGISTER_COUNT witness seq(REGISTER_COUNT, _ => 0)

  datatype Counters = Counters(uart: u32, spi: u32, can: u32, ethernet: u32, rejected: u32)

  /** `esqh_controller_t`, with the queue as the sequence it holds. */
  datatype State = State(
    config: Configuration,
    mode: Mode,
    queue: seq<Frame>,
    counters: Counters,
    elapsed: u32,
    lastHeartbeat: u32,
    faults: bv32,
    task1ms: u32,
    task10ms: u32,
    task100ms: u32,
    lastCommand: u16,
    telemetrySequence: u16,
    setpoint: i16,
    registers: Registers,
    scheduler10ms: u8,
    scheduler100ms: u8,
    selfTestPassed: bool,
    heartbeatSeen: bool)

  datatype Outcome = Outcome(state: State, status: Status)

  /** `esqh_controller_init` with a valid configuration. */
  function Initial(config: Configuration): State {
    State(config, Init, [], Counters(0, 0, 0, 0, 0), 0, 0, 0, 0, 0, 0, 0, 0, 0,
          seq(REGISTER_COUNT, _ => 0), 10, 100, false, false)
  }

  function MarkSelfTest(s: State): State {
    if s.mode == Safe then s
    else s.(selfTestPassed := true,
            mode := if s.heartbeatSeen && s.faults == 0 then Operational else s.mode)
  }

  function LatchFault(s: State, fault: bv32, critical: bool): State {
    s.(faults := WithFault(s.faults, fault),
       mode := if critical || NonRecoverable(fault) then Safe
               else if s.mode == Safe then Safe else Degraded)
  }

  function AcceptSequence(s: State, sequence: u16): Outcome {
    if sequence == 0 || sequence <= s.lastCommand then
      Outcome(LatchFault(s, FAULT_SEQUENCE, false), ErrSequence)
    else
      Outcome(s.(lastCommand := sequence), Ok)
  }

  function Heartbeat(s: State, sequence: u16): Outcome {
    var accepted := AcceptSequence(s, sequence);
    if accepted.status != Ok then accepted else
    var t := accepted.state;
    Outcome(t.(heartbeatSeen := true,
               lastHeartbeat := t.elapsed,
               mode := if t.mode != Safe && t.selfTestPassed && t.faults == 0 then Operational else t.mode),
            Ok)
  }

  function SetSetpoint(s: State, sequence: u16, setpoint: i16): Outcome {
    if s.mode != Operational then Outcome(s, ErrState) else
    var accepted := AcceptSequence(s, sequence);
    if accepted.status != Ok then accepted else
    var t := accepted.state;
    if setpoint < t.config.minimumSetpoint || setpoint > t.config.maximumSetpoint then
      Outcome(LatchFault(t, FAULT_COMMAND_RANGE, false), ErrRange)
    else
      Outcome(t.(setpoint := setpoint), Ok)
  }

  function Recover(s: State): Outcome {
    if s.mode != Degraded || s.faults == 0 || NonRecoverable(s.faults) then Outcome(s, ErrState)
    else
      Outcome(s.(faults := WithoutRecoverable(s.faults), mode := Init,
                 selfTestPassed := false, heartbeatSeen := false), Ok)
  }

  /** `x--` on a uint8_t. */
  function Prev8(x: u8): u8 {
    if x == 0 then 0xff else x - 1
  }

  /** The 10 ms down-counter of one tick, and the release it causes at zero. */
  function Released10(s: State): State {
    var c := Prev8(s.scheduler10ms);
    if c == 0 then s.(task10ms := Next32(s.task10ms), scheduler10ms := 10) else s.(scheduler10ms := c)
  }

  /** The same for 100 ms. */
  function Released100(s: State): State {
    var c := Prev8(s.scheduler100ms);
    if c == 0 then s.(task100ms := Next32(s.task100ms), scheduler100ms := 100) else s.(scheduler100ms := c)
  }

  /** The clock and the release counts of one tick. */
  function Advance(s: State): State {
    Released100(Released10(s.(elapsed := Next32(s.elapsed), task1ms := Next32(s.task1ms))))
  }

  /** Milliseconds since the last accepted heartbeat, as the code computes them. */
  function Age(s: State): u32 {
    Sub32(s.elapsed, s.lastHeartbeat)
  }

  predicate Overdue(s: State) {
    s.selfTestPassed && Age(s) > s.config.watchdogTimeoutMs
  }

  function Tick(s: State): State {
    var t := Advance(s);
    if Overdue(t) then LatchFault(t, FAULT_WATCHDOG, true) else t
  }

  predicate Enabled(mask: bv32, interfaceType: int) {
    mask & (if interfaceType == UART then 0x1
            else if interfaceType == SPI then 0x2
            else if interfaceType == CAN then 0x4 else 0x8) != 0
  }

  function Reject(s: State, fault: bv32): State {
    LatchFault(s.(counters := s.counters.(rejected := Next32(s.counters.rejected))), fault, false)
  }

  function CountAccepted(c: Counters, interfaceType: int): Counters {
    if interfaceType == UART then c.(uart := Next32(c.uart))
    else if interfaceType == SPI then c.(spi := Next32(c.spi))
    else if interfaceType == CAN then c.(can := Next32(c.can))
    else if interfaceType == ETHERNET then c.(ethernet := Next32(c.ethernet))
    else c
  }

  function Receive(s: State, frame: Frame): Outcome {
    if !Known(frame.interfaceType) || Length(frame) > PayloadLimit(frame.interfaceType) then
      Outcome(Reject(s, FAULT_INTERFACE), ErrRange)
    else if frame.interfaceType == CAN && frame.messageId > 0x07ff then
      Outcome(Reject(s, FAULT_INTERFACE), ErrRange)
    else if !Enabled(s.config.enabledInterfaceMask, frame.interfaceType) then
      Outcome(Reject(s, FAULT_INTERFACE), ErrState)
    else if |s.queue| >= CAPACITY then
      Outcome(Reject(s, FAULT_QUEUE_OVERFLOW), ErrFull)
    else
      Outcome(s.(queue := s.queue + [frame],
                 counters := CountAccepted(s.counters, frame.interfaceType)), Ok)
  }

  function WriteRegister(s: State, address: u8, value: bv8): Outcome {
    if address >= REGISTER_COUNT then Outcome(LatchFault(s, FAULT_INTERFACE, false), ErrRange)
    else
      Outcome(s.(registers := s.registers[address := value],
                 counters := s.counters.(spi := Next32(s.counters.spi))), Ok)
  }

  /** Telemetry only advances its own sequence number. */
  function CountReport(s: State): State {
    s.(telemetrySequence := (s.telemetrySequence + 1) % TWO_TO_THE_16)
  }

  /** The consumer of the queue takes the oldest frame, if there is one. */
  function Consume(s: State): State {
    if s.queue == [] then s else s.(queue := s.queue[1..])
  }
}
