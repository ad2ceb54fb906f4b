/**
 The controller of `src/controller.c` as an object that its operations update.
 Every method is proved against the state function of the same operation.
 */
module Controllers {
  import opened Words
  import opened Crc
  import opened Frames
  import opened FrameQueues
  import opened Config
  import opened ControllerModel
  import opened Telemetry

  class Controller {
    var config: Configuration
    var mode: Mode
    const queue: FrameQueue
    var counters: Counters
    var elapsed: u32
    var lastHeartbeat: u32
    var faults: bv32
    var task1ms: u32
    var task10ms: u32
    var task100ms: u32
    var lastCommand: u16
    var telemetrySequence: u16
    var setpoint: i16
    const registers: array<bv8>
    var scheduler10ms: u8
    var scheduler100ms: u8
    var selfTestPassed: bool
    var heartbeatSeen: bool

    /** Storage before `Init`: the fields may hold anything. */
    constructor (filler: Frame, garbage: State)
      ensures Allocated() && fresh(queue) && fresh(queue.entries) && fresh(registers)
    {
      queue := new FrameQueue(filler);
      registers := new bv8[REGISTER_COUNT](_ => 0);
      config, mode, counters := garbage.config, garbage.mode, garbage.counters;
      elapsed, lastHeartbeat, faults := garbage.elapsed, garbage.lastHeartbeat, garbage.faults;
      task1ms, task10ms, task100ms := garbage.task1ms, garbage.task10ms, garbage.task100ms;
      lastCommand, telemetrySequence := garbage.lastCommand, garbage.telemetrySequence;
      setpoint := garbage.setpoint;
      scheduler10ms, scheduler100ms := garbage.scheduler10ms, garbage.scheduler100ms;
      selfTestPassed, heartbeatSeen := garbage.selfTestPassed, garbage.heartbeatSeen;
    }

    ghost predicate Allocated() {
      registers.Length == REGISTER_COUNT && queue.entries.Length == CAPACITY
    }

    ghost predicate Valid()
      reads queue, queue.entries
    {
      Allocated() && queue.Valid()
    }

    /** The state this object holds. */
    ghost function Abs(): State
      requires Allocated()
      reads this, queue`contents, registers
    {
      State(config, mode, queue.contents, counters, elapsed, lastHeartbeat, faults,
            task1ms, task10ms, task100ms, lastCommand, telemetrySequence, setpoint,
            registers[..], scheduler10ms, scheduler100ms, selfTestPassed, heartbeatSeen)
    }

    /** `esqh_controller_init`: an invalid configuration leaves everything as it was. */
    method Init(newConfig: Configuration)
      requires Allocated()
      modifies this, queue, registers
      ensures IsValid(newConfig) ==> Valid() && Abs() == Initial(newConfig)
      ensures !IsValid(newConfig) ==> unchanged(this, queue, registers)
    {
      hide IsValid;
      var valid := CheckConfig(newConfig);
      if !valid {
        return;
      }
      config := newConfig;
      mode := Mode.Init;
      queue.Init();
      ClearCounts();
      ClearCommands();
      ClearRegisters();
    }

    method ClearCounts()
      modifies this`counters, this`elapsed, this`lastHeartbeat
      modifies this`task1ms, this`task10ms, this`task100ms, this`scheduler10ms, this`scheduler100ms
      ensures counters == Counters(0, 0, 0, 0, 0) && elapsed == 0 && lastHeartbeat == 0
      ensures task1ms == 0 && task10ms == 0 && task100ms == 0
      ensures scheduler10ms == 10 && scheduler100ms == 100
    {
      counters := Counters(0, 0, 0, 0, 0);
      elapsed := 0;
      lastHeartbeat := 0;
      task1ms := 0;
      task10ms := 0;
      task100ms := 0;
      scheduler10ms := 10;
      scheduler100ms := 100;
    }

    method ClearCommands()
      modifies this`faults, this`lastCommand, this`telemetrySequence, this`setpoint
      modifies this`selfTestPassed, this`heartbeatSeen
      ensures faults == 0 && lastCommand == 0 && telemetrySequence == 0 && setpoint == 0
      ensures !selfTestPassed && !heartbeatSeen
    {
      faults := 0;
      lastCommand := 0;
      telemetrySequence := 0;
      setpoint := 0;
      selfTestPassed := false;
      heartbeatSeen := false;
    }

    method ClearRegisters()
      requires registers.Length == REGISTER_COUNT
      modifies registers
      ensures registers[..] == seq(REGISTER_COUNT, _ => 0)
    {
      for index := 0 to REGISTER_COUNT
        invariant forall i | 0 <= i < index :: registers[i] == 0
      {
        registers[index] := 0;
      }
    }

    /** `esqh_controller_mark_self_test_passed`. */
    method MarkSelfTestPassed()
      requires Valid()
      modifies this`selfTestPassed, this`mode
      ensures Valid() && Abs() == MarkSelfTest(old(Abs()))
    {
      if mode != Safe {
        selfTestPassed := true;
        if heartbeatSeen && faults == 0 {
          mode := Operational;
        }
      }
    }

    /** `esqh_controller_latch_fault`. */
    method Latch(fault: bv32, critical: bool)
      requires Valid()
      modifies this`faults, this`mode
      ensures Valid() && Abs() == LatchFault(old(Abs()), fault, critical)
    {
      hide WithFault, NonRecoverable;
      faults := WithFault(faults, fault);
      if critical || NonRecoverable(fault) {
        mode := Safe;
      } else if mode != Safe {
        mode := Degraded;
      }
    }

    /** `esqh_controller_accept_sequence`. */
    method AcceptCommand(sequence: u16) returns (status: Status)
      requires Valid()
      modifies this`faults, this`mode, this`lastCommand
      ensures Valid() && Outcome(Abs(), status) == AcceptSequence(old(Abs()), sequence)
    {
      if sequence == 0 || sequence <= lastCommand {
        Latch(FAULT_SEQUENCE, false);
        return ErrSequence;
      }
      lastCommand := sequence;
      return Ok;
    }

    /** `esqh_controller_heartbeat`. */
    method AcceptHeartbeat(sequence: u16) returns (status: Status)
      requires Valid()
      modifies this`faults, this`mode, this`lastCommand, this`heartbeatSeen, this`lastHeartbeat
      ensures Valid() && Outcome(Abs(), status) == Heartbeat(old(Abs()), sequence)
    {
      status := AcceptCommand(sequence);
      if status != Ok {
        return;
      }
      heartbeatSeen := true;
      lastHeartbeat := elapsed;
      if mode != Safe && selfTestPassed && faults == 0 {
        mode := Operational;
      }
    }

    /** `esqh_controller_setpoint`. */
    method CommandSetpoint(sequence: u16, value: i16) returns (status: Status)
      requires Valid()
      modifies this`faults, this`mode, this`lastCommand, this`setpoint
      ensures Valid() && Outcome(Abs(), status) == SetSetpoint(old(Abs()), sequence, value)
    {
      if mode != Operational {
        return ErrState;
      }
      status := AcceptCommand(sequence);
      if status != Ok {
        return;
      }
      if value < config.minimumSetpoint || value > config.maximumSetpoint {
        Latch(FAULT_COMMAND_RANGE, false);
        return ErrRange;
      }
      setpoint := value;
    }

    /** `esqh_controller_recover`. */
    method TryRecover() returns (status: Status)
      requires Valid()
      modifies this`faults, this`mode, this`selfTestPassed, this`heartbeatSeen
      ensures Valid() && Outcome(Abs(), status) == Recover(old(Abs()))
    {
      if mode != Degraded || faults == 0 {
        return ErrState;
      }
      hide NonRecoverable, WithoutRecoverable;
      if NonRecoverable(faults) {
        return ErrState;
      }
      faults := WithoutRecoverable(faults);
      mode := Mode.Init;
      selfTestPassed := false;
      heartbeatSeen := false;
      return Ok;
    }

    method CountDown10()
      requires Valid()
      modifies this`task10ms, this`scheduler10ms
      ensures Valid() && Abs() == Released10(old(Abs()))
    {
      scheduler10ms := Prev8(scheduler10ms);
      if scheduler10ms == 0 {
        task10ms := Next32(task10ms);
        scheduler10ms := 10;
      }
    }

    method CountDown100()
      requires Valid()
      modifies this`task100ms, this`scheduler100ms
      ensures Valid() && Abs() == Released100(old(Abs()))
    {
      scheduler100ms := Prev8(scheduler100ms);
      if scheduler100ms == 0 {
        task100ms := Next32(task100ms);
        scheduler100ms := 100;
      }
    }

    /** `esqh_controller_tick`. */
    method OneTick()
      requires Valid()
      modifies this`elapsed, this`task1ms, this`task10ms, this`task100ms, this`scheduler10ms, this`scheduler100ms
      modifies this`faults, this`mode
      ensures Valid() && Abs() == Tick(old(Abs()))
    {
      hide WithFault, NonRecoverable, Released10, Released100;
      elapsed := Next32(elapsed);
      task1ms := Next32(task1ms);
      CountDown10();
      CountDown100();
      if selfTestPassed && Sub32(elapsed, lastHeartbeat) > config.watchdogTimeoutMs {
        Latch(FAULT_WATCHDOG, true);
      }
    }

    /** The common rejection: count it and latch its fault. */
    method RejectFrame(fault: bv32)
      requires Valid()
      modifies this`counters, this`faults, this`mode
      ensures Valid() && Abs() == Reject(old(Abs()), fault)
    {
      counters := counters.(rejected := Next32(counters.rejected));
      Latch(fault, false);
    }

    /** `esqh_controller_receive`. */
    method ReceiveFrame(frame: Frame) returns (status: Status)
      requires Valid()
      modifies this`counters, this`faults, this`mode, queue, queue.entries
      ensures Valid() && Outcome(Abs(), status) == Receive(old(Abs()), frame)
    {
      hide WithFault, NonRecoverable, Length;
      var t := frame.interfaceType;
      if t < UART || t > ETHERNET || Length(frame) > PayloadLimit(t) {
        RejectFrame(FAULT_INTERFACE);
        return ErrRange;
      }
      if t == CAN && frame.messageId > 0x07ff {
        RejectFrame(FAULT_INTERFACE);
        return ErrRange;
      }
      if !Enabled(config.enabledInterfaceMask, t) {
        RejectFrame(FAULT_INTERFACE);
        return ErrState;
      }
      status := queue.Push(frame);
      if status != Ok {
        RejectFrame(FAULT_QUEUE_OVERFLOW);
        return;
      }
      counters := CountAccepted(counters, t);
    }

    /** `esqh_spi_write`. */
    method SpiWrite(address: u8, value: bv8) returns (status: Status)
      requires Valid()
      modifies this`counters, this`faults, this`mode, registers
      ensures Valid() && Outcome(Abs(), status) == WriteRegister(old(Abs()), address, value)
    {
      if address >= REGISTER_COUNT {
        Latch(FAULT_INTERFACE, false);
        return ErrRange;
      }
      registers[address] := value;
      counters := counters.(spi := Next32(counters.spi));
      return Ok;
    }

    /** `esqh_spi_read`: reads without changing anything. */
    method SpiRead(address: u8, value: Cell<bv8>) returns (status: Status)
      requires Valid()
      modifies value
      ensures status == if address < REGISTER_COUNT then Ok else ErrRange
      ensures value.value == if status == Ok then Abs().registers[address] else old(value.value)
    {
      if address >= REGISTER_COUNT {
        return ErrRange;
      }
      value.value := registers[address];
      return Ok;
    }

    /** `esqh_controller_telemetry`: 24 bytes, nothing beyond, and only the telemetry
        sequence advances. */
    method WriteTelemetry(output: array<bv8>) returns (size: nat)
      requires Valid() && output.Length >= TELEMETRY_SIZE && output != registers
      modifies this`telemetrySequence, output
      ensures Valid() && Abs() == CountReport(old(Abs()))
      ensures size == TELEMETRY_SIZE && output[..size] == Record(Abs())
      ensures forall i | size <= i < output.Length :: output[i] == old(output[i])
    {
      hide Fields, Crc16, Hi, Lo;
      telemetrySequence := (telemetrySequence + 1) % TWO_TO_THE_16;
      WriteFields(output);
      var crc := ComputeCrc16(output, 22);
      WriteU16(output, 22, crc);
      size := TELEMETRY_SIZE;
    }

    method WriteFields(output: array<bv8>)
      requires Valid() && output.Length >= TELEMETRY_SIZE && output != registers
      modifies output
      ensures output[..22] == Fields(Abs())
      ensures forall i | 22 <= i < output.Length :: output[i] == old(output[i])
    {
      hide Number, Hi, Lo, Word, Low16, FromSigned, Status8, Values4, Counts10;
      WriteStatus(output);
      WriteValues(output);
      WriteCounts(output);
    }

    method WriteStatus(output: array<bv8>)
      requires Valid() && output.Length >= TELEMETRY_SIZE && output != registers
      modifies output
      ensures output[..8] == Status8(Abs())
      ensures forall i | 8 <= i < output.Length :: output[i] == old(output[i])
    {
      hide Hi, Lo, Word, Be32;
      WriteU16(output, 0, Word(telemetrySequence));
      output[2] := ModeByte(mode);
      output[3] := 0;
      assert output[..4] == output[..2] + [ModeByte(mode), 0];
      WriteU32(output, 4, faults);
    }

    method WriteValues(output: array<bv8>)
      requires Valid() && output.Length >= TELEMETRY_SIZE && output != registers
      modifies output
      ensures output[..12] == old(output[..8]) + Values4(Abs())
      ensures forall i | 12 <= i < output.Length :: output[i] == old(output[i])
    {
      hide Hi, Lo, Word, FromSigned;
      WriteU16(output, 8, Word(FromSigned(setpoint)));
      WriteU16(output, 10, registers[0] as bv16);
    }

    method WriteCounts(output: array<bv8>)
      requires Valid() && output.Length >= TELEMETRY_SIZE && output != registers
      modifies output
      ensures output[..22] == old(output[..12]) + Counts10(counters)
      ensures forall i | 22 <= i < output.Length :: output[i] == old(output[i])
    {
      hide Hi, Lo, Word, Low16, Be16;
      WriteU16(output, 12, Word(Low16(counters.uart)));
      WriteU16(output, 14, Word(Low16(counters.spi)));
      WriteU16(output, 16, Word(Low16(counters.can)));
      WriteU16(output, 18, Word(Low16(counters.ethernet)));
      WriteU16(output, 20, Word(Low16(counters.rejected)));
    }
  }
}
