/**
 Which fields of the controller each operation can change: everything else is as
 it was.
 */
module ControllerFrame {
  import opened Words
  import opened Frames
  import opened ControllerModel

  lemma LatchFrame(s: State, fault: bv32, critical: bool)
    ensures var t := LatchFault(s, fault, critical); t == s.(faults := t.faults, mode := t.mode)
  {
    hide WithFault, NonRecoverable;
  }

  lemma AcceptFrame(s: State, n: u16)
    ensures var t := AcceptSequence(s, n).state;
      t == s.(faults := t.faults, mode := t.mode, lastCommand := t.lastCommand)
    ensures AcceptSequence(s, n).status == Ok <==> n > s.lastCommand
    ensures AcceptSequence(s, n).status == Ok ==> AcceptSequence(s, n).state == s.(lastCommand := n)
  {
    hide LatchFault;
    LatchFrame(s, FAULT_SEQUENCE, false);
  }

  lemma HeartbeatFrame(s: State, n: u16)
    ensures var t := Heartbeat(s, n).state;
      t == s.(faults := t.faults, mode := t.mode, lastCommand := t.lastCommand,
              heartbeatSeen := t.heartbeatSeen, lastHeartbeat := t.lastHeartbeat)
    ensures Heartbeat(s, n).status == AcceptSequence(s, n).status
    ensures Heartbeat(s, n).status != Ok ==> Heartbeat(s, n).state == AcceptSequence(s, n).state
    ensures Heartbeat(s, n).status != Ok ==>
      Heartbeat(s, n).state.lastHeartbeat == s.lastHeartbeat && Heartbeat(s, n).state.heartbeatSeen == s.heartbeatSeen
    ensures Heartbeat(s, n).status == Ok ==>
      Heartbeat(s, n).state == s.(
        lastCommand := n, heartbeatSeen := true, lastHeartbeat := s.elapsed,
        mode := if s.mode != Safe && s.selfTestPassed && s.faults == 0 then Operational else s.mode)
  {
    hide AcceptSequence;
    AcceptFrame(s, n);
  }

  lemma SetpointFrame(s: State, n: u16, v: i16)
    ensures var t := SetSetpoint(s, n, v).state;
      t == s.(faults := t.faults, mode := t.mode, lastCommand := t.lastCommand, setpoint := t.setpoint)
  {
    hide AcceptSequence, LatchFault;
    AcceptFrame(s, n);
    LatchFrame(AcceptSequence(s, n).state, FAULT_COMMAND_RANGE, false);
  }

  lemma RecoverFrame(s: State)
    ensures var t := Recover(s).state;
      t == s.(faults := t.faults, mode := t.mode, selfTestPassed := t.selfTestPassed,
              heartbeatSeen := t.heartbeatSeen)
  {
    hide WithoutRecoverable, NonRecoverable;
  }

  lemma RejectFrame(s: State, fault: bv32)
    ensures var t := Reject(s, fault);
      t == s.(faults := t.faults, mode := t.mode,
              counters := s.counters.(rejected := Next32(s.counters.rejected)))
  {
    hide LatchFault, Next32;
    LatchFrame(s.(counters := s.counters.(rejected := Next32(s.counters.rejected))), fault, false);
  }

  /** Receive either accepts the frame or rejects it with one of two fault bits. */
  lemma ReceiveFrame(s: State, frame: Frame)
    ensures Receive(s, frame).status == Ok ==>
      Receive(s, frame).state
      == s.(queue := s.queue + [frame], counters := CountAccepted(s.counters, frame.interfaceType))
    ensures Receive(s, frame).status != Ok ==>
      || Receive(s, frame).state == Reject(s, FAULT_INTERFACE)
      || Receive(s, frame).state == Reject(s, FAULT_QUEUE_OVERFLOW)
    ensures var t := Receive(s, frame).state;
      t == s.(faults := t.faults, mode := t.mode, queue := t.queue, counters := t.counters)
  {
    hide Reject, Length, PayloadLimit, Enabled, CountAccepted;
    RejectFrame(s, FAULT_INTERFACE);
    RejectFrame(s, FAULT_QUEUE_OVERFLOW);
  }

  lemma RegisterFrame(s: State, address: u8, data: bv8)
    ensures var t := WriteRegister(s, address, data).state;
      t == s.(faults := t.faults, mode := t.mode, registers := t.registers, counters := t.counters)
  {
    hide LatchFault, Next32;
    LatchFrame(s, FAULT_INTERFACE, false);
  }

  lemma Released10Frame(s: State)
    ensures var t := Released10(s); t == s.(task10ms := t.task10ms, scheduler10ms := t.scheduler10ms)
  {
    hide Next32, Prev8;
  }

  lemma Released100Frame(s: State)
    ensures var t := Released100(s); t == s.(task100ms := t.task100ms, scheduler100ms := t.scheduler100ms)
  {
    hide Next32, Prev8;
  }

  /** Advancing the clock touches nothing but clocks and counts. */
  lemma AdvanceFrame(s: State)
    ensures var t := Advance(s);
      t == s.(elapsed := Next32(s.elapsed), task1ms := Next32(s.task1ms),
              task10ms := t.task10ms, task100ms := t.task100ms,
              scheduler10ms := t.scheduler10ms, scheduler100ms := t.scheduler100ms)
  {
    hide Next32, Released10, Released100;
    var t := s.(elapsed := Next32(s.elapsed), task1ms := Next32(s.task1ms));
    Released10Frame(t);
    Released100Frame(Released10(t));
  }

  /** A tick advances the clock, then trips the watchdog exactly when a supervised
      heartbeat is overdue. */
  lemma TickFrame(s: State)
    ensures Overdue(Advance(s)) ==>
      Tick(s) == Advance(s).(faults := WithFault(s.faults, FAULT_WATCHDOG), mode := Safe)
    ensures !Overdue(Advance(s)) ==> Tick(s) == Advance(s)
  {
    hide WithFault, NonRecoverable, Advance, Overdue;
    AdvanceFrame(s);
  }
}
