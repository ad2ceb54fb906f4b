/**
 Command numbers, self-tests and heartbeats over whole runs.
 */
module RunCommands {
  import opened Words
  import opened Frames
  import opened Config
  import opened ControllerModel
  import opened ControllerFrame
  import opened Runs

  predicate Increasing(numbers: seq<u16>) {
    && (forall i | 0 <= i < |numbers| :: numbers[i] >= 1)
    && (forall i, j | 0 <= i < j < |numbers| :: numbers[i] < numbers[j])
  }

  function Last(numbers: seq<u16>): u16 {
    if numbers == [] then 0 else numbers[|numbers| - 1]
  }

  /** The guard holds the last accepted number, accepted numbers increase across
      recoveries, and the two flags say that a self-test and a heartbeat happened
      since the last recovery. */
  predicate CommandsTrue(s: State, c: Commands) {
    && Increasing(c.numbers)
    && s.lastCommand == Last(c.numbers)
    && (s.selfTestPassed <==> c.selfTests > 0)
    && (s.heartbeatSeen <==> c.beats > 0)
    && (c.supervisedTick ==> s.selfTestPassed)
  }

  /** What an event does to the guard and the flags. */
  lemma StepFlags(s: State, e: Event)
    ensures var t := Act(s, e);
      && t.lastCommand == (if NumberAccepted(s, e) then e.number else s.lastCommand)
      && (NumberAccepted(s, e) ==> e.number > s.lastCommand)
      && t.selfTestPassed == (if RecoveryAccepted(s, e) then false
                              else s.selfTestPassed || (e.SelfTest? && s.mode != Safe))
      && t.heartbeatSeen == (if RecoveryAccepted(s, e) then false else s.heartbeatSeen || BeatAccepted(s, e))
  {
    hide Act, LatchFault, Heartbeat, SetSetpoint, AcceptSequence, Tick, Advance, WriteRegister, Receive;
    hide HandedBy, Overdue, NonRecoverable, WithoutRecoverable;
    ActFrame(s, e);
    match e
    case Beat(n) => AcceptFrame(s, n); HeartbeatFrame(s, n); BeatGuard(s, n);
    case Command(n, v) => AcceptFrame(s, n); SetpointFrame(s, n, v); CommandGuard(s, n, v);
    case Fault(f, c) => LatchFrame(s, f, c);
    case Recovery => RecoverFrame(s);
    case Millisecond => TickFrame(s); AdvanceFrame(s);
    case RegisterWrite(a, d) => RegisterFrame(s, a, d);
    case Arrival(frame) => ReceiveAny(s, e);
    case Delivery(_, _) => ReceiveAny(s, e);
    case _ =>
  }

  lemma BeatGuard(s: State, n: u16)
    ensures Heartbeat(s, n).state.lastCommand == if n > s.lastCommand then n else s.lastCommand
  {
    hide LatchFault;
    LatchFrame(s, FAULT_SEQUENCE, false);
  }

  lemma CommandGuard(s: State, n: u16, v: i16)
    ensures SetSetpoint(s, n, v).state.lastCommand
         == if s.mode == Operational && n > s.lastCommand then n else s.lastCommand
  {
    hide LatchFault;
    LatchFrame(s, FAULT_SEQUENCE, false);
    LatchFrame(s.(lastCommand := n), FAULT_COMMAND_RANGE, false);
  }

  lemma StepCommands(s: State, c: Commands, e: Event)
    requires CommandsTrue(s, c)
    ensures CommandsTrue(Act(s, e), NextCommands(c, s, e))
  {
    hide Act, BeatAccepted, RecoveryAccepted, Heartbeat, AcceptSequence;
    StepFlags(s, e);
    if NumberAccepted(s, e) {
      assert forall i | 0 <= i < |c.numbers| :: c.numbers[i] <= s.lastCommand;
    }
    KindsApart(s, e);
  }

  lemma KindsApart(s: State, e: Event)
    ensures RecoveryAccepted(s, e) ==> e.Recovery?
    ensures BeatAccepted(s, e) ==> e.Beat?
    ensures NumberAccepted(s, e) ==> e.Beat? || e.Command?
    ensures NumberAccepted(s, e) && e.Beat? ==> BeatAccepted(s, e)
  {
  }

  /** Over every run, recoveries included, accepted command numbers are positive and
      strictly increasing; the flags record what happened since the last recovery. */
  lemma {:induction false} RunCommandsTrue(config: Configuration, events: seq<Event>)
    ensures CommandsTrue(Run(config, events).state, Run(config, events).commands)
    decreases |events|
  {
    hide Act, NextCommands, NextClock, NextTraffic;
    if events == [] {
    } else {
      var n := |events| - 1;
      var w := Run(config, events[..n]);
      RunCommandsTrue(config, events[..n]);
      StepCommands(w.state, w.commands, events[n]);
    }
  }

  lemma {:induction false} CountIncreasing(numbers: seq<u16>)
    requires Increasing(numbers)
    ensures |numbers| <= Last(numbers)
    decreases |numbers|
  {
    if numbers == [] {
    } else {
      CountIncreasing(numbers[..|numbers| - 1]);
    }
  }

  /** At most 65,535 commands are accepted in one run. */
  lemma CommandsBounded(config: Configuration, events: seq<Event>)
    ensures |Run(config, events).commands.numbers| <= Run(config, events).state.lastCommand <= 65535
  {
    hide Run;
    RunCommandsTrue(config, events);
    CountIncreasing(Run(config, events).commands.numbers);
  }

  /** Operation needs both flags. */
  predicate Earned(s: State) {
    s.mode == Operational ==> s.selfTestPassed && s.heartbeatSeen
  }

  /** Every event keeps that, an empty fault report included. */
  lemma StepEarned(s: State, e: Event)
    requires Earned(s)
    ensures Earned(Act(s, e))
  {
    hide Act, LatchFault, Tick, Advance, WriteRegister, Receive, Reject, HandedBy, Overdue, Heartbeat, SetSetpoint;
    hide AcceptSequence, NonRecoverable, WithFault, WithoutRecoverable, CountAccepted, Next32;
    ActFrame(s, e);
    match e
    case Beat(n) => AcceptFrame(s, n); HeartbeatFrame(s, n); AcceptEarned(s, n);
    case Command(n, v) => SetpointFrame(s, n, v); CommandEarned(s, n, v);
    case Fault(f, c) => LatchEarned(s, f, c);
    case Millisecond => TickFrame(s); AdvanceFrame(s);
    case RegisterWrite(a, d) => RegisterFrame(s, a, d); RegisterEarned(s, a, d);
    case Arrival(_) => HandedEarned(s, e);
    case Delivery(_, _) => HandedEarned(s, e);
    case _ =>
  }

  lemma LatchEarned(s: State, f: bv32, critical: bool)
    ensures LatchFault(s, f, critical).mode != Operational
  {
    hide WithFault, NonRecoverable;
  }

  lemma AcceptEarned(s: State, n: u16)
    ensures AcceptSequence(s, n).status != Ok ==> AcceptSequence(s, n).state.mode != Operational
  {
    hide LatchFault;
    LatchEarned(s, FAULT_SEQUENCE, false);
  }

  lemma CommandEarned(s: State, n: u16, v: i16)
    ensures SetSetpoint(s, n, v).state.mode == Operational ==> s.mode == Operational
  {
    hide LatchFault;
  }

  lemma RegisterEarned(s: State, a: u8, d: bv8)
    ensures WriteRegister(s, a, d).state.mode == Operational ==> s.mode == Operational
  {
    hide LatchFault, Next32;
    LatchEarned(s, FAULT_INTERFACE, false);
  }

  lemma HandedEarned(s: State, e: Event)
    requires (e.Arrival? || e.Delivery?) && Earned(s)
    ensures Earned(Act(s, e))
  {
    hide Act, Receive, LatchFault, HandedBy, CountAccepted, Next32;
    ActFrame(s, e);
    ReceiveAny(s, e);
    if HandedBy(e).Handed? {
      ReceiveFrame(s, HandedBy(e).frame);
      var t := s.(counters := s.counters.(rejected := Next32(s.counters.rejected)));
      LatchEarned(t, FAULT_INTERFACE, false);
      LatchEarned(t, FAULT_QUEUE_OVERFLOW, false);
    }
  }

  lemma {:induction false} RunEarned(config: Configuration, events: seq<Event>)
    ensures Earned(Run(config, events).state)
    decreases |events|
  {
    hide Act, NextCommands, NextClock, NextTraffic;
    if events == [] {
    } else {
      var n := |events| - 1;
      RunEarned(config, events[..n]);
      StepEarned(Run(config, events[..n]).state, events[n]);
    }
  }

  /** Whenever the controller is operational, a self-test event and an accepted
      heartbeat both happened since the start or the last accepted recovery. */
  lemma OperationalEarned(config: Configuration, events: seq<Event>)
    requires Run(config, events).state.mode == Operational
    ensures Run(config, events).commands.selfTests > 0 && Run(config, events).commands.beats > 0
  {
    hide Run;
    RunCommandsTrue(config, events);
    RunEarned(config, events);
  }

  /** Every accepted heartbeat used up a command number. */
  lemma {:induction false} BeatsAreCommands(config: Configuration, events: seq<Event>)
    ensures Run(config, events).clock.beats <= |Run(config, events).commands.numbers|
    decreases |events|
  {
    hide Act, BeatAccepted, RecoveryAccepted, NextTraffic;
    if events == [] {
    } else {
      var n := |events| - 1;
      BeatsAreCommands(config, events[..n]);
      KindsApart(Run(config, events[..n]).state, events[n]);
    }
  }
}
