/**
 Modes, faults, setpoint and command numbers over whole runs.
 */
module RunModes {
  import opened Words
  import opened Frames
  import opened Config
  import opened FrameQueues
  import opened ControllerModel
  import opened ControllerFrame
  import opened Runs

  // The fault bitmap.

  lemma FaultJoin(a: bv32, b: bv32)
    ensures WithFault(a, b) == 0 <==> a == 0 && b == 0
    ensures NonRecoverable(WithFault(a, b)) <==> NonRecoverable(a) || NonRecoverable(b)
  {
  }

  lemma FaultKinds()
    ensures !NonRecoverable(0) && !NonRecoverable(FAULT_INTERFACE) && !NonRecoverable(FAULT_QUEUE_OVERFLOW)
    ensures !NonRecoverable(FAULT_SEQUENCE) && !NonRecoverable(FAULT_COMMAND_RANGE)
    ensures NonRecoverable(FAULT_WATCHDOG)
  {
  }

  lemma ClearedIsEmpty(f: bv32)
    requires !NonRecoverable(f)
    ensures WithoutRecoverable(f) == 0
  {
  }

  /** Every bit of `a` is in `b`. */
  predicate Includes(b: bv32, a: bv32) {
    a & !b == 0
  }

  lemma IncludesJoin(a: bv32, b: bv32)
    ensures Includes(WithFault(a, b), a) && Includes(WithFault(a, b), b) && Includes(a, a)
  {
  }

  // Modes.

  /** What the fault bitmap and the two flags say in each mode. */
  predicate ModesConsistent(s: State) {
    && (s.mode == Operational ==> s.faults == 0 && s.selfTestPassed && s.heartbeatSeen)
    && (s.mode == Init ==> s.faults == 0 && !(s.selfTestPassed && s.heartbeatSeen))
    && (s.mode == Degraded ==> s.faults != 0 && !NonRecoverable(s.faults))
    && (NonRecoverable(s.faults) ==> s.mode == Safe)
  }

  /** The event is not a report of an empty, non-critical fault to a controller that is
      neither degraded nor safe. */
  predicate Harmless(s: State, e: Event) {
    e.Fault? ==> e.bits != 0 || e.critical || s.mode == Degraded || s.mode == Safe
  }

  /** The frame handed over is valid, its interface enabled, and there is room. */
  predicate Takes(s: State, frame: Frame) {
    && Encodable(frame)
    && Enabled(s.config.enabledInterfaceMask, frame.interfaceType)
    && |s.queue| < CAPACITY
  }

  /** The event is refused and latches a recoverable fault. */
  predicate Disallowed(s: State, e: Event) {
    match e
    case Beat(n) => n <= s.lastCommand
    case Command(n, v) =>
      s.mode == Operational
      && (n <= s.lastCommand || v < s.config.minimumSetpoint || v > s.config.maximumSetpoint)
    case RegisterWrite(address, _) => address >= REGISTER_COUNT
    case _ => HandedBy(e).Handed? && !Takes(s, HandedBy(e).frame)
  }

  /** The next tick finds a supervised heartbeat older than the timeout. */
  predicate TimesOut(s: State) {
    s.selfTestPassed && (Age(s) + 1) % TWO_TO_THE_32 > s.config.watchdogTimeoutMs
  }

  predicate Severe(s: State, e: Event) {
    || (e.Fault? && (e.critical || NonRecoverable(e.bits)))
    || (e.Millisecond? && TimesOut(s))
  }

  /** The documented transition table. */
  function NextMode(s: State, e: Event): Mode {
    if s.mode == Safe || Severe(s, e) then Safe
    else if Disallowed(s, e) || e.Fault? then Degraded
    else if e.Recovery? && s.mode == Degraded then Init
    else if s.mode == Init && ((e.SelfTest? && s.heartbeatSeen) || (e.Beat? && s.selfTestPassed)) then Operational
    else s.mode
  }

  // One lemma per operation: the next mode, and consistency.

  /** Exactly when reporting a fault keeps the state consistent: an empty fault that is
      not critical breaks it unless the controller is already degraded or safe. */
  lemma LatchModes(s: State, f: bv32, critical: bool)
    requires ModesConsistent(s)
    ensures ModesConsistent(LatchFault(s, f, critical))
       <==> f != 0 || critical || s.mode == Safe || s.mode == Degraded
    ensures Includes(LatchFault(s, f, critical).faults, s.faults)
  {
    hide WithFault, NonRecoverable, Includes;
    FaultJoin(s.faults, f);
    FaultKinds();
    IncludesJoin(s.faults, f);
  }

  lemma RejectModes(s: State, f: bv32)
    requires ModesConsistent(s) && f != 0 && !NonRecoverable(f)
    ensures ModesConsistent(Reject(s, f))
    ensures Reject(s, f).mode == if s.mode == Safe then Safe else Degraded
    ensures Includes(Reject(s, f).faults, s.faults)
  {
    hide WithFault, NonRecoverable, Includes, Next32;
    LatchModes(s.(counters := s.counters.(rejected := Next32(s.counters.rejected))), f, false);
  }

  /** Receive takes a frame exactly when it is valid, enabled and there is room. */
  lemma ReceiveTakes(s: State, frame: Frame)
    ensures Receive(s, frame).status == Ok <==> Takes(s, frame)
    ensures Receive(s, frame).status == ErrRange <==> !Encodable(frame)
  {
    hide Length, PayloadLimit, Enabled, Reject, CountAccepted;
  }

  lemma HandedModes(s: State, e: Event)
    requires ModesConsistent(s) && (e.Arrival? || e.Delivery?)
    ensures ModesConsistent(Act(s, e)) && Act(s, e).mode == NextMode(s, e)
    ensures Includes(Act(s, e).faults, s.faults)
  {
    hide Act, Receive, Reject, HandedBy, Takes, NonRecoverable, Includes;
    ActFrame(s, e);
    FaultKinds();
    IncludesJoin(s.faults, 0);
    if HandedBy(e).Handed? {
      var frame := HandedBy(e).frame;
      ReceiveTakes(s, frame);
      ReceiveFrame(s, frame);
      RejectModes(s, FAULT_INTERFACE);
      RejectModes(s, FAULT_QUEUE_OVERFLOW);
    }
  }

  lemma BeatModes(s: State, n: u16)
    requires ModesConsistent(s)
    ensures var t := Heartbeat(s, n).state;
      ModesConsistent(t) && t.mode == NextMode(s, Beat(n)) && Includes(t.faults, s.faults)
  {
    hide LatchFault, NonRecoverable, Includes, WithFault;
    HeartbeatFrame(s, n);
    FaultKinds();
    IncludesJoin(s.faults, 0);
    LatchModes(s, FAULT_SEQUENCE, false);
    LatchedMode(s, FAULT_SEQUENCE);
  }

  lemma LatchedMode(s: State, f: bv32)
    requires !NonRecoverable(f)
    ensures LatchFault(s, f, false).mode == if s.mode == Safe then Safe else Degraded
  {
  }

  lemma CommandModes(s: State, n: u16, v: i16)
    requires ModesConsistent(s)
    ensures var t := SetSetpoint(s, n, v).state;
      ModesConsistent(t) && t.mode == NextMode(s, Command(n, v)) && Includes(t.faults, s.faults)
  {
    hide LatchFault, NonRecoverable, Includes, WithFault;
    FaultKinds();
    IncludesJoin(s.faults, 0);
    LatchModes(s, FAULT_SEQUENCE, false);
    LatchedMode(s, FAULT_SEQUENCE);
    var t := s.(lastCommand := n);
    LatchModes(t, FAULT_COMMAND_RANGE, false);
    LatchedMode(t, FAULT_COMMAND_RANGE);
  }

  lemma TickModes(s: State)
    requires ModesConsistent(s)
    ensures ModesConsistent(Tick(s)) && Tick(s).mode == NextMode(s, Millisecond)
    ensures Includes(Tick(s).faults, s.faults)
  {
    hide Tick, Advance, NonRecoverable, Includes, WithFault;
    TickFrame(s);
    AdvanceFrame(s);
    NextAge(s);
    FaultKinds();
    FaultJoin(s.faults, FAULT_WATCHDOG);
    IncludesJoin(s.faults, FAULT_WATCHDOG);
  }

  lemma NextAge(s: State)
    ensures Age(Advance(s)) == (Age(s) + 1) % TWO_TO_THE_32
  {
    hide Advance;
    AdvanceFrame(s);
    assert Sub32(Next32(s.elapsed), s.lastHeartbeat) == (Age(s) + 1) % TWO_TO_THE_32;
  }

  lemma RegisterModes(s: State, a: u8, d: bv8)
    requires ModesConsistent(s)
    ensures var t := WriteRegister(s, a, d).state;
      ModesConsistent(t) && t.mode == NextMode(s, RegisterWrite(a, d)) && Includes(t.faults, s.faults)
  {
    hide LatchFault, NonRecoverable, Includes, WithFault;
    FaultKinds();
    IncludesJoin(s.faults, 0);
    LatchModes(s, FAULT_INTERFACE, false);
    LatchedMode(s, FAULT_INTERFACE);
  }

  lemma FaultModes(s: State, f: bv32, critical: bool)
    requires ModesConsistent(s)
    ensures var t := LatchFault(s, f, critical);
      && (ModesConsistent(t) <==> Harmless(s, Fault(f, critical)))
      && t.mode == NextMode(s, Fault(f, critical)) && Includes(t.faults, s.faults)
  {
    hide NonRecoverable, Includes, WithFault;
    LatchModes(s, f, critical);
  }

  lemma RecoverModes(s: State)
    requires ModesConsistent(s)
    ensures Recover(s).status == Ok <==> s.mode == Degraded
    ensures Recover(s).status == Ok ==> Recover(s).state.faults == 0 && !NonRecoverable(s.faults)
    ensures ModesConsistent(Recover(s).state) && Recover(s).state.mode == NextMode(s, Recovery)
    ensures Recover(s).status != Ok ==> Recover(s).state == s
  {
    hide NonRecoverable, WithoutRecoverable;
    FaultKinds();
    if s.mode == Degraded {
      ClearedIsEmpty(s.faults);
    }
  }

  lemma QuietModes(s: State, e: Event)
    requires ModesConsistent(s) && (e.SelfTest? || e.TelemetryCall? || e.QueueRead?)
    ensures ModesConsistent(Act(s, e)) && Act(s, e).mode == NextMode(s, e)
    ensures Includes(Act(s, e).faults, s.faults)
  {
    hide NonRecoverable, Includes;
    IncludesJoin(s.faults, 0);
  }

  /** One event from a consistent state: the mode follows the documented table, the
      state stays consistent exactly if the event is harmless, and fault bits are dropped
      only by an accepted recovery, which finds none of the non-recoverable ones. */
  lemma StepModes(s: State, e: Event)
    requires ModesConsistent(s)
    ensures ModesConsistent(Act(s, e)) <==> Harmless(s, e)
    ensures Act(s, e).mode == NextMode(s, e)
    ensures RecoveryAccepted(s, e) <==> e.Recovery? && s.mode == Degraded
    ensures if RecoveryAccepted(s, e) then !NonRecoverable(s.faults) && Act(s, e).faults == 0
            else Includes(Act(s, e).faults, s.faults)
  {
    hide Act, NextMode, ModesConsistent, NonRecoverable, Includes;
    hide MarkSelfTest, LatchFault, Heartbeat, SetSetpoint, Recover, Tick, WriteRegister, CountReport, Consume;
    hide Receive, HandedBy;
    ActFrame(s, e);
    match e
    case Beat(n) => BeatModes(s, n);
    case Command(n, v) => CommandModes(s, n, v);
    case Fault(f, c) => FaultModes(s, f, c);
    case Recovery => RecoverModes(s); IncludesJoin(s.faults, 0);
    case Millisecond => TickModes(s);
    case RegisterWrite(a, d) => RegisterModes(s, a, d);
    case Arrival(frame) => HandedModes(s, e);
    case Delivery(_, _) => HandedModes(s, e);
    case _ => QuietModes(s, e);
  }

  /** Every event of a continuation is harmless where it occurs. */
  ghost predicate HarmlessFrom(w: World, events: seq<Event>) {
    forall i | 0 <= i < |events| :: Harmless(Continue(w, events[..i]).state, events[i])
  }

  /** Every state on the way is consistent. */
  ghost predicate ConsistentFrom(w: World, events: seq<Event>) {
    forall i | 0 <= i <= |events| :: ModesConsistent(Continue(w, events[..i]).state)
  }

  lemma HarmlessOneMore(w: World, events: seq<Event>)
    requires events != []
    ensures var n := |events| - 1;
      HarmlessFrom(w, events)
      <==> HarmlessFrom(w, events[..n]) && Harmless(Continue(w, events[..n]).state, events[n])
  {
    hide Harmless, Continue;
    var n := |events| - 1;
    var front := events[..n];
    assert forall i | 0 <= i < n :: front[..i] == events[..i] && front[i] == events[i];
  }

  lemma ConsistentOneMore(w: World, events: seq<Event>)
    requires events != []
    ensures ConsistentFrom(w, events)
       <==> ConsistentFrom(w, events[..|events| - 1]) && ModesConsistent(Continue(w, events).state)
  {
    hide ModesConsistent, Continue;
    var n := |events| - 1;
    var front := events[..n];
    assert forall i | 0 <= i <= n :: front[..i] == events[..i];
    assert events[..n + 1] == events;
  }

  /** A consistent controller stays consistent all the way exactly if every event is
      harmless where it occurs. */
  lemma {:induction false} HarmlessIff(w: World, events: seq<Event>)
    requires ModesConsistent(w.state)
    ensures HarmlessFrom(w, events) <==> ConsistentFrom(w, events)
    decreases |events|
  {
    hide Act, ModesConsistent, NextClock, NextCommands, NextTraffic, Harmless, HarmlessFrom, ConsistentFrom;
    if events == [] {
      NothingHappened(w);
    } else {
      var n := |events| - 1;
      HarmlessIff(w, events[..n]);
      HarmlessOneMore(w, events);
      ConsistentOneMore(w, events);
      if ConsistentFrom(w, events[..n]) {
        EndConsistent(w, events[..n]);
        StepModes(Continue(w, events[..n]).state, events[n]);
      }
    }
  }

  lemma NothingHappened(w: World)
    requires ModesConsistent(w.state)
    ensures HarmlessFrom(w, []) && ConsistentFrom(w, [])
  {
    hide ModesConsistent;
    var none: seq<Event> := [];
    assert none[..0] == none;
  }

  lemma EndConsistent(w: World, events: seq<Event>)
    requires ConsistentFrom(w, events)
    ensures ModesConsistent(Continue(w, events).state)
  {
    hide ModesConsistent, Continue;
    assert events[..|events|] == events;
  }

  /** Every state reached by harmless events is consistent. */
  lemma RunModesConsistent(config: Configuration, events: seq<Event>)
    requires HarmlessFrom(Begin(config), events)
    ensures ModesConsistent(Run(config, events).state)
  {
    hide Step, ModesConsistent, HarmlessFrom, ConsistentFrom;
    BeginConsistent(config);
    HarmlessIff(Begin(config), events);
    EndConsistent(Begin(config), events);
    RunContinues(config, [], events);
    assert [] + events == events;
  }

  lemma BeginConsistent(config: Configuration)
    ensures ModesConsistent(Begin(config).state)
  {
    FaultKinds();
  }

  /** A run with an empty fault breaks it: the fault degrades an operational controller with
      nothing to recover from, and the next self-test event makes it operational. */
  lemma EmptyFaultRun(config: Configuration)
    ensures var before := [SelfTest, Beat(1), Fault(0, false)];
      && Run(config, before).state.mode == Degraded && Run(config, before).state.faults == 0
      && Run(config, before + [SelfTest]).state.mode == Operational
  {
    RunOne(config, [], SelfTest);
    RunOne(config, [SelfTest], Beat(1));
    RunOne(config, [SelfTest, Beat(1)], Fault(0, false));
    RunOne(config, [SelfTest, Beat(1), Fault(0, false)], SelfTest);
    assert [] + [SelfTest] == [SelfTest];
    assert [SelfTest] + [Beat(1)] == [SelfTest, Beat(1)];
    assert [SelfTest, Beat(1)] + [Fault(0, false)] == [SelfTest, Beat(1), Fault(0, false)];
    FaultKinds();
    FaultJoin(0, 0);
  }

  lemma RunOne(config: Configuration, events: seq<Event>, e: Event)
    ensures Run(config, events + [e]) == Step(Run(config, events), e)
  {
    assert (events + [e])[..|events|] == events;
  }

  // Consequences of the table.

  /** Once safe, always safe, whatever happens short of a new initialisation. */
  lemma SafeStays(s: State, e: Event)
    requires s.mode == Safe
    ensures Act(s, e).mode == Safe
  {
    hide WithFault, NonRecoverable, WithoutRecoverable, Decode, Encodable, Wire, Length, PayloadLimit, Enabled;
    hide Advance, Overdue, Next32;
    if e.Millisecond? {
      TickFrame(s);
      AdvanceFrame(s);
    }
  }

  lemma {:induction false} SafeForever(w: World, events: seq<Event>)
    requires w.state.mode == Safe
    ensures Continue(w, events).state.mode == Safe
    decreases |events|
  {
    hide Act, NextClock, NextCommands, NextTraffic;
    if events == [] {
    } else {
      SafeForever(w, events[..|events| - 1]);
      SafeStays(Continue(w, events[..|events| - 1]).state, events[|events| - 1]);
    }
  }

  /** No single event leads from operation to `Init`, or from degraded into operation:
      `Init` is entered only by recovering, and operation only from `Init`. */
  lemma NoShortCuts(s: State, e: Event)
    requires ModesConsistent(s)
    ensures s.mode == Operational ==> Act(s, e).mode != Init
    ensures s.mode == Degraded ==> Act(s, e).mode != Operational
    ensures Act(s, e).mode == Init && s.mode != Init ==> s.mode == Degraded && RecoveryAccepted(s, e)
    ensures Act(s, e).mode == Operational && s.mode != Operational ==> s.mode == Init && (e.SelfTest? || e.Beat?)
  {
    hide Act, RecoveryAccepted, HandedBy, Severe, Disallowed;
    StepModes(s, e);
  }

  /** How bad a mode is, once initialisation is over. */
  function Severity(mode: Mode): nat {
    match mode
    case Init => 0
    case Operational => 0
    case Degraded => 1
    case Safe => 2
  }

  ghost predicate NoRecoveryFrom(w: World, events: seq<Event>) {
    forall i | 0 <= i < |events| :: !RecoveryAccepted(Continue(w, events[..i]).state, events[i])
  }

  lemma NoRecoveryOneMore(w: World, events: seq<Event>)
    requires events != [] && NoRecoveryFrom(w, events)
    ensures var n := |events| - 1;
      NoRecoveryFrom(w, events[..n]) && !RecoveryAccepted(Continue(w, events[..n]).state, events[n])
  {
    hide RecoveryAccepted, Continue;
    var n := |events| - 1;
    assert forall i | 0 <= i < n :: events[..n][..i] == events[..i];
  }

  /** Without an accepted recovery things only get worse: over any stretch of harmless
      events a controller past `Init` never returns to it, and never to a less severe mode. */
  lemma {:induction false} OnlyWorse(w: World, events: seq<Event>)
    requires ModesConsistent(w.state) && w.state.mode != Init
    requires HarmlessFrom(w, events) && NoRecoveryFrom(w, events)
    ensures var t := Continue(w, events).state;
      ModesConsistent(t) && t.mode != Init && Severity(t.mode) >= Severity(w.state.mode)
    decreases |events|
  {
    hide Act, ModesConsistent, NextClock, NextCommands, NextTraffic, Harmless, HarmlessFrom, NoRecoveryFrom;
    hide RecoveryAccepted, NextMode;
    if events == [] {
    } else {
      var n := |events| - 1;
      HarmlessOneMore(w, events);
      NoRecoveryOneMore(w, events);
      OnlyWorse(w, events[..n]);
      StepModes(Continue(w, events[..n]).state, events[n]);
      NextModeWorse(Continue(w, events[..n]).state, events[n]);
    }
  }

  lemma NextModeWorse(s: State, e: Event)
    requires s.mode != Init && !(e.Recovery? && s.mode == Degraded)
    ensures NextMode(s, e) != Init && Severity(NextMode(s, e)) >= Severity(s.mode)
  {
    hide Severe, Disallowed;
  }

  /** Which calls report success. */
  lemma SucceedsIff(s: State, e: Event)
    ensures e.Beat? ==> (Heartbeat(s, e.number).status == Ok <==> !Disallowed(s, e))
    ensures e.Command? ==>
      (SetSetpoint(s, e.number, e.value).status == Ok <==> s.mode == Operational && !Disallowed(s, e))
    ensures e.RegisterWrite? ==> (WriteRegister(s, e.address, e.data).status == Ok <==> !Disallowed(s, e))
    ensures e.Arrival? ==> (Receive(s, e.frame).status == Ok <==> !Disallowed(s, e))
  {
    hide LatchFault, Receive, Takes, Encodable, Wire;
    if e.Arrival? {
      ReceiveTakes(s, e.frame);
    }
  }

  // The setpoint.

  predicate SetpointInRange(s: State) {
    s.setpoint == 0 || s.config.minimumSetpoint <= s.setpoint <= s.config.maximumSetpoint
  }

  /** The setpoint changes only by a fresh, in-range command in operation. */
  lemma StepSetpoint(s: State, e: Event)
    ensures Act(s, e).setpoint
         == if e.Command? && s.mode == Operational && !Disallowed(s, e) then e.value else s.setpoint
  {
    hide Act, LatchFault, Heartbeat, Tick, Advance, WriteRegister, Receive, HandedBy, Overdue, Takes;
    ActFrame(s, e);
    match e
    case Beat(n) => HeartbeatFrame(s, n);
    case Command(n, v) =>
      LatchFrame(s, FAULT_SEQUENCE, false);
      LatchFrame(s.(lastCommand := n), FAULT_COMMAND_RANGE, false);
    case Fault(f, c) => LatchFrame(s, f, c);
    case Recovery => RecoverFrame(s);
    case Millisecond => TickFrame(s); AdvanceFrame(s);
    case RegisterWrite(a, d) => RegisterFrame(s, a, d);
    case Arrival(frame) => ReceiveAny(s, e);
    case Delivery(_, _) => ReceiveAny(s, e);
    case _ =>
  }

  lemma {:induction false} RunSetpointInRange(config: Configuration, events: seq<Event>)
    ensures SetpointInRange(Run(config, events).state)
    decreases |events|
  {
    hide Act, NextClock, NextCommands, NextTraffic;
    if events == [] {
    } else {
      var n := |events| - 1;
      var s := Run(config, events[..n]).state;
      RunSetpointInRange(config, events[..n]);
      StepSetpoint(s, events[n]);
      ActKeepsConfig(s, events[n]);
    }
  }
}
