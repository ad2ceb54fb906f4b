/**
 Every call in numbers: the status it returns and the fault bitmap it leaves behind, for
 every event in every state, with the limits and bits of the interface description
 written out.
 */
module RunAnswers {
  import opened Words
  import opened Frames
  import opened FrameFormats
  import opened Config
  import opened ControllerModel
  import opened ControllerFrame
  import opened Runs
  import opened RunModes

  // What receive answers.

  /** The enable bit of a known interface. */
  function EnableBit(interfaceType: int): bv32 {
    if interfaceType == 1 then 0x1 else if interfaceType == 2 then 0x2 else if interfaceType == 3 then 0x4 else 0x8
  }

  predicate ValidFrame(frame: Frame) {
    && 1 <= frame.interfaceType <= 4
    && Length(frame) <= Limit(frame.interfaceType)
    && (frame.interfaceType == 3 ==> frame.messageId <= 0x7ff)
  }

  function FrameAnswer(s: State, frame: Frame): Status {
    if !ValidFrame(frame) then ErrRange
    else if s.config.enabledInterfaceMask & EnableBit(frame.interfaceType) == 0 then ErrState
    else if |s.queue| >= 8 then ErrFull
    else Ok
  }

  /** A frame has a wire form exactly within the numbers of the interface description. */
  lemma EncodableIff(frame: Frame)
    ensures Encodable(frame) <==> ValidFrame(frame)
  {
    hide Value;
  }

  lemma EnabledIff(mask: bv32, interfaceType: int)
    requires 1 <= interfaceType <= 4
    ensures Enabled(mask, interfaceType) <==> mask & EnableBit(interfaceType) != 0
  {
  }

  /** The status of receive, in every state and for every frame. */
  lemma ReceiveAnswers(s: State, frame: Frame)
    ensures Receive(s, frame).status == FrameAnswer(s, frame)
  {
    hide Value, Enabled, EnableBit, Reject, CountAccepted, PayloadLimit, Length, ValidFrame;
    EncodableIff(frame);
    ReceiveTakes(s, frame);
    if ValidFrame(frame) {
      KnownNumbers(frame);
      EnabledIff(s.config.enabledInterfaceMask, frame.interfaceType);
    }
  }

  lemma KnownNumbers(frame: Frame)
    requires ValidFrame(frame)
    ensures 1 <= frame.interfaceType <= 4
  {
  }

  /** With all four interfaces enabled, as by default, every valid frame is taken while there
      is room. */
  lemma DefaultMaskTakes(s: State, frame: Frame)
    requires s.config.enabledInterfaceMask == 0x0f && ValidFrame(frame) && |s.queue| < 8
    ensures Receive(s, frame).status == Ok
  {
    hide Receive, Limit;
    ReceiveAnswers(s, frame);
  }

  // Statuses and fault bits of all calls.

  predicate Recoverable(s: State) {
    s.mode == Degraded && s.faults != 0 && s.faults & 0xffff_fff0 == 0
  }

  /** The status of a call. */
  function Answer(s: State, e: Event): Status {
    match e
    case Beat(n) => if n <= s.lastCommand then ErrSequence else Ok
    case Command(n, v) =>
      if s.mode != Operational then ErrState
      else if n <= s.lastCommand then ErrSequence
      else if v < s.config.minimumSetpoint || v > s.config.maximumSetpoint then ErrRange
      else Ok
    case Recovery => if Recoverable(s) then Ok else ErrState
    case Arrival(frame) => FrameAnswer(s, frame)
    case Delivery(t, w) =>
      (match Decode(t, w)
       case Accepted(frame) => FrameAnswer(s, frame)
       case Rejected(status) => status)
    case RegisterWrite(address, _) => if address >= 16 then ErrRange else Ok
    case QueueRead => if s.queue == [] then ErrEmpty else Ok
    case _ => Ok
  }

  /** The fault bit of a frame that is refused. */
  function FrameBit(answer: Status): bv32 {
    if answer == ErrFull then 0x2 else if answer == Ok then 0 else 0x1
  }

  /** The bits a call adds. */
  function AddedBits(s: State, e: Event): bv32 {
    match e
    case Beat(n) => if n <= s.lastCommand then 0x4 else 0
    case Command(n, v) =>
      if s.mode != Operational then 0
      else if n <= s.lastCommand then 0x4
      else if v < s.config.minimumSetpoint || v > s.config.maximumSetpoint then 0x8
      else 0
    case Fault(bits, _) => bits
    case Millisecond =>
      if s.selfTestPassed
         && (s.elapsed + 1 - s.lastHeartbeat) % 0x1_0000_0000 > s.config.watchdogTimeoutMs
      then 0x1_0000 else 0
    case Arrival(frame) => FrameBit(FrameAnswer(s, frame))
    case Delivery(t, w) =>
      (match Decode(t, w)
       case Accepted(frame) => FrameBit(FrameAnswer(s, frame))
       case Rejected(_) => 0)
    case RegisterWrite(address, _) => if address >= 16 then 0x1 else 0
    case _ => 0
  }

  /** The bitmap with further bits set. */
  function Plus(faults: bv32, bits: bv32): bv32 {
    faults | bits
  }

  lemma NoBitAdded(f: bv32)
    ensures Plus(f, 0) == f
  {
  }

  lemma BitAdded(s: State, bit: bv32, critical: bool)
    ensures LatchFault(s, bit, critical).faults == Plus(s.faults, bit)
  {
  }

  lemma WatchdogBitAdded(f: bv32)
    ensures WithFault(f, FAULT_WATCHDOG) == Plus(f, 0x1_0000)
  {
  }

  lemma RecoverAnswers(s: State)
    ensures Recover(s).status == if Recoverable(s) then Ok else ErrState
    ensures Recover(s).state.faults == if Recoverable(s) then 0 else s.faults
  {
  }

  lemma TickAnswers(s: State)
    ensures Tick(s).faults == Plus(s.faults, AddedBits(s, Millisecond))
  {
    hide Plus, WithFault, Tick, Advance;
    TickFrame(s);
    AdvanceFrame(s);
    NoBitAdded(s.faults);
    WatchdogBitAdded(s.faults);
    OverdueNumbers(s);
  }

  lemma OverdueNumbers(s: State)
    ensures Overdue(Advance(s))
       <==> && s.selfTestPassed
            && (s.elapsed + 1 - s.lastHeartbeat) % 0x1_0000_0000 > s.config.watchdogTimeoutMs
  {
    hide Advance;
    AdvanceFrame(s);
    assert Sub32(Next32(s.elapsed), s.lastHeartbeat) == (s.elapsed + 1 - s.lastHeartbeat) % 0x1_0000_0000;
  }

  lemma BeatAnswers(s: State, n: u16)
    ensures Heartbeat(s, n).status == Answer(s, Beat(n))
    ensures Heartbeat(s, n).state.faults == Plus(s.faults, AddedBits(s, Beat(n)))
  {
    hide Plus, WithFault, LatchFault;
    BitAdded(s, 0x4, false);
    NoBitAdded(s.faults);
  }

  lemma CommandAnswers(s: State, n: u16, v: i16)
    ensures SetSetpoint(s, n, v).status == Answer(s, Command(n, v))
    ensures SetSetpoint(s, n, v).state.faults == Plus(s.faults, AddedBits(s, Command(n, v)))
  {
    hide Plus, WithFault, LatchFault;
    BitAdded(s, 0x4, false);
    BitAdded(s.(lastCommand := n), 0x8, false);
    NoBitAdded(s.faults);
  }

  lemma RegisterAnswers(s: State, a: u8, d: bv8)
    ensures WriteRegister(s, a, d).status == Answer(s, RegisterWrite(a, d))
    ensures WriteRegister(s, a, d).state.faults == Plus(s.faults, AddedBits(s, RegisterWrite(a, d)))
  {
    hide Plus, WithFault, LatchFault, Next32;
    BitAdded(s, 0x1, false);
    NoBitAdded(s.faults);
  }

  lemma FrameFaults(s: State, frame: Frame)
    ensures Receive(s, frame).state.faults == Plus(s.faults, FrameBit(FrameAnswer(s, frame)))
  {
    hide Plus, WithFault, LatchFault, FrameAnswer, Next32, CountAccepted, Enabled, Length, PayloadLimit;
    ReceiveAnswers(s, frame);
    var t := s.(counters := s.counters.(rejected := Next32(s.counters.rejected)));
    BitAdded(t, 0x1, false);
    BitAdded(t, 0x2, false);
    NoBitAdded(s.faults);
  }

  /** Every call, in every state: the status it returns, and the exact bitmap after it. Only
      a recovery that succeeds clears bits, and then all of them. */
  lemma StepAnswers(s: State, e: Event)
    ensures Reply(s, e) == Answer(s, e)
    ensures Act(s, e).faults == if e.Recovery? && Recoverable(s) then 0 else Plus(s.faults, AddedBits(s, e))
  {
    hide Plus, WithFault, Heartbeat, SetSetpoint, LatchFault, Recover, Tick, WriteRegister, Receive, Decode;
    hide FrameAnswer, Recoverable;
    NoBitAdded(s.faults);
    match e
    case Beat(n) => BeatAnswers(s, n);
    case Command(n, v) => CommandAnswers(s, n, v);
    case Fault(bits, critical) => BitAdded(s, bits, critical);
    case Recovery => RecoverAnswers(s);
    case Millisecond => TickAnswers(s);
    case Arrival(frame) => ReceiveAnswers(s, frame); FrameFaults(s, frame);
    case Delivery(t, w) => DeliveryAnswers(s, t, w);
    case RegisterWrite(a, d) => RegisterAnswers(s, a, d);
    case _ =>
  }

  lemma DeliveryAnswers(s: State, t: int, w: seq<bv8>)
    ensures Reply(s, Delivery(t, w)) == Answer(s, Delivery(t, w))
    ensures Act(s, Delivery(t, w)).faults == Plus(s.faults, AddedBits(s, Delivery(t, w)))
  {
    hide Plus, WithFault, Receive, Decode, FrameAnswer;
    NoBitAdded(s.faults);
    if Decode(t, w).Accepted? {
      ReceiveAnswers(s, Decode(t, w).frame);
      FrameFaults(s, Decode(t, w).frame);
    }
  }

  // The modes of every reachable state, in bits.

  lemma NonRecoverableIff(f: bv32)
    ensures NonRecoverable(f) <==> f & 0xffff_fff0 != 0
  {
  }

  /** After any run of harmless events: no bits outside `Degraded` and `Safe`, both flags in
      `Operational` and not both in `Init`, only the four lowest bits and at least one of
      them in `Degraded`, and `Safe` as soon as any other bit is set. */
  lemma RunModesInBits(config: Configuration, events: seq<Event>)
    requires HarmlessFrom(Begin(config), events)
    ensures var s := Run(config, events).state;
      && (s.mode == Operational ==> s.faults == 0 && s.selfTestPassed && s.heartbeatSeen)
      && (s.mode == Init ==> s.faults == 0 && !(s.selfTestPassed && s.heartbeatSeen))
      && (s.mode == Degraded ==> s.faults != 0 && s.faults & 0xffff_fff0 == 0)
      && (s.faults & 0xffff_fff0 != 0 ==> s.mode == Safe)
  {
    hide Run, HarmlessFrom, NonRecoverable;
    RunModesConsistent(config, events);
    NonRecoverableIff(Run(config, events).state.faults);
  }
}
