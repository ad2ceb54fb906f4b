/**
 Frames, counters and telemetry over whole runs: nothing is lost, duplicated or
 reordered between the wire and the consumer of the queue.
 */
module RunTraffic {
  import opened Words
  import opened Frames
  import opened FrameLaws
  import opened FrameQueues
  import opened Config
  import opened ControllerModel
  import opened ControllerFrame
  import opened Runs
  import opened RunModes
  import opened RunClock
  import Telemetry

  /** How many frames belong to an interface. */
  function Count(frames: seq<Frame>, interfaceType: int): nat
    decreases |frames|
  {
    if frames == [] then 0
    else Count(frames[..|frames| - 1], interfaceType)
         + if frames[|frames| - 1].interfaceType == interfaceType then 1 else 0
  }

  // The queue is first in, first out, and loses nothing.

  /** Frames taken out, followed by those still queued, are the accepted ones; each
      re-encodes to the buffer it came from. */
  predicate QueueTrue(s: State, t: Traffic) {
    && t.taken + s.queue == t.accepted
    && |s.queue| <= CAPACITY
    && |t.wires| == |t.accepted|
    && forall i | 0 <= i < |t.accepted| :: Encodable(t.accepted[i]) && Wire(t.accepted[i]) == t.wires[i]
  }

  /** Only accepted frames enter the queue, at its end; only a read takes one, from
      its front. */
  lemma StepQueue(s: State, e: Event)
    ensures Act(s, e).queue
         == match HandedBy(e)
            case Handed(frame, _) => if Takes(s, frame) then s.queue + [frame] else s.queue
            case Nothing => if e.QueueRead? && s.queue != [] then s.queue[1..] else s.queue
  {
    hide Act, LatchFault, Heartbeat, SetSetpoint, Tick, Advance, WriteRegister, Receive, Reject;
    hide HandedBy, Overdue, Takes, CountAccepted;
    ActFrame(s, e);
    match e
    case Beat(n) => HeartbeatFrame(s, n);
    case Command(n, v) => SetpointFrame(s, n, v);
    case Fault(f, c) => LatchFrame(s, f, c);
    case Recovery => RecoverFrame(s);
    case Millisecond => TickFrame(s); AdvanceFrame(s);
    case RegisterWrite(a, d) => RegisterFrame(s, a, d);
    case Arrival(_) => HandedQueue(s, e);
    case Delivery(_, _) => HandedQueue(s, e);
    case _ =>
  }

  lemma HandedQueue(s: State, e: Event)
    requires e.Arrival? || e.Delivery?
    ensures match HandedBy(e)
            case Handed(frame, _) => Act(s, e).queue == if Takes(s, frame) then s.queue + [frame] else s.queue
            case Nothing => Act(s, e).queue == s.queue
  {
    hide Act, Receive, Reject, HandedBy, Takes, CountAccepted;
    ActFrame(s, e);
    if HandedBy(e).Handed? {
      var frame := HandedBy(e).frame;
      ReceiveTakes(s, frame);
      ReceiveFrame(s, frame);
      RejectFrame(s, FAULT_INTERFACE);
      RejectFrame(s, FAULT_QUEUE_OVERFLOW);
    }
  }

  /** The recorded buffer is the wire form of the frame handed over with it. */
  lemma HandedWire(e: Event)
    ensures match HandedBy(e)
            case Handed(frame, wire) => Encodable(frame) ==> Wire(frame) == wire
            case Nothing => true
  {
    hide Wire, Decode, Encodable;
    if e.Delivery? && Decode(e.interfaceType, e.bytes).Accepted? {
      WireDecode(e.interfaceType, e.bytes, Decode(e.interfaceType, e.bytes).frame);
    }
  }

  lemma StepQueueTrue(s: State, t: Traffic, e: Event)
    requires QueueTrue(s, t)
    ensures QueueTrue(Act(s, e), NextTraffic(t, s, e))
  {
    hide Act, Receive, HandedBy, Wire, Encodable, Enabled;
    StepQueue(s, e);
    HandedWire(e);
    if HandedBy(e).Handed? {
      ReceiveTakes(s, HandedBy(e).frame);
    } else if e.QueueRead? && s.queue != [] {
      assert t.taken + s.queue == t.taken + [s.queue[0]] + s.queue[1..];
    }
  }

  /** Wire to queue to wire, over every run: order, contents and bytes are kept. */
  lemma {:induction false} RunQueueTrue(config: Configuration, events: seq<Event>)
    ensures QueueTrue(Run(config, events).state, Run(config, events).traffic)
    decreases |events|
  {
    hide Act, QueueTrue, NextTraffic, NextClock, NextCommands;
    if events == [] {
      BeginQueueTrue(config);
    } else {
      var n := |events| - 1;
      var w := Run(config, events[..n]);
      RunQueueTrue(config, events[..n]);
      StepQueueTrue(w.state, w.traffic, events[n]);
    }
  }

  lemma BeginQueueTrue(config: Configuration)
    ensures QueueTrue(Begin(config).state, Begin(config).traffic)
  {
  }

  /** A frame that the decoder accepted is refused by receive only because its
      interface is disabled or the queue is full. */
  lemma DecodedRefusal(s: State, interfaceType: int, w: seq<bv8>, frame: Frame)
    requires Decode(interfaceType, w) == Accepted(frame)
    ensures Receive(s, frame).status
         == if !Enabled(s.config.enabledInterfaceMask, interfaceType) then ErrState
            else if |s.queue| >= CAPACITY then ErrFull else Ok
  {
    hide Decode, Wire, Enabled, Length, Reject, CountAccepted;
    WireDecode(interfaceType, w, frame);
  }

  // Conservation.

  /** Each counter is what it counts, modulo 2^32. */
  predicate CountersTrue(s: State, t: Traffic) {
    && |t.accepted| <= t.received
    && s.counters.uart == Count(t.accepted, UART) % TWO_TO_THE_32
    && s.counters.spi == (Count(t.accepted, SPI) + t.writes) % TWO_TO_THE_32
    && s.counters.can == Count(t.accepted, CAN) % TWO_TO_THE_32
    && s.counters.ethernet == Count(t.accepted, ETHERNET) % TWO_TO_THE_32
    && s.counters.rejected == (t.received - |t.accepted|) % TWO_TO_THE_32
    && s.telemetrySequence == t.reports % TWO_TO_THE_16
  }

  lemma StepCounters(s: State, e: Event)
    ensures Act(s, e).counters
         == match HandedBy(e)
            case Handed(frame, _) =>
              if Takes(s, frame) then CountAccepted(s.counters, frame.interfaceType)
              else s.counters.(rejected := Next32(s.counters.rejected))
            case Nothing =>
              if e.RegisterWrite? && e.address < REGISTER_COUNT
              then s.counters.(spi := Next32(s.counters.spi)) else s.counters
    ensures Act(s, e).telemetrySequence
         == if e.TelemetryCall? then (s.telemetrySequence + 1) % TWO_TO_THE_16 else s.telemetrySequence
  {
    hide Act, LatchFault, Heartbeat, SetSetpoint, Tick, Advance, WriteRegister, Receive, Reject;
    hide HandedBy, Overdue, Takes, CountAccepted, Next32;
    ActFrame(s, e);
    match e
    case Beat(n) => HeartbeatFrame(s, n);
    case Command(n, v) => SetpointFrame(s, n, v);
    case Fault(f, c) => LatchFrame(s, f, c);
    case Recovery => RecoverFrame(s);
    case Millisecond => TickFrame(s); AdvanceFrame(s);
    case RegisterWrite(a, d) => RegisterFrame(s, a, d); RegisterCounters(s, a, d);
    case Arrival(_) => HandedCounters(s, e);
    case Delivery(_, _) => HandedCounters(s, e);
    case _ =>
  }

  lemma RegisterCounters(s: State, a: u8, d: bv8)
    ensures WriteRegister(s, a, d).state.counters
         == if a < REGISTER_COUNT then s.counters.(spi := Next32(s.counters.spi)) else s.counters
  {
    hide LatchFault, Next32;
    LatchFrame(s, FAULT_INTERFACE, false);
  }

  lemma HandedCounters(s: State, e: Event)
    requires e.Arrival? || e.Delivery?
    ensures Act(s, e).telemetrySequence == s.telemetrySequence
    ensures match HandedBy(e)
            case Handed(frame, _) =>
              Act(s, e).counters == if Takes(s, frame) then CountAccepted(s.counters, frame.interfaceType)
                                    else s.counters.(rejected := Next32(s.counters.rejected))
            case Nothing => Act(s, e).counters == s.counters
  {
    hide Act, Receive, Reject, HandedBy, Takes, CountAccepted, Next32;
    ActFrame(s, e);
    if HandedBy(e).Handed? {
      var frame := HandedBy(e).frame;
      ReceiveTakes(s, frame);
      ReceiveFrame(s, frame);
      RejectFrame(s, FAULT_INTERFACE);
      RejectFrame(s, FAULT_QUEUE_OVERFLOW);
    }
  }

  lemma CountOneMore(frames: seq<Frame>, frame: Frame, t: int)
    ensures Count(frames + [frame], t) == Count(frames, t) + if frame.interfaceType == t then 1 else 0
  {
    assert (frames + [frame])[..|frames|] == frames;
  }

  lemma StepCountersTrue(s: State, t: Traffic, e: Event)
    requires CountersTrue(s, t)
    ensures CountersTrue(Act(s, e), NextTraffic(t, s, e))
  {
    hide Act, Receive, HandedBy, Encodable, Enabled, Next32, Count, Takes;
    StepCounters(s, e);
    NextModulo(Count(t.accepted, UART));
    NextModulo(Count(t.accepted, SPI) + t.writes);
    NextModulo(Count(t.accepted, CAN));
    NextModulo(Count(t.accepted, ETHERNET));
    NextModulo(t.received - |t.accepted|);
    if HandedBy(e).Handed? {
      var frame := HandedBy(e).frame;
      ReceiveTakes(s, frame);
      CountOneMore(t.accepted, frame, UART);
      CountOneMore(t.accepted, frame, SPI);
      CountOneMore(t.accepted, frame, CAN);
      CountOneMore(t.accepted, frame, ETHERNET);
    }
    OnlyArrivalsHand(e);
  }

  lemma OnlyArrivalsHand(e: Event)
    ensures HandedBy(e).Handed? ==> e.Arrival? || e.Delivery?
  {
    hide Decode, Encodable, Wire;
  }

  lemma {:induction false} RunCountersTrue(config: Configuration, events: seq<Event>)
    ensures CountersTrue(Run(config, events).state, Run(config, events).traffic)
    decreases |events|
  {
    hide Act, CountersTrue, NextTraffic, NextClock, NextCommands;
    if events == [] {
      BeginCountersTrue(config);
    } else {
      var n := |events| - 1;
      var w := Run(config, events[..n]);
      RunCountersTrue(config, events[..n]);
      StepCountersTrue(w.state, w.traffic, events[n]);
    }
  }

  lemma BeginCountersTrue(config: Configuration)
    ensures CountersTrue(Begin(config).state, Begin(config).traffic)
  {
  }

  lemma {:induction false} CountsAddUp(frames: seq<Frame>)
    requires forall i | 0 <= i < |frames| :: Known(frames[i].interfaceType)
    ensures Count(frames, UART) + Count(frames, SPI) + Count(frames, CAN) + Count(frames, ETHERNET) == |frames|
    decreases |frames|
  {
    if frames == [] {
    } else {
      CountsAddUp(frames[..|frames| - 1]);
    }
  }

  /** Over every run, modulo 2^32: each interface counter is the number of that
      interface's frames taken out or still queued (plus the register writes, for
      SPI), and all five add up to the receive calls and register writes. */
  lemma Conservation(config: Configuration, events: seq<Event>)
    ensures var w := Run(config, events);
      var frames := w.traffic.taken + w.state.queue;
      var c := w.state.counters;
      && c.uart == Count(frames, UART) % TWO_TO_THE_32
      && c.spi == (Count(frames, SPI) + w.traffic.writes) % TWO_TO_THE_32
      && c.can == Count(frames, CAN) % TWO_TO_THE_32
      && c.ethernet == Count(frames, ETHERNET) % TWO_TO_THE_32
      && (c.uart + c.spi + c.can + c.ethernet + c.rejected) % TWO_TO_THE_32
         == (w.traffic.received + w.traffic.writes) % TWO_TO_THE_32
  {
    hide Run, Count, Wire;
    var w := Run(config, events);
    var frames := w.traffic.accepted;
    RunQueueTrue(config, events);
    RunCountersTrue(config, events);
    CountsAddUp(frames);
    SumModulo(Count(frames, UART), Count(frames, SPI) + w.traffic.writes, Count(frames, CAN),
              Count(frames, ETHERNET), w.traffic.received - |frames|);
  }

  lemma SumModulo(a: nat, b: nat, c: nat, d: nat, e: nat)
    ensures (a % TWO_TO_THE_32 + b % TWO_TO_THE_32 + c % TWO_TO_THE_32 + d % TWO_TO_THE_32 + e % TWO_TO_THE_32)
            % TWO_TO_THE_32
         == (a + b + c + d + e) % TWO_TO_THE_32
  {
    var m := TWO_TO_THE_32;
    var turns := a / m + b / m + c / m + d / m + e / m;
    DropTurns(a + b + c + d + e, turns);
  }

  lemma DropTurns(x: int, turns: int)
    ensures (x - TWO_TO_THE_32 * turns) % TWO_TO_THE_32 == x % TWO_TO_THE_32
  {
  }

  // The SPI registers.

  /** Only a register write in range changes a register, and only its own. */
  lemma StepRegisters(s: State, e: Event)
    ensures Act(s, e).registers
         == if e.RegisterWrite? && e.address < REGISTER_COUNT then s.registers[e.address := e.data] else s.registers
  {
    hide Act, LatchFault, Heartbeat, SetSetpoint, Tick, Advance, WriteRegister, Receive, HandedBy, Overdue;
    ActFrame(s, e);
    match e
    case Beat(n) => HeartbeatFrame(s, n);
    case Command(n, v) => SetpointFrame(s, n, v);
    case Fault(f, c) => LatchFrame(s, f, c);
    case Recovery => RecoverFrame(s);
    case Millisecond => TickFrame(s); AdvanceFrame(s);
    case RegisterWrite(a, d) => WrittenRegisters(s, a, d);
    case Arrival(_) => ReceiveAny(s, e);
    case Delivery(_, _) => ReceiveAny(s, e);
    case _ =>
  }

  lemma WrittenRegisters(s: State, a: u8, d: bv8)
    ensures WriteRegister(s, a, d).state.registers
         == if a < REGISTER_COUNT then s.registers[a := d] else s.registers
  {
    hide LatchFault, Next32;
    LatchFrame(s, FAULT_INTERFACE, false);
  }

  /** The value last written to a register, 0 before any write. */
  function LastWritten(events: seq<Event>, address: nat): bv8
    decreases |events|
  {
    if events == [] then 0
    else
      var e := events[|events| - 1];
      if e.RegisterWrite? && e.address == address then e.data else LastWritten(events[..|events| - 1], address)
  }

  /** After any run, each register reads back the value last written to it. */
  lemma {:induction false} RegistersReadBack(config: Configuration, events: seq<Event>, address: nat)
    requires address < REGISTER_COUNT
    ensures Run(config, events).state.registers[address] == LastWritten(events, address)
    decreases |events|
  {
    hide Act, NextClock, NextCommands, NextTraffic;
    if events == [] {
    } else {
      var n := |events| - 1;
      RegistersReadBack(config, events[..n], address);
      StepRegisters(Run(config, events[..n]).state, events[n]);
    }
  }

  /** The record written by the next telemetry call of any run reads back as the number of
      calls, the present fields, and the numbers of frames and register writes, modulo
      65,536. */
  lemma TelemetryOfRun(config: Configuration, events: seq<Event>)
    ensures var w := Run(config, events);
      var t := w.traffic;
      Telemetry.Read(Telemetry.Record(Run(config, events + [TelemetryCall]).state))
      == Telemetry.Valid(Telemetry.Report(
        (t.reports + 1) % TWO_TO_THE_16, w.state.mode, w.state.faults, w.state.setpoint, w.state.registers[0],
        Count(t.accepted, UART) % TWO_TO_THE_16,
        (Count(t.accepted, SPI) + t.writes) % TWO_TO_THE_16,
        Count(t.accepted, CAN) % TWO_TO_THE_16,
        Count(t.accepted, ETHERNET) % TWO_TO_THE_16,
        (t.received - |t.accepted|) % TWO_TO_THE_16))
  {
    var w := Run(config, events);
    var t := w.traffic;
    hide Telemetry.Read, Telemetry.Record, Run, Count;
    RunOne(config, events, TelemetryCall);
    RunCountersTrue(config, events);
    RunCountersTrue(config, events + [TelemetryCall]);
    Telemetry.RecordReads(Run(config, events + [TelemetryCall]).state);
    LowHalf(Count(t.accepted, UART));
    LowHalf(Count(t.accepted, SPI) + t.writes);
    LowHalf(Count(t.accepted, CAN));
    LowHalf(Count(t.accepted, ETHERNET));
    LowHalf(t.received - |t.accepted|);
  }

  lemma LowHalf(n: nat)
    ensures (n % TWO_TO_THE_32) % TWO_TO_THE_16 == n % TWO_TO_THE_16
  {
    var q := n / TWO_TO_THE_32;
    assert n % TWO_TO_THE_32 == n - TWO_TO_THE_16 * (TWO_TO_THE_16 * q);
  }
}
