/**
 Runs of the controller: the calls its environment can make after an
 initialisation with a valid configuration, and a history beside the state that
 counts without ever wrapping around.

 A new initialisation starts a new run.
 */
module Runs {
  import opened Words
  import opened Frames
  import opened Config
  import opened ControllerModel
  import opened ControllerFrame

  datatype Event =
    | SelfTest
    | Beat(number: u16)
    | Command(number: u16, value: i16)
    | Fault(bits: bv32, critical: bool)
    | Recovery
    | Millisecond
    | Arrival(frame: Frame)
      // a buffer taken from the wire: decoded, and received if it is a frame
    | Delivery(interfaceType: int, bytes: seq<bv8>)
    | TelemetryCall
    | RegisterWrite(address: u8, data: bv8)
    | QueueRead

  /** The controller's reaction. */
  function Act(s: State, e: Event): State {
    match e
    case SelfTest => MarkSelfTest(s)
    case Beat(number) => Heartbeat(s, number).state
    case Command(number, value) => SetSetpoint(s, number, value).state
    case Fault(bits, critical) => LatchFault(s, bits, critical)
    case Recovery => Recover(s).state
    case Millisecond => Tick(s)
    case Arrival(frame) => Receive(s, frame).state
    case Delivery(t, w) =>
      (match Decode(t, w)
       case Accepted(frame) => Receive(s, frame).state
       case Rejected(_) => s)
    case TelemetryCall => CountReport(s)
    case RegisterWrite(address, data) => WriteRegister(s, address, data).state
    case QueueRead => Consume(s)
  }

  /** What the call returns; `Ok` for a call without a status. */
  function Reply(s: State, e: Event): Status {
    match e
    case Beat(number) => Heartbeat(s, number).status
    case Command(number, value) => SetSetpoint(s, number, value).status
    case Recovery => Recover(s).status
    case Arrival(frame) => Receive(s, frame).status
    case Delivery(t, w) =>
      (match Decode(t, w)
       case Accepted(frame) => Receive(s, frame).status
       case Rejected(status) => status)
    case RegisterWrite(address, data) => WriteRegister(s, address, data).status
    case QueueRead => if s.queue == [] then ErrEmpty else Ok
    case _ => Ok
  }

  // What happened, in unbounded numbers.

  /** The frame handed to `esqh_controller_receive`, if any. */
  datatype Handed = Nothing | Handed(frame: Frame, wire: seq<bv8>)

  function HandedBy(e: Event): Handed {
    match e
    case Arrival(frame) =>
      if Encodable(frame) then Handed(frame, Wire(frame)) else Handed(frame, [])
    case Delivery(t, w) =>
      (match Decode(t, w)
       case Accepted(frame) => Handed(frame, w)
       case Rejected(_) => Nothing)
    case _ => Nothing
  }

  predicate BeatAccepted(s: State, e: Event) {
    e.Beat? && Heartbeat(s, e.number).status == Ok
  }

  predicate RecoveryAccepted(s: State, e: Event) {
    e.Recovery? && Recover(s).status == Ok
  }

  /** The command sequence guard let the event through. */
  predicate NumberAccepted(s: State, e: Event) {
    || BeatAccepted(s, e)
    || (e.Command? && s.mode == Operational && AcceptSequence(s, e.number).status == Ok)
  }

  /** Time: ticks since the start, time of the last accepted heartbeat, accepted
      heartbeats, ticks taken with the self-test passed and those of them that left
      the controller outside `Safe`, and the whole turns of the 32-bit clock between
      heartbeats. */
  datatype Clock = Clock(ticks: nat, lastBeat: nat, beats: nat, supervised: nat, live: nat, turns: nat)

  function NextClock(c: Clock, s: State, e: Event): Clock {
    if e.Millisecond? then
      c.(ticks := c.ticks + 1,
         supervised := c.supervised + if s.selfTestPassed then 1 else 0,
         live := c.live + if s.selfTestPassed && Act(s, e).mode != Safe then 1 else 0)
    else if BeatAccepted(s, e) && c.lastBeat <= c.ticks then
      c.(lastBeat := c.ticks, beats := c.beats + 1,
         turns := c.turns + (c.ticks - c.lastBeat) / TWO_TO_THE_32)
    else c
  }

  /** Commands: accepted numbers in order, accepted setpoints, and since the last
      accepted recovery: self-test events outside `Safe`, accepted heartbeats, and
      whether a tick was taken under supervision. */
  datatype Commands = Commands(numbers: seq<u16>, selfTests: nat, beats: nat, supervisedTick: bool)

  function NextCommands(c: Commands, s: State, e: Event): Commands {
    if RecoveryAccepted(s, e) then c.(selfTests := 0, beats := 0, supervisedTick := false)
    else if e.SelfTest? && s.mode != Safe then c.(selfTests := c.selfTests + 1)
    else if e.Millisecond? && s.selfTestPassed then c.(supervisedTick := true)
    else if NumberAccepted(s, e) then
      Commands(c.numbers + [e.number], c.selfTests, c.beats + if e.Beat? then 1 else 0, c.supervisedTick)
    else c
  }

  /** Traffic: calls of receive, successful register writes, telemetry calls, frames
      accepted, their wire buffers, and frames taken out of the queue. */
  datatype Traffic = Traffic(
    received: nat, writes: nat, reports: nat,
    accepted: seq<Frame>, wires: seq<seq<bv8>>, taken: seq<Frame>)

  function NextTraffic(t: Traffic, s: State, e: Event): Traffic {
    match HandedBy(e)
    case Handed(frame, wire) =>
      if Receive(s, frame).status == Ok then
        t.(received := t.received + 1, accepted := t.accepted + [frame], wires := t.wires + [wire])
      else t.(received := t.received + 1)
    case Nothing =>
      match e
      case RegisterWrite(address, _) => if address < REGISTER_COUNT then t.(writes := t.writes + 1) else t
      case TelemetryCall => t.(reports := t.reports + 1)
      case QueueRead => if s.queue == [] then t else t.(taken := t.taken + [s.queue[0]])
      case _ => t
  }

  datatype World = World(state: State, clock: Clock, commands: Commands, traffic: Traffic)

  function Begin(config: Configuration): World {
    World(Initial(config), Clock(0, 0, 0, 0, 0, 0), Commands([], 0, 0, false), Traffic(0, 0, 0, [], [], []))
  }

  function Step(w: World, e: Event): World {
    World(Act(w.state, e),
          NextClock(w.clock, w.state, e),
          NextCommands(w.commands, w.state, e),
          NextTraffic(w.traffic, w.state, e))
  }

  /** The world after a sequence of events. */
  function Run(config: Configuration, events: seq<Event>): World
    decreases |events|
  {
    if events == [] then Begin(config) else Step(Run(config, events[..|events| - 1]), events[|events| - 1])
  }

  /** Continuing from a world. */
  function Continue(w: World, events: seq<Event>): World
    decreases |events|
  {
    if events == [] then w else Step(Continue(w, events[..|events| - 1]), events[|events| - 1])
  }

  lemma {:induction false} RunContinues(config: Configuration, before: seq<Event>, after: seq<Event>)
    ensures Run(config, before + after) == Continue(Run(config, before), after)
    decreases |after|
  {
    hide Step;
    if after == [] {
      assert before + after == before;
    } else {
      var n := |after| - 1;
      assert (before + after)[..|before + after| - 1] == before + after[..n];
      RunContinues(config, before, after[..n]);
    }
  }

  // Which fields an event can touch at all.

  /** The frame of an event, operation by operation. */
  lemma ActFrame(s: State, e: Event)
    ensures e.SelfTest? ==> Act(s, e) == MarkSelfTest(s)
    ensures e.Beat? ==> Act(s, e) == Heartbeat(s, e.number).state
    ensures e.Command? ==> Act(s, e) == SetSetpoint(s, e.number, e.value).state
    ensures e.Fault? ==> Act(s, e) == LatchFault(s, e.bits, e.critical)
    ensures e.Recovery? ==> Act(s, e) == Recover(s).state
    ensures e.Millisecond? ==> Act(s, e) == Tick(s)
    ensures e.TelemetryCall? ==> Act(s, e) == CountReport(s)
    ensures e.RegisterWrite? ==> Act(s, e) == WriteRegister(s, e.address, e.data).state
    ensures e.QueueRead? ==> Act(s, e) == Consume(s)
    ensures e.Arrival? || e.Delivery? ==>
      match HandedBy(e)
      case Handed(frame, _) => Act(s, e) == Receive(s, frame).state
      case Nothing => Act(s, e) == s
    ensures !e.Arrival? && !e.Delivery? ==> HandedBy(e) == Nothing
  {
    hide MarkSelfTest, Heartbeat, SetSetpoint, LatchFault, Recover, Tick, CountReport, WriteRegister, Consume;
    hide Receive, Decode, Encodable, Wire;
  }

  lemma ActKeepsConfig(s: State, e: Event)
    ensures Act(s, e).config == s.config
  {
    hide Act, Heartbeat, SetSetpoint, LatchFault, Tick, Advance, WriteRegister, Receive, HandedBy, Overdue, Reject;
    ActFrame(s, e);
    match e
    case Beat(n) => HeartbeatFrame(s, n);
    case Command(n, v) => SetpointFrame(s, n, v);
    case Fault(f, c) => LatchFrame(s, f, c);
    case Millisecond => TickFrame(s); AdvanceFrame(s);
    case RegisterWrite(a, d) => RegisterFrame(s, a, d);
    case Arrival(frame) => ReceiveAny(s, e);
    case Delivery(_, _) => ReceiveAny(s, e);
    case _ =>
  }

  lemma ReceiveAny(s: State, e: Event)
    requires e.Arrival? || e.Delivery?
    ensures var t := Act(s, e);
      t == s.(faults := t.faults, mode := t.mode, queue := t.queue, counters := t.counters)
  {
    hide Act, Receive, HandedBy;
    ActFrame(s, e);
    if HandedBy(e).Handed? {
      ReceiveFrame(s, HandedBy(e).frame);
    }
  }

  lemma {:induction false} RunKeepsConfig(config: Configuration, events: seq<Event>)
    ensures Run(config, events).state.config == config
    decreases |events|
  {
    hide Act;
    if events == [] {
    } else {
      RunKeepsConfig(config, events[..|events| - 1]);
      ActKeepsConfig(Run(config, events[..|events| - 1]).state, events[|events| - 1]);
    }
  }
}
