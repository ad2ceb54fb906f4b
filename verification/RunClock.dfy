/**
 Time over whole runs: the 32-bit clock against true time, the scheduler, the
 watchdog, and how long a supervised controller can stay out of `Safe`.
 */
module RunClock {
  import opened Words
  import opened Config
  import opened ControllerModel
  import opened ControllerFrame
  import opened Runs

  /** The clocks and counts of the code are true time, modulo 2^32; the
      down-counters are the distance to the next release. */
  predicate ClockTrue(s: State, c: Clock) {
    && c.lastBeat <= c.ticks
    && s.elapsed == c.ticks % TWO_TO_THE_32
    && s.lastHeartbeat == c.lastBeat % TWO_TO_THE_32
    && s.task1ms == c.ticks % TWO_TO_THE_32
    && s.task10ms == (c.ticks / 10) % TWO_TO_THE_32
    && s.task100ms == (c.ticks / 100) % TWO_TO_THE_32
    && s.scheduler10ms == 10 - c.ticks % 10
    && s.scheduler100ms == 100 - c.ticks % 100
  }

  /** Only a tick moves the clock; only an accepted heartbeat stamps it. */
  lemma ClockFrame(s: State, e: Event)
    requires !e.Millisecond?
    ensures var t := Act(s, e);
      && t.elapsed == s.elapsed && t.task1ms == s.task1ms
      && t.task10ms == s.task10ms && t.task100ms == s.task100ms
      && t.scheduler10ms == s.scheduler10ms && t.scheduler100ms == s.scheduler100ms
      && t.lastHeartbeat == if BeatAccepted(s, e) then s.elapsed else s.lastHeartbeat
  {
    hide Act, Heartbeat, SetSetpoint, LatchFault, WriteRegister, Receive, HandedBy, Recover;
    ActFrame(s, e);
    match e
    case Beat(n) => HeartbeatFrame(s, n);
    case Command(n, v) => SetpointFrame(s, n, v);
    case Fault(f, c) => LatchFrame(s, f, c);
    case Recovery => RecoverFrame(s);
    case RegisterWrite(a, d) => RegisterFrame(s, a, d);
    case Arrival(frame) => ReceiveAny(s, e);
    case Delivery(_, _) => ReceiveAny(s, e);
    case _ =>
  }

  lemma NextModulo(n: nat)
    ensures Next32(n % TWO_TO_THE_32) == (n + 1) % TWO_TO_THE_32
  {
  }

  lemma TickClock(s: State, c: Clock)
    requires ClockTrue(s, c)
    ensures ClockTrue(Tick(s), NextClock(c, s, Millisecond))
    ensures Tick(s).lastHeartbeat == s.lastHeartbeat
  {
    hide Tick;
    var n := c.ticks;
    NextModulo(n);
    NextModulo(n / 10);
    NextModulo(n / 100);
    TickFields(s);
    assert n % 10 == 9 ==> (n + 1) % 10 == 0 && (n + 1) / 10 == n / 10 + 1;
    assert n % 10 != 9 ==> (n + 1) % 10 == n % 10 + 1 && (n + 1) / 10 == n / 10;
    assert n % 100 == 99 ==> (n + 1) % 100 == 0 && (n + 1) / 100 == n / 100 + 1;
    assert n % 100 != 99 ==> (n + 1) % 100 == n % 100 + 1 && (n + 1) / 100 == n / 100;
  }

  lemma TickFields(s: State)
    ensures var t := Tick(s);
      && t.elapsed == Next32(s.elapsed) && t.task1ms == Next32(s.task1ms)
      && t.task10ms == (if s.scheduler10ms == 1 then Next32(s.task10ms) else s.task10ms)
      && t.task100ms == (if s.scheduler100ms == 1 then Next32(s.task100ms) else s.task100ms)
      && t.scheduler10ms == (if s.scheduler10ms == 1 then 10 else Prev8(s.scheduler10ms))
      && t.scheduler100ms == (if s.scheduler100ms == 1 then 100 else Prev8(s.scheduler100ms))
      && t.lastHeartbeat == s.lastHeartbeat
  {
    hide Tick, Overdue, WithFault, Next32, Released10, Released100;
    var u := s.(elapsed := Next32(s.elapsed), task1ms := Next32(s.task1ms));
    TickFrame(s);
    Released10Frame(u);
    Released100Frame(Released10(u));
    ReleaseFields(u);
    ReleaseFields(Released10(u));
  }

  lemma ReleaseFields(s: State)
    ensures Released10(s).task10ms == if s.scheduler10ms == 1 then Next32(s.task10ms) else s.task10ms
    ensures Released10(s).scheduler10ms == if s.scheduler10ms == 1 then 10 else Prev8(s.scheduler10ms)
    ensures Released100(s).task100ms == if s.scheduler100ms == 1 then Next32(s.task100ms) else s.task100ms
    ensures Released100(s).scheduler100ms == if s.scheduler100ms == 1 then 100 else Prev8(s.scheduler100ms)
  {
    hide Next32;
  }

  lemma StepClock(s: State, c: Clock, e: Event)
    requires ClockTrue(s, c)
    ensures ClockTrue(Act(s, e), NextClock(c, s, e))
  {
    hide Act, BeatAccepted, Tick;
    if e.Millisecond? {
      TickClock(s, c);
      MillisecondTicks(s);
    } else {
      ClockFrame(s, e);
    }
  }

  lemma MillisecondTicks(s: State)
    ensures Act(s, Millisecond) == Tick(s)
  {
  }

  /** In every reachable state the clock, the release counts and the down-counters
      are exactly those of the number of ticks taken, across any wrap-around. */
  lemma {:induction false} RunClockTrue(config: Configuration, events: seq<Event>)
    ensures ClockTrue(Run(config, events).state, Run(config, events).clock)
    decreases |events|
  {
    hide Act, NextClock;
    if events == [] {
    } else {
      var w := Run(config, events[..|events| - 1]);
      RunClockTrue(config, events[..|events| - 1]);
      StepClock(w.state, w.clock, events[|events| - 1]);
    }
  }

  // The watchdog.

  /** True milliseconds since the last accepted heartbeat, or since the start. */
  function TrueAge(c: Clock): int {
    c.ticks - c.lastBeat
  }

  lemma ModuloDifference(a: nat, b: nat)
    requires b <= a
    ensures (a % TWO_TO_THE_32 - b % TWO_TO_THE_32) % TWO_TO_THE_32 == (a - b) % TWO_TO_THE_32
  {
  }

  /** The age the code computes is the true age modulo 2^32, and equal to it as long
      as the true age is below 2^32. */
  lemma AgeTrue(s: State, c: Clock)
    requires ClockTrue(s, c)
    ensures Age(s) == TrueAge(c) % TWO_TO_THE_32
    ensures TrueAge(c) < TWO_TO_THE_32 ==> Age(s) == TrueAge(c)
  {
    ModuloDifference(c.ticks, c.lastBeat);
  }
}
