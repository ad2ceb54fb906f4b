/**
 The watchdog over whole runs: when it trips, what keeps it from tripping, and how
 long a supervised controller can stay out of `Safe`.
 */
module RunWatchdog {
  import opened Words
  import opened Config
  import opened ControllerModel
  import opened ControllerFrame
  import opened Runs
  import opened RunClock
  import opened RunModes
  import opened RunCommands

  // Exactness.

  /** The event neither refreshes, recovers nor disturbs the controller. */
  predicate Undisturbing(s: State, e: Event) {
    !BeatAccepted(s, e) && !RecoveryAccepted(s, e) && !Disallowed(s, e) && !e.Fault?
  }

  ghost predicate UndisturbedFrom(w: World, events: seq<Event>) {
    forall i | 0 <= i < |events| :: Undisturbing(Continue(w, events[..i]).state, events[i])
  }

  function Ticks(events: seq<Event>): nat
    decreases |events|
  {
    if events == [] then 0
    else Ticks(events[..|events| - 1]) + if events[|events| - 1].Millisecond? then 1 else 0
  }

  lemma WatchdogBitKept(a: bv32, b: bv32)
    ensures WatchdogBit(WithFault(a, FAULT_WATCHDOG))
    ensures WatchdogBit(a) && Includes(b, a) ==> WatchdogBit(b)
  {
  }

  lemma WatchdogBitIff(f: bv32)
    ensures WatchdogBit(f) <==> f & 0x1_0000 != 0
  {
  }

  /** One undisturbing event: without a tick, age and mode stay; with one, the age
      grows and the watchdog trips exactly beyond the timeout. */
  lemma UndisturbedStep(s: State, e: Event)
    requires ModesConsistent(s) && s.selfTestPassed && Undisturbing(s, e)
    requires s.mode != Safe ==> Age(s) <= s.config.watchdogTimeoutMs
    ensures ModesConsistent(Act(s, e)) && Act(s, e).selfTestPassed && Act(s, e).config == s.config
    ensures s.mode == Safe ==> Act(s, e).mode == Safe && (WatchdogBit(s.faults) ==> WatchdogBit(Act(s, e).faults))
    ensures s.mode != Safe && !e.Millisecond? ==> Act(s, e).mode == s.mode && Age(Act(s, e)) == Age(s)
    ensures s.mode != Safe && e.Millisecond? ==>
      if Age(s) + 1 <= s.config.watchdogTimeoutMs then Act(s, e).mode == s.mode && Age(Act(s, e)) == Age(s) + 1
      else Act(s, e).mode == Safe && WatchdogBit(Act(s, e).faults)
  {
    hide Act, Disallowed, BeatAccepted, RecoveryAccepted, NumberAccepted, HandedBy, Advance, Tick;
    hide WithFault, WatchdogBit, NonRecoverable, Includes;
    StepModes(s, e);
    StepFlags(s, e);
    ActKeepsConfig(s, e);
    BeatUnlessRefused(s, e);
    WatchdogBitKept(s.faults, Act(s, e).faults);
    if e.Millisecond? {
      MillisecondTicks(s);
      TickFrame(s);
      AdvanceFrame(s);
      NextAge(s);
    } else {
      ClockFrame(s, e);
    }
  }

  lemma BeatUnlessRefused(s: State, e: Event)
    ensures e.Beat? ==> (BeatAccepted(s, e) <==> !Disallowed(s, e))
    ensures e.Command? && s.mode == Operational && !Disallowed(s, e) ==> NumberAccepted(s, e)
  {
    hide Heartbeat, LatchFault, AcceptSequence;
    if e.Beat? {
      AcceptFrame(s, e.number);
      HeartbeatFrame(s, e.number);
    } else if e.Command? {
      AcceptFrame(s, e.number);
    }
  }

  /** A supervised controller left without heartbeat, recovery and other faults keeps
      its mode as long as the ticks taken fit into the timeout, and is safe with the
      watchdog bit from the next tick on. Other traffic makes no difference. */
  lemma {:induction false} WatchdogExact(w: World, events: seq<Event>)
    requires ModesConsistent(w.state) && w.state.selfTestPassed && w.state.mode != Safe
    requires Age(w.state) <= w.state.config.watchdogTimeoutMs
    requires UndisturbedFrom(w, events)
    ensures var t := Continue(w, events).state;
      && ModesConsistent(t) && t.selfTestPassed && t.config == w.state.config
      && if Age(w.state) + Ticks(events) <= w.state.config.watchdogTimeoutMs
         then t.mode == w.state.mode && Age(t) == Age(w.state) + Ticks(events)
         else t.mode == Safe && WatchdogBit(t.faults)
    decreases |events|
  {
    hide Act, Undisturbing, ModesConsistent, NextClock, NextCommands, NextTraffic, Age, WatchdogBit;
    if events == [] {
    } else {
      var n := |events| - 1;
      var before := events[..n];
      forall i | 0 <= i < n ensures Undisturbing(Continue(w, before[..i]).state, before[i]) {
        assert before[..i] == events[..i];
      }
      WatchdogExact(w, before);
      UndisturbedStep(Continue(w, before).state, events[n]);
    }
  }

  // Keeping a controller operational.

  /** Nothing is refused or reported, and no tick comes later than the timeout after
      the last accepted heartbeat. */
  predicate Healthy(w: World, e: Event) {
    && !Disallowed(w.state, e) && !e.Fault?
    && (e.Millisecond? ==> TrueAge(w.clock) < w.state.config.watchdogTimeoutMs)
  }

  ghost predicate HealthyFrom(w: World, events: seq<Event>) {
    forall i | 0 <= i < |events| :: Healthy(Continue(w, events[..i]), events[i])
  }

  /** Heartbeats at most a timeout apart, with no faults, keep the controller
      operational for ever, across any wrap of the clock. */
  lemma {:induction false} HeartbeatsSustain(w: World, events: seq<Event>)
    requires ModesConsistent(w.state) && ClockTrue(w.state, w.clock) && w.state.mode == Operational
    requires HealthyFrom(w, events)
    ensures var v := Continue(w, events);
      ModesConsistent(v.state) && ClockTrue(v.state, v.clock) && v.state.mode == Operational
    decreases |events|
  {
    hide Act, Healthy, ModesConsistent, ClockTrue, NextClock, NextCommands, NextTraffic;
    if events == [] {
    } else {
      var n := |events| - 1;
      var before := events[..n];
      forall i | 0 <= i < n ensures Healthy(Continue(w, before[..i]), before[i]) {
        assert before[..i] == events[..i];
      }
      HeartbeatsSustain(w, before);
      HealthyStep(Continue(w, before), events[n]);
    }
  }

  lemma HealthyStep(w: World, e: Event)
    requires ModesConsistent(w.state) && ClockTrue(w.state, w.clock) && w.state.mode == Operational
    requires Healthy(w, e)
    ensures var v := Step(w, e);
      ModesConsistent(v.state) && ClockTrue(v.state, v.clock) && v.state.mode == Operational
  {
    hide Act, Disallowed, ClockTrue, ModesConsistent, NextClock, NextCommands, NextTraffic, HandedBy, Age;
    StepModes(w.state, e);
    StepClock(w.state, w.clock, e);
    AgeTrue(w.state, w.clock);
    ConfigBound(w.state);
    ClockOrder(w.state, w.clock);
  }

  lemma ConfigBound(s: State)
    ensures s.config.watchdogTimeoutMs < TWO_TO_THE_16
  {
  }

  lemma ClockOrder(s: State, c: Clock)
    requires ClockTrue(s, c)
    ensures 0 <= TrueAge(c)
  {
  }

  // Whether the heartbeat of an operational controller is current.

  /** Once a tick was taken under supervision, a controller outside `Safe` has a
      heartbeat no older than the timeout. */
  predicate CurrentAfterTick(w: World) {
    w.commands.supervisedTick && w.state.mode != Safe ==> Age(w.state) <= w.state.config.watchdogTimeoutMs
  }

  lemma StepCurrent(w: World, e: Event)
    requires CurrentAfterTick(w) && CommandsTrue(w.state, w.commands)
    ensures CurrentAfterTick(Step(w, e))
  {
    hide Act, BeatAccepted, RecoveryAccepted, NumberAccepted, Advance, Tick, CommandsTrue;
    hide NextClock, NextTraffic;
    ActKeepsConfig(w.state, e);
    KindsApart(w.state, e);
    SupervisedTickPassed(w.state, w.commands);
    if w.state.mode == Safe {
      SafeStays(w.state, e);
    }
    if e.Millisecond? {
      MillisecondTicks(w.state);
      TickFrame(w.state);
      AdvanceFrame(w.state);
    } else {
      ClockFrame(w.state, e);
    }
  }

  lemma SupervisedTickPassed(s: State, c: Commands)
    requires CommandsTrue(s, c)
    ensures c.supervisedTick ==> s.selfTestPassed
  {
  }

  /** In every run, once a tick was taken under supervision, the heartbeat age of a
      controller outside `Safe` is within the timeout modulo 2^32, so the heartbeat is
      truly current exactly if it is less than 2^32 ticks old. */
  lemma {:induction false} RunCurrent(config: Configuration, events: seq<Event>)
    ensures CurrentAfterTick(Run(config, events))
    ensures var w := Run(config, events);
      w.commands.supervisedTick && w.state.mode != Safe
      ==> && TrueAge(w.clock) % TWO_TO_THE_32 <= config.watchdogTimeoutMs
          && (TrueAge(w.clock) <= config.watchdogTimeoutMs <==> TrueAge(w.clock) < TWO_TO_THE_32)
    decreases |events|
  {
    hide Step, Age, ClockTrue, CommandsTrue;
    if events == [] {
    } else {
      var n := |events| - 1;
      RunCurrent(config, events[..n]);
      RunCommandsTrue(config, events[..n]);
      StepCurrent(Run(config, events[..n]), events[n]);
    }
    RunClockTrue(config, events);
    RunKeepsConfig(config, events);
    AgeTrue(Run(config, events).state, Run(config, events).clock);
    ConfigBound(Run(config, events).state);
  }

  /** Exactly when a supervised tick leaves the controller outside `Safe`: the true age it
      finds is within the timeout modulo 2^32. Then the heartbeat is truly current exactly
      if that age is below 2^32. */
  lemma SupervisedTickIff(s: State, c: Clock)
    requires ClockTrue(s, c) && s.selfTestPassed && s.mode != Safe
    ensures Tick(s).mode != Safe <==> (TrueAge(c) + 1) % TWO_TO_THE_32 <= s.config.watchdogTimeoutMs
    ensures Tick(s).mode == if (TrueAge(c) + 1) % TWO_TO_THE_32 <= s.config.watchdogTimeoutMs then s.mode else Safe
    ensures Tick(s).mode != Safe ==>
      (TrueAge(c) + 1 <= s.config.watchdogTimeoutMs <==> TrueAge(c) + 1 < TWO_TO_THE_32)
  {
    hide Tick, Advance, Age, ClockTrue;
    TickFrame(s);
    AdvanceFrame(s);
    NextAge(s);
    AgeTrue(s, c);
    SuccessorModulo(TrueAge(c));
    ConfigBound(s);
    ClockOrder(s, c);
  }

  ghost predicate NoBeatFrom(w: World, events: seq<Event>) {
    forall i | 0 <= i < |events| :: !BeatAccepted(Continue(w, events[..i]).state, events[i])
  }

  lemma NoBeatOneMore(w: World, events: seq<Event>)
    requires events != [] && NoBeatFrom(w, events)
    ensures var n := |events| - 1;
      NoBeatFrom(w, events[..n]) && !BeatAccepted(Continue(w, events[..n]).state, events[n])
  {
    hide BeatAccepted, Continue;
    var n := |events| - 1;
    assert forall i | 0 <= i < n :: events[..n][..i] == events[..i];
  }

  lemma NextTrueAge(c: Clock, s: State, e: Event)
    requires !BeatAccepted(s, e)
    ensures TrueAge(NextClock(c, s, e)) == TrueAge(c) + if e.Millisecond? then 1 else 0
  {
    hide Act, BeatAccepted;
  }

  /** Without an accepted heartbeat the true age is the number of ticks since the last
      one and those taken after it. */
  lemma {:induction false} TicksSinceBeat(w: World, events: seq<Event>)
    requires NoBeatFrom(w, events)
    ensures TrueAge(Continue(w, events).clock) == TrueAge(w.clock) + Ticks(events)
    decreases |events|
  {
    hide Act, BeatAccepted, NextCommands, NextTraffic, NextClock, NoBeatFrom, TrueAge;
    if events == [] {
    } else {
      var n := |events| - 1;
      NoBeatOneMore(w, events);
      TicksSinceBeat(w, events[..n]);
      NextTrueAge(Continue(w, events[..n]).clock, Continue(w, events[..n]).state, events[n]);
    }
  }

  /** `k` ticks of an unsupervised controller change nothing but the time. */
  lemma {:induction false} UnsupervisedTicks(w: World, k: nat)
    requires !w.state.selfTestPassed
    ensures var v := Continue(w, seq(k, _ => Millisecond));
      && v.clock.ticks == w.clock.ticks + k && v.clock.lastBeat == w.clock.lastBeat
      && v.state.mode == w.state.mode && v.state.faults == w.state.faults
      && v.state.heartbeatSeen == w.state.heartbeatSeen && !v.state.selfTestPassed
    decreases k
  {
    hide Tick, Advance, NextCommands, NextTraffic;
    var ticks := seq(k, _ => Millisecond);
    if k == 0 {
    } else {
      assert ticks[..k - 1] == seq(k - 1, _ => Millisecond);
      UnsupervisedTicks(w, k - 1);
      var s := Continue(w, ticks[..k - 1]).state;
      TickFrame(s);
      AdvanceFrame(s);
    }
  }

  /** A heartbeat, then `k` ticks, then the self-test event. */
  function LateSelfTest(k: nat): seq<Event> {
    [Beat(1)] + seq(k, _ => Millisecond) + [SelfTest]
  }

  /** The exception is real, for every configuration: a late self-test event makes the
      controller operational on a heartbeat of any age. The design description asks for
      a current one. */
  lemma StaleHeartbeat(config: Configuration, k: nat)
    ensures var w := Run(config, LateSelfTest(k));
      w.state.mode == Operational && TrueAge(w.clock) == k
  {
    hide Tick, Advance;
    var ticks := seq(k, _ => Millisecond);
    var w := Run(config, [Beat(1)]);
    RunOne(config, [], Beat(1));
    assert [] + [Beat(1)] == [Beat(1)];
    RunContinues(config, [Beat(1)], ticks);
    UnsupervisedTicks(w, k);
    RunOne(config, [Beat(1)] + ticks, SelfTest);
  }

  /** The next tick ends the exception exactly if the age it finds is beyond the timeout
      modulo 2^32. */
  lemma StaleTickIff(config: Configuration, k: nat)
    ensures var w := Run(config, LateSelfTest(k) + [Millisecond]);
      && TrueAge(w.clock) == k + 1 && w.commands.supervisedTick
      && w.state.mode == if (k + 1) % TWO_TO_THE_32 <= config.watchdogTimeoutMs then Operational else Safe
  {
    var before := Run(config, LateSelfTest(k));
    hide Run, LateSelfTest, Tick, ClockTrue, RecoveryAccepted;
    StaleHeartbeat(config, k);
    RunEarned(config, LateSelfTest(k));
    RunClockTrue(config, LateSelfTest(k));
    RunKeepsConfig(config, LateSelfTest(k));
    RunOne(config, LateSelfTest(k), Millisecond);
    SupervisedTickIff(before.state, before.clock);
    MillisecondTicks(before.state);
    KindsApart(before.state, Millisecond);
  }

  /** So the watchdog misses a heartbeat one full turn of the 32-bit clock old, under
      every valid configuration. */
  lemma WrappedHeartbeat(config: Configuration)
    requires IsValid(config)
    ensures var w := Run(config, LateSelfTest(TWO_TO_THE_32) + [Millisecond]);
      && w.state.mode == Operational && w.commands.supervisedTick
      && TrueAge(w.clock) == TWO_TO_THE_32 + 1 > config.watchdogTimeoutMs
  {
    hide Run, LateSelfTest, Text;
    StaleTickIff(config, TWO_TO_THE_32);
  }

  /** Exactly when a controller becomes operational on a current heartbeat: always
      through a heartbeat, and through a self-test event if and only if the age the code
      would compute is within the timeout and less than 2^32 ticks passed since the last
      heartbeat. */
  lemma EntryCurrentIff(w: World, e: Event)
    requires ModesConsistent(w.state) && ClockTrue(w.state, w.clock)
    requires w.state.mode != Operational && Act(w.state, e).mode == Operational
    ensures e.Beat? || e.SelfTest?
    ensures TrueAge(Step(w, e).clock) <= w.state.config.watchdogTimeoutMs
       <==> e.Beat? || (Age(w.state) <= w.state.config.watchdogTimeoutMs && TrueAge(w.clock) < TWO_TO_THE_32)
  {
    hide Act, ClockTrue, Severe, RecoveryAccepted, Heartbeat, HandedBy, NextCommands, NextTraffic, Age;
    StepModes(w.state, e);
    NoShortCuts(w.state, e);
    AgeTrue(w.state, w.clock);
    ConfigBound(w.state);
    BeatUnlessRefused(w.state, e);
    ClockOrder(w.state, w.clock);
    KindsApart(w.state, e);
  }

  // How long a supervised controller can stay out of `Safe`.

  /** Ticks at which the age, modulo 2^32, is at most `t`, among the first `age`. */
  function Window(age: nat, t: nat): nat {
    (t + 1) * (age / TWO_TO_THE_32) + if age % TWO_TO_THE_32 < t then age % TWO_TO_THE_32 else t
  }

  lemma WindowStep(age: nat, t: nat)
    requires t < TWO_TO_THE_32 - 1
    ensures Window(age + 1, t) == Window(age, t) + if (age + 1) % TWO_TO_THE_32 <= t then 1 else 0
  {
    var q := age / TWO_TO_THE_32;
    if age % TWO_TO_THE_32 == TWO_TO_THE_32 - 1 {
      assert (age + 1) / TWO_TO_THE_32 == q + 1 && (age + 1) % TWO_TO_THE_32 == 0;
      assert (t + 1) * (q + 1) == (t + 1) * q + (t + 1);
    } else {
      assert (age + 1) / TWO_TO_THE_32 == q && (age + 1) % TWO_TO_THE_32 == age % TWO_TO_THE_32 + 1;
    }
  }

  /** Live ticks so far against heartbeats, turns of the clock, and the current wait. */
  predicate LiveBounded(w: World) {
    var t := w.state.config.watchdogTimeoutMs;
    && w.clock.lastBeat <= w.clock.ticks
    && w.clock.turns * TWO_TO_THE_32 <= w.clock.lastBeat
    && w.clock.live <= t * w.clock.beats + (t + 1) * w.clock.turns + Window(w.clock.ticks - w.clock.lastBeat, t)
    && (w.state.mode != Safe ==> w.clock.live == w.clock.supervised)
  }

  lemma BeatBound(t: nat, beats: nat, turns: nat, age: nat)
    ensures t * beats + (t + 1) * turns + Window(age, t)
         <= t * (beats + 1) + (t + 1) * (turns + age / TWO_TO_THE_32) + Window(0, t)
  {
    var q := age / TWO_TO_THE_32;
    assert t * (beats + 1) == t * beats + t;
    assert (t + 1) * (turns + q) == (t + 1) * turns + (t + 1) * q;
  }

  lemma StepLiveBounded(w: World, e: Event)
    requires LiveBounded(w) && ClockTrue(w.state, w.clock)
    ensures LiveBounded(Step(w, e))
  {
    hide Act, BeatAccepted, NextCommands, NextTraffic, Advance, Tick, Window, ClockTrue, RecoveryAccepted;
    ActKeepsConfig(w.state, e);
    KindsApart(w.state, e);
    ConfigBound(w.state);
    var age := w.clock.ticks - w.clock.lastBeat;
    if w.state.mode == Safe {
      SafeStays(w.state, e);
    }
    if e.Millisecond? {
      MillisecondTicks(w.state);
      LiveTick(w.state, w.clock);
      WindowStep(age, w.state.config.watchdogTimeoutMs);
    } else if BeatAccepted(w.state, e) {
      BeatBound(w.state.config.watchdogTimeoutMs, w.clock.beats, w.clock.turns, age);
    }
  }

  /** A supervised tick that leaves the controller outside `Safe` finds the age
      within the timeout. */
  lemma LiveTick(s: State, c: Clock)
    requires ClockTrue(s, c)
    ensures s.selfTestPassed && Tick(s).mode != Safe ==>
      (c.ticks - c.lastBeat + 1) % TWO_TO_THE_32 <= s.config.watchdogTimeoutMs
  {
    hide Tick, Advance, Age, ClockTrue;
    TickFrame(s);
    AdvanceFrame(s);
    NextAge(s);
    AgeTrue(s, c);
    SuccessorModulo(c.ticks - c.lastBeat);
  }

  lemma SuccessorModulo(age: int)
    ensures (age % TWO_TO_THE_32 + 1) % TWO_TO_THE_32 == (age + 1) % TWO_TO_THE_32
  {
  }

  lemma {:induction false} RunLiveBounded(config: Configuration, events: seq<Event>)
    ensures LiveBounded(Run(config, events))
    decreases |events|
  {
    hide Step, ClockTrue, LiveBounded;
    if events == [] {
      BeginLiveBounded(config);
    } else {
      var n := |events| - 1;
      RunLiveBounded(config, events[..n]);
      RunClockTrue(config, events[..n]);
      StepLiveBounded(Run(config, events[..n]), events[n]);
    }
  }

  lemma BeginLiveBounded(config: Configuration)
    ensures LiveBounded(Begin(config))
  {
  }

  lemma TurnsBound(turns: nat, lastBeat: nat, ticks: nat)
    requires turns * TWO_TO_THE_32 <= lastBeat <= ticks
    ensures turns + (ticks - lastBeat) / TWO_TO_THE_32 <= ticks / TWO_TO_THE_32
  {
  }

  lemma Monotone(t: nat, a: nat, b: nat)
    requires a <= b
    ensures t * a <= t * b
  {
  }

  /** In any run whatever, the supervised ticks that leave the controller outside
      `Safe` are at most: a timeout for the start and for each accepted heartbeat, and
      a timeout and one more for each full turn of the 32-bit clock. */
  lemma LiveTicksBounded(config: Configuration, events: seq<Event>)
    ensures var c := Run(config, events).clock;
      c.live <= config.watchdogTimeoutMs * (c.beats + 1)
                + (config.watchdogTimeoutMs + 1) * (c.ticks / TWO_TO_THE_32)
  {
    var c := Run(config, events).clock;
    var t := config.watchdogTimeoutMs;
    hide Run;
    RunLiveBounded(config, events);
    RunKeepsConfig(config, events);
    TurnsBound(c.turns, c.lastBeat, c.ticks);
    var q := (c.ticks - c.lastBeat) / TWO_TO_THE_32;
    Monotone(t + 1, c.turns + q, c.ticks / TWO_TO_THE_32);
    assert (t + 1) * (c.turns + q) == (t + 1) * c.turns + (t + 1) * q;
    assert t * (c.beats + 1) == t * c.beats + t;
  }

  /** Below 2^32 ticks: at most a timeout per accepted command number and one more,
      hence at most 65,536,000, the bound for the longest timeout and all numbers. */
  lemma LiveTicksBelowWrap(config: Configuration, events: seq<Event>)
    requires IsValid(config) && Run(config, events).clock.ticks < TWO_TO_THE_32
    ensures var w := Run(config, events);
      && w.clock.live <= config.watchdogTimeoutMs * (w.clock.beats + 1)
      && w.clock.live <= config.watchdogTimeoutMs * (w.state.lastCommand + 1)
      && w.clock.live <= 65_536_000
  {
    var w := Run(config, events);
    hide Run, Text;
    LiveTicksBounded(config, events);
    BeatsAreCommands(config, events);
    CommandsBounded(config, events);
    var t: nat := config.watchdogTimeoutMs;
    assert w.clock.ticks / TWO_TO_THE_32 == 0;
    Monotone(t, w.clock.beats + 1, w.state.lastCommand + 1);
    Monotone(t, w.state.lastCommand + 1, 65536);
    assert t * 65536 <= 1000 * 65536;
  }

  /** So no controller is supervised out of `Safe` for ever: after 65,536,000
      supervised ticks in fewer than 2^32, it is safe. */
  lemma SupervisionEndsSafe(config: Configuration, events: seq<Event>)
    requires IsValid(config) && Run(config, events).clock.ticks < TWO_TO_THE_32
    requires Run(config, events).clock.supervised > 65_536_000
    ensures Run(config, events).state.mode == Safe
  {
    hide Run, IsValid, Window;
    LiveTicksBelowWrap(config, events);
    RunLiveBounded(config, events);
  }
}
