/** The CPU power guard over whole runs of ticks. */
module CpuPowerRuns {
  import opened Wrappers
  import HoldLatch
  import opened CpuPower

  function After(cfg: Config, s: Control, run: seq<Tick>): Control {
    if run == [] then s
    else Next(cfg, After(cfg, s, run[..|run| - 1]), run[|run| - 1])
  }

  function Started(zone: Limits): Control {
    Control(zone, HoldLatch.OFF, None, None)
  }

  function Observations(cfg: Config, run: seq<Tick>): (obs: seq<HoldLatch.Obs>)
    ensures |obs| == |run|
    ensures forall i | 0 <= i < |run| :: obs[i] == Observed(run[i].now, run[i].sample, cfg.temps)
  {
    seq(|run|, i requires 0 <= i < |run| => Observed(run[i].now, run[i].sample, cfg.temps))
  }

  predicate Ordered(run: seq<Tick>) {
    forall i, j | 0 <= i <= j < |run| :: run[i].now <= run[j].now
  }

  /** `z` is where a rewrite to `target` can leave a zone that was at `before`. */
  ghost predicate PartOfRewrite(cfg: Config, before: Limits, target: Limits, z: Limits) {
    exists n: nat :: n <= 3 && z == AfterWrites(cfg.round, before, WritePlan(before.pl2, target), n)
  }

  // ---------- PL1 never exceeds PL2 ----------

  lemma TickKeepsOrder(cfg: Config, s: Control, t: Tick)
    requires cfg.Valid() && s.zone.Ordered() && (t.outside.Some? ==> t.outside.value.Ordered())
    ensures Next(cfg, s, t).zone.Ordered()
  {
    var z := Overwritten(s, t.outside).zone;
    var target := cfg.For(ModeOf(Next(cfg, s, t).guard));
    PlanKeepsOrder(cfg.round, z, target, if t.access.writes < 3 then t.access.writes else 3);
  }

  /** From an ordered zone, over any run with failures and retries anywhere, the zone stays ordered. */
  lemma {:induction false} RunKeepsOrder(cfg: Config, zone: Limits, run: seq<Tick>)
    requires cfg.Valid() && zone.Ordered()
    requires forall t | t in run :: t.outside.Some? ==> t.outside.value.Ordered()
    ensures After(cfg, Started(zone), run).zone.Ordered()
  {
    if run != [] {
      RunKeepsOrder(cfg, zone, run[..|run| - 1]);
      TickKeepsOrder(cfg, After(cfg, Started(zone), run[..|run| - 1]), run[|run| - 1]);
    }
  }

  // ---------- which limits a tick may write ----------

  lemma {:induction false} GuardFollowsObservations(cfg: Config, zone: Limits, run: seq<Tick>)
    ensures After(cfg, Started(zone), run).guard == HoldLatch.Run(cfg.rearm, Observations(cfg, run))
  {
    hide Verify;
    hide Apply;
    hide HoldLatch.Step;
    var obs := Observations(cfg, run);
    if run == [] {
      assert obs == [];
    } else {
      var init, t := run[..|run| - 1], run[|run| - 1];
      GuardFollowsObservations(cfg, zone, init);
      assert obs[..|obs| - 1] == Observations(cfg, init);
      TickGuard(cfg, After(cfg, Started(zone), init), t);
    }
  }

  lemma TickGuard(cfg: Config, s: Control, t: Tick)
    ensures Next(cfg, s, t).guard == HoldLatch.Step(cfg.rearm, s.guard, Observed(t.now, t.sample, cfg.temps))
  {
    hide HoldLatch.Step;
    hide Critical;
  }

  /** A tick writes only towards the limits of the mode its guard ends in. */
  lemma TickWritesItsMode(cfg: Config, s: Control, t: Tick)
    ensures var u := Next(cfg, s, t);
            PartOfRewrite(cfg, Overwritten(s, t.outside).zone, cfg.For(ModeOf(u.guard)), u.zone)
  {
    hide HoldLatch.Step;
    hide Critical;
    var u := Next(cfg, s, t);
    var z := Overwritten(s, t.outside).zone;
    var plan := WritePlan(z.pl2, cfg.For(ModeOf(u.guard)));
    assert AfterWrites(cfg.round, z, plan, 0) == z;
    var n: nat := if t.access.writes < 3 then t.access.writes else 3;
    assert u.zone == z || u.zone == AfterWrites(cfg.round, z, plan, n);
  }

  /** After a tick with a bad sample the guard is on, and what the tick wrote leads to stock. */
  lemma BadSampleTrips(cfg: Config, s: Control, t: Tick)
    requires Bad(t.sample, cfg.temps)
    ensures var u := Next(cfg, s, t);
            u.guard.on && PartOfRewrite(cfg, Overwritten(s, t.outside).zone, cfg.stock, u.zone)
  {
    hide Next;
    hide Critical;
    hide Bad;
    ObservedMeans(t.now, t.sample, cfg.temps);
    TickGuard(cfg, s, t);
    TickWritesItsMode(cfg, s, t);
  }

  /** An untripped guard stays so with any other sample, and what the tick wrote leads to the configured limits. */
  lemma OtherSampleDoesNot(cfg: Config, s: Control, t: Tick)
    requires !s.guard.on && !Bad(t.sample, cfg.temps)
    ensures var u := Next(cfg, s, t);
            !u.guard.on && PartOfRewrite(cfg, Overwritten(s, t.outside).zone, cfg.configured, u.zone)
  {
    hide Next;
    hide Critical;
    hide Bad;
    ObservedMeans(t.now, t.sample, cfg.temps);
    TickGuard(cfg, s, t);
    TickWritesItsMode(cfg, s, t);
  }

  /** Samples `a` to `b` are all cool and span the re-arm time. */
  ghost predicate CoolSpell(cfg: Config, run: seq<Tick>, a: nat, b: nat) {
    && a <= b < |run| && (forall i | a <= i <= b :: Cool(run[i].sample, cfg.temps))
    && run[b].now - run[a].now >= cfg.rearm
  }

  ghost predicate NoCoolSpellAfter(cfg: Config, run: seq<Tick>, k: nat) {
    forall a: nat, b: nat | k < a :: !CoolSpell(cfg, run, a, b)
  }

  /** Some bad sample has not been followed by a cool spell. */
  ghost predicate Tripped(cfg: Config, run: seq<Tick>) {
    exists k | 0 <= k < |run| :: Bad(run[k].sample, cfg.temps) && NoCoolSpellAfter(cfg, run, k)
  }

  lemma TrippedIsHolding(cfg: Config, run: seq<Tick>)
    ensures Tripped(cfg, run) <==> HoldLatch.Holding(cfg.rearm, Observations(cfg, run))
  {
    hide Bad;
    hide Cool;
    hide Observed;
    var obs := Observations(cfg, run);
    forall i | 0 <= i < |run|
      ensures obs[i].trip <==> Bad(run[i].sample, cfg.temps)
      ensures (obs[i].good <==> Cool(run[i].sample, cfg.temps)) && obs[i].at == run[i].now
    {
      ObservedMeans(run[i].now, run[i].sample, cfg.temps);
    }
    forall a: nat, b: nat ensures CoolSpell(cfg, run, a, b) <==> HoldLatch.Steady(cfg.rearm, obs, a, b) {
    }
    forall k | 0 <= k < |run|
      ensures NoCoolSpellAfter(cfg, run, k) <==> HoldLatch.NoSteadyAfter(cfg.rearm, obs, k)
    {
    }
    if Tripped(cfg, run) {
      var k :| 0 <= k < |run| && Bad(run[k].sample, cfg.temps) && NoCoolSpellAfter(cfg, run, k);
      assert obs[k].trip && HoldLatch.NoSteadyAfter(cfg.rearm, obs, k);
    }
    if HoldLatch.Holding(cfg.rearm, obs) {
      var k :| 0 <= k < |obs| && obs[k].trip && HoldLatch.NoSteadyAfter(cfg.rearm, obs, k);
      assert Bad(run[k].sample, cfg.temps) && NoCoolSpellAfter(cfg, run, k);
    }
  }

  /**
   A tick of any run writes towards stock exactly while some silent, empty or
   critical sample has not been followed by samples that are all below warning
   and span the re-arm time; otherwise towards the configured limits. In
   particular a tick with a bad sample never writes the latter.
   */
  lemma WritesConfiguredOnlyWhenRearmed(cfg: Config, zone: Limits, run: seq<Tick>)
    requires run != [] && Ordered(run)
    ensures var before := After(cfg, Started(zone), run[..|run| - 1]);
            var t := run[|run| - 1];
            var target := if Tripped(cfg, run) then cfg.stock else cfg.configured;
            && PartOfRewrite(cfg, Overwritten(before, t.outside).zone, target, After(cfg, Started(zone), run).zone)
            && (After(cfg, Started(zone), run).guard.on <==> Tripped(cfg, run))
            && (Bad(t.sample, cfg.temps) ==> Tripped(cfg, run))
  {
    hide Next;
    hide Bad;
    hide Cool;
    hide HoldLatch.Step;
    hide HoldLatch.Run;
    hide HoldLatch.Holding;
    hide Tripped;
    var before, t := After(cfg, Started(zone), run[..|run| - 1]), run[|run| - 1];
    TickWritesItsMode(cfg, before, t);
    GuardFollowsObservations(cfg, zone, run);
    HoldLatch.OnIffHolding(cfg.rearm, Observations(cfg, run));
    TrippedIsHolding(cfg, run);
    if Bad(t.sample, cfg.temps) {
      BadSampleTrips(cfg, before, t);
    }
  }

  // ---------- the zone comes back to the guard's mode ----------

  ghost predicate InMode(cfg: Config, s: Control) {
    s.applied == Some(ModeOf(s.guard)) && cfg.For(ModeOf(s.guard)).Matches(s.zone)
  }

  /**
   After a tick whose file access works, the zone is in the guard's mode if
   and only if the tick verified, changed mode or retried, or the zone was
   right already. The remaining case is real: see `StuckUntilVerify`.
   */
  lemma WorkingTickInModeIff(cfg: Config, s: Control, t: Tick)
    requires cfg.Valid() && t.access.Works()
    ensures var mode := ModeOf(Next(cfg, s, t).guard);
            InMode(cfg, Next(cfg, s, t)) <==>
              VerifyDue(s.lastVerify, t.now) || s.applied != Some(mode)
              || cfg.For(mode).Matches(Overwritten(s, t.outside).zone)
  {
    hide HoldLatch.Step;
    hide Critical;
    hide WithinQuarter;
    var u := Next(cfg, s, t);
    WholePlanMatches(cfg.round, Overwritten(s, t.outside).zone, cfg.For(ModeOf(u.guard)));
  }

  lemma WorkingTickStaysOrWaits(cfg: Config, s: Control, t: Tick)
    requires cfg.Valid() && t.access.Works() && t.outside.None?
    ensures var u := Next(cfg, s, t);
            (InMode(cfg, s) || VerifyDue(s.lastVerify, t.now) ==> InMode(cfg, u))
            && (InMode(cfg, u) || u.lastVerify == s.lastVerify)
  {
    hide HoldLatch.Step;
    hide Critical;
    hide WithinQuarter;
    WorkingTickInModeIff(cfg, s, t);
  }

  /**
   Once file access works and nothing else writes the zone, from the first
   tick `VERIFY_INTERVAL` after the last verification on, the zone is in the
   guard's mode after every tick.
   */
  lemma {:induction false} BackInModeByVerify(cfg: Config, s: Control, run: seq<Tick>, i: nat)
    requires cfg.Valid() && Ordered(run) && i < |run| && VerifyDue(s.lastVerify, run[i].now)
    requires forall t | t in run :: t.access.Works() && t.outside.None?
    ensures InMode(cfg, After(cfg, s, run))
  {
    hide Next;
    hide InMode;
    var init, t := run[..|run| - 1], run[|run| - 1];
    assert t in run;
    WorkingTickStaysOrWaits(cfg, After(cfg, s, init), t);
    if i < |init| {
      assert init[i] == run[i];
      BackInModeByVerify(cfg, s, init, i);
    } else {
      InModeOrUnverified(cfg, s, init);
    }
  }

  /** In plain registers: both powers exactly those of the guard's mode, the window to within a quarter. */
  predicate ZoneIs(want: Limits, zone: Limits) {
    zone.pl1 == want.pl1 && zone.pl2 == want.pl2 && 3 * want.tau <= 4 * zone.tau <= 5 * want.tau
  }

  /** The same in plain terms: from the first tick a minute after the last verification, if there was one. */
  lemma RegistersBackByVerify(cfg: Config, s: Control, run: seq<Tick>, i: nat)
    requires cfg.Valid() && Ordered(run) && i < |run|
    requires s.lastVerify == None || run[i].now >= s.lastVerify.value + 60
    requires forall t | t in run :: t.access.Works() && t.outside.None?
    ensures var u := After(cfg, s, run);
            ZoneIs(if u.guard.on then cfg.stock else cfg.configured, u.zone)
  {
    hide After;
    BackInModeByVerify(cfg, s, run, i);
    var u := After(cfg, s, run);
    MatchesMeans(if u.guard.on then cfg.stock else cfg.configured, u.zone);
  }

  lemma {:induction false} InModeOrUnverified(cfg: Config, s: Control, run: seq<Tick>)
    requires cfg.Valid() && forall t | t in run :: t.access.Works() && t.outside.None?
    ensures InMode(cfg, After(cfg, s, run)) || After(cfg, s, run).lastVerify == s.lastVerify
  {
    hide Next;
    hide InMode;
    if run != [] {
      InModeOrUnverified(cfg, s, run[..|run| - 1]);
      WorkingTickStaysOrWaits(cfg, After(cfg, s, run[..|run| - 1]), run[|run| - 1]);
    }
  }

  /** A tick that works and finds everything cool. */
  predicate QuietTick(cfg: Config, t: Tick) {
    AllCool(t.sample, cfg.temps) && !Critical(t.sample, cfg.temps) && t.outside.None? && t.access.Works()
  }

  /** A tick at which only the first file of a rewrite can be written. */
  predicate FailingTick(t: Tick) {
    t.outside.None? && t.access == Access(true, true, true, 1)
  }

  /**
   After a drop to stock that fails half way and a re-arm before the next
   verification, the controller takes the half-written zone for applied: a
   working tick leaves it alone, and `applied` matches the guard's mode. So it
   goes from any start and for every re-arm time shorter than the interval.
   */
  lemma StuckUntilVerify(cfg: Config, zone: Limits, boot: Tick, hot: Tick, cool: Tick, last: Tick)
    requires cfg.Valid() && cfg.configured.pl2 > cfg.stock.pl2 && cfg.configured.pl1 != cfg.stock.pl1
    requires QuietTick(cfg, boot) && QuietTick(cfg, last) && FailingTick(hot) && FailingTick(cool)
    requires Critical(hot.sample, cfg.temps)
    requires AllCool(cool.sample, cfg.temps) && !Critical(cool.sample, cfg.temps)
    requires Ordered([boot, hot, cool, last]) && last.now < boot.now + VERIFY_INTERVAL
    requires last.now >= cool.now + cfg.rearm
    ensures var before := After(cfg, Started(zone), [boot]);
            var s := After(cfg, Started(zone), [boot, hot, cool, last]);
            && InMode(cfg, before) && before.applied == Some(Configured)
            && ModeOf(s.guard) == Configured && s.applied == Some(Configured)
            && !cfg.For(Configured).Matches(s.zone)
  {
    hide Critical;
    hide WithinQuarter;
    hide Next;
    var s1 := Next(cfg, Started(zone), boot);
    BootApplies(cfg, zone, boot);
    var run := [boot, hot, cool, last];
    assert run[..3] == [boot, hot, cool] && run[..3][..2] == [boot, hot];
    assert run[..3][..2][..1] == [boot] && [boot][..0] == [];
    assert run[0].now <= run[1].now <= run[2].now <= run[3].now;
    var s2 := Next(cfg, s1, hot);
    HalfDrop(cfg, s1, hot);
    var s3 := Next(cfg, s2, cool);
    HalfDropAgain(cfg, s2, cool);
    LeftAlone(cfg, s3, last, boot.now);
    assert After(cfg, Started(zone), []) == Started(zone);
    assert After(cfg, Started(zone), [boot]) == s1;
    assert After(cfg, Started(zone), [boot, hot]) == s2;
    assert After(cfg, Started(zone), [boot, hot, cool]) == s3;
  }

  /** Recorded as applied and verified at `at`, in the configured mode, but with stock's PL1. */
  predicate HalfWritten(cfg: Config, s: Control, at: int) {
    && s.applied == Some(Configured) && s.lastVerify == Some(at)
    && s.zone.pl1 == cfg.stock.pl1 && s.zone.pl2 == cfg.configured.pl2
  }

  lemma BootApplies(cfg: Config, zone: Limits, t: Tick)
    requires cfg.Valid() && QuietTick(cfg, t)
    ensures var s := Next(cfg, Started(zone), t);
            && InMode(cfg, s) && s.applied == Some(Configured) && s.lastVerify == Some(t.now)
            && s.guard == HoldLatch.OFF
  {
    hide Critical;
    hide WithinQuarter;
    WholePlanMatches(cfg.round, zone, cfg.configured);
  }

  lemma OneWrite(cfg: Config, z: Limits)
    requires z.pl2 > cfg.stock.pl2
    ensures AfterWrites(cfg.round, z, WritePlan(z.pl2, cfg.stock), 1) == z.(pl1 := cfg.stock.pl1)
  {
    var plan := WritePlan(z.pl2, cfg.stock);
    assert AfterWrites(cfg.round, z, plan, 1) == Store(cfg.round, AfterWrites(cfg.round, z, plan, 0), plan[0]);
  }

  lemma HalfDrop(cfg: Config, s: Control, t: Tick)
    requires s.applied == Some(Configured) && s.lastVerify.Some? && t.now < s.lastVerify.value + VERIFY_INTERVAL
    requires cfg.configured.Matches(s.zone) && cfg.configured.pl2 > cfg.stock.pl2
    requires FailingTick(t) && Critical(t.sample, cfg.temps)
    ensures HalfWritten(cfg, Next(cfg, s, t), s.lastVerify.value)
    ensures Next(cfg, s, t).guard == HoldLatch.Latch(true, None)
  {
    hide Critical;
    OneWrite(cfg, s.zone);
  }

  /** While the limits are at stock the write is retried, and may fail again; a zero re-arm time ends that at once. */
  lemma HalfDropAgain(cfg: Config, s: Control, t: Tick)
    requires s.lastVerify.Some? && HalfWritten(cfg, s, s.lastVerify.value)
    requires t.now < s.lastVerify.value + VERIFY_INTERVAL && cfg.configured.pl2 > cfg.stock.pl2
    requires s.guard == HoldLatch.Latch(true, None)
    requires FailingTick(t) && AllCool(t.sample, cfg.temps) && !Critical(t.sample, cfg.temps)
    ensures HalfWritten(cfg, Next(cfg, s, t), s.lastVerify.value)
    ensures Next(cfg, s, t).guard == if cfg.rearm == 0 then HoldLatch.OFF else HoldLatch.Latch(true, Some(t.now))
  {
    hide Critical;
    OneWrite(cfg, s.zone);
  }

  lemma LeftAlone(cfg: Config, s: Control, t: Tick, at: int)
    requires HalfWritten(cfg, s, at) && t.now < at + VERIFY_INTERVAL && QuietTick(cfg, t)
    requires s.guard == HoldLatch.OFF || (s.guard.since.Some? && t.now >= s.guard.since.value + cfg.rearm)
    ensures HalfWritten(cfg, Next(cfg, s, t), at) && ModeOf(Next(cfg, s, t).guard) == Configured
  {
    hide Critical;
  }
}
