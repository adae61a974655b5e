/**
 The CPU power guard: applies PL1/PL2/tau through three files that can fail
 at any point, drops to stock while a sensor is critical, and verifies
 periodically.
 */
module CpuPower {
  import opened Wrappers
  import HoldLatch

  datatype Limits = Limits(pl1: nat, pl2: nat, tau: nat)
  {
    predicate Ordered() {
      pl1 <= pl2
    }

    /** Whether a read-back is this setting; the kernel may round the window by a quarter. */
    predicate Matches(read: Limits) {
      pl1 == read.pl1 && pl2 == read.pl2 && Distance(tau, read.tau) * 4 <= tau
    }
  }

  /** In plain registers: both powers exactly, the window to within a quarter. */
  lemma MatchesMeans(want: Limits, read: Limits)
    ensures want.Matches(read) <==>
            && read.pl1 == want.pl1 && read.pl2 == want.pl2
            && 4 * read.tau <= 5 * want.tau && 4 * read.tau >= 3 * want.tau
  {
  }

  function Distance(a: nat, b: nat): nat {
    if a < b then b - a else a - b
  }

  datatype LimitFile = Pl1File | Pl2File | TauFile

  /** PL2 is raised before PL1 and lowered after it. */
  function WritePlan(curPl2: nat, new_: Limits): (plan: seq<(LimitFile, nat)>)
    ensures |plan| == 3 && plan[2] == (TauFile, new_.tau)
  {
    if new_.pl2 >= curPl2
    then [(Pl2File, new_.pl2), (Pl1File, new_.pl1), (TauFile, new_.tau)]
    else [(Pl1File, new_.pl1), (Pl2File, new_.pl2), (TauFile, new_.tau)]
  }

  /** How the hardware stores a time window: to within a quarter. */
  type Rounding = nat -> nat

  ghost predicate WithinQuarter(round: Rounding) {
    forall tau: nat :: Distance(tau, round(tau)) * 4 <= tau
  }

  function Store(round: Rounding, z: Limits, write: (LimitFile, nat)): Limits {
    match write.0
    case Pl1File => z.(pl1 := write.1)
    case Pl2File => z.(pl2 := write.1)
    case TauFile => z.(tau := round(write.1))
  }

  /** The zone after the first `n` writes of a plan. */
  function AfterWrites(round: Rounding, z: Limits, plan: seq<(LimitFile, nat)>, n: nat): Limits
    requires n <= |plan|
  {
    if n == 0 then z else Store(round, AfterWrites(round, z, plan, n - 1), plan[n - 1])
  }

  /** However far a plan gets, PL1 never exceeds PL2. */
  lemma {:induction false} PlanKeepsOrder(round: Rounding, z: Limits, new_: Limits, n: nat)
    requires z.Ordered() && new_.Ordered() && n <= 3
    ensures AfterWrites(round, z, WritePlan(z.pl2, new_), n).Ordered()
  {
    var plan := WritePlan(z.pl2, new_);
    assert AfterWrites(round, z, plan, 0) == z;
    if n >= 1 {
      assert AfterWrites(round, z, plan, 1) == Store(round, z, plan[0]);
    }
    if n >= 2 {
      assert AfterWrites(round, z, plan, 2) == Store(round, AfterWrites(round, z, plan, 1), plan[1]);
    }
  }

  lemma {:induction false} WholePlanMatches(round: Rounding, z: Limits, new_: Limits)
    requires WithinQuarter(round)
    ensures new_.Matches(AfterWrites(round, z, WritePlan(z.pl2, new_), 3))
  {
    var plan := WritePlan(z.pl2, new_);
    var z1 := AfterWrites(round, z, plan, 1);
    var z2 := AfterWrites(round, z, plan, 2);
    assert z1 == Store(round, AfterWrites(round, z, plan, 0), plan[0]);
    assert z2 == Store(round, z1, plan[1]);
    assert AfterWrites(round, z, plan, 3) == Store(round, z2, plan[2]);
    assert Distance(new_.tau, round(new_.tau)) * 4 <= new_.tau;
  }

  // ---------- specification of one tick ----------

  datatype Mode = Configured | Stock

  datatype Reading = Reading(chip: string, temp: real)

  /** Per chip: the warning and the critical threshold. */
  type Thresholds = string -> (real, real)

  datatype Config = Config(configured: Limits, stock: Limits, rearm: nat, temps: Thresholds, round: Rounding)
  {
    ghost predicate Valid() {
      configured.Ordered() && stock.Ordered() && WithinQuarter(round)
    }

    function For(mode: Mode): Limits {
      if mode.Configured? then configured else stock
    }
  }

  /** How file access goes during one tick: `writes` succeed before the first that fails. */
  datatype Access = Access(readOk: bool, checkOk: bool, readPl2Ok: bool, writes: nat)
  {
    predicate Works() {
      readOk && checkOk && readPl2Ok && writes >= 3
    }
  }

  /** One tick: the time, the latest sample, what something else last wrote to the zone, and file access. */
  datatype Tick = Tick(now: int, sample: Option<seq<Reading>>, outside: Option<Limits>, access: Access)

  datatype Control = Control(zone: Limits, guard: HoldLatch.Latch, applied: Option<Mode>, lastVerify: Option<int>)

  const VERIFY_INTERVAL := 60

  /** No fresh sample, an empty one, or any sensor at its critical threshold. */
  predicate Critical(sample: Option<seq<Reading>>, temps: Thresholds) {
    sample.None? || sample.value == [] || exists r | r in sample.value :: r.temp >= temps(r.chip).1
  }

  predicate AllCool(sample: Option<seq<Reading>>, temps: Thresholds) {
    sample.Some? && sample.value != [] && forall r | r in sample.value :: r.temp < temps(r.chip).0
  }

  function Observed(now: int, sample: Option<seq<Reading>>, temps: Thresholds): HoldLatch.Obs {
    var critical := Critical(sample, temps);
    HoldLatch.Obs(now, critical, !critical && AllCool(sample, temps))
  }

  /** Silent, empty, or some sensor at its chip's critical threshold or above. */
  ghost predicate Bad(sample: Option<seq<Reading>>, temps: Thresholds) {
    || sample == None || sample == Some([])
    || exists i | 0 <= i < |sample.value| :: sample.value[i].temp >= temps(sample.value[i].chip).1
  }

  /** Some sensors, every one below its chip's warning threshold, and below its critical one. */
  ghost predicate Cool(sample: Option<seq<Reading>>, temps: Thresholds) {
    && sample != None && sample != Some([])
    && forall i | 0 <= i < |sample.value| ::
         && sample.value[i].temp < temps(sample.value[i].chip).0
         && sample.value[i].temp < temps(sample.value[i].chip).1
  }

  /** Which samples trip the guard, and which count towards re-arming it. */
  lemma ObservedMeans(now: int, sample: Option<seq<Reading>>, temps: Thresholds)
    ensures var obs := Observed(now, sample, temps);
            obs.at == now && (obs.trip <==> Bad(sample, temps)) && (obs.good <==> Cool(sample, temps))
  {
    if sample.Some? {
      var s := sample.value;
      forall i | 0 <= i < |s| ensures s[i] in s {
      }
      if r :| r in s && r.temp >= temps(r.chip).1 {
        var i :| 0 <= i < |s| && s[i] == r;
        assert s[i].temp >= temps(s[i].chip).1;
      }
      if r :| r in s && r.temp >= temps(r.chip).0 {
        var i :| 0 <= i < |s| && s[i] == r;
        assert s[i].temp >= temps(s[i].chip).0;
      }
    }
  }

  function ModeOf(guard: HoldLatch.Latch): Mode {
    if guard.on then Stock else Configured
  }

  predicate VerifyDue(lastVerify: Option<int>, now: int) {
    lastVerify.None? || now - lastVerify.value >= VERIFY_INTERVAL
  }

  function Verify(cfg: Config, s: Control, now: int, access: Access): Control {
    if s.applied.None? || !VerifyDue(s.lastVerify, now) then s
    else if access.readOk && cfg.For(s.applied.value).Matches(s.zone) then s.(lastVerify := Some(now))
    else s.(lastVerify := Some(now), applied := None)
  }

  function Apply(cfg: Config, s: Control, now: int, mode: Mode, access: Access): Control {
    if !access.checkOk || !access.readPl2Ok then s
    else
      var plan := WritePlan(s.zone.pl2, cfg.For(mode));
      if access.writes < 3 then s.(zone := AfterWrites(cfg.round, s.zone, plan, access.writes))
      else s.(zone := AfterWrites(cfg.round, s.zone, plan, 3), applied := Some(mode), lastVerify := Some(now))
  }

  function Overwritten(s: Control, outside: Option<Limits>): Control {
    if outside.Some? then s.(zone := outside.value) else s
  }

  function Next(cfg: Config, s: Control, t: Tick): Control {
    var guard := HoldLatch.Step(cfg.rearm, s.guard, Observed(t.now, t.sample, cfg.temps));
    var s1 := Overwritten(s, t.outside).(guard := guard);
    var want := ModeOf(s1.guard);
    var s2 := Verify(cfg, s1, t.now, t.access);
    if s2.applied != Some(want) then Apply(cfg, s2, t.now, want, t.access) else s2
  }

  // ---------- the code ----------

  class Guard {
    const rearm: nat
    var tripped: bool
    var coolSince: Option<int>

    constructor (rearm: nat)
      ensures this.rearm == rearm && Value() == HoldLatch.OFF
    {
      this.rearm := rearm;
      tripped, coolSince := false, None;
    }

    ghost function Value(): HoldLatch.Latch
      reads this
    {
      HoldLatch.Latch(tripped, coolSince)
    }

    method Observe(now: int, sample: Option<seq<Reading>>, temps: Thresholds)
      modifies this
      ensures Value() == HoldLatch.Step(rearm, old(Value()), Observed(now, sample, temps))
    {
      if Critical(sample, temps) {
        coolSince := None;
        tripped := true;
        return;
      }
      if !tripped {
        return;
      }
      if !AllCool(sample, temps) {
        coolSince := None;
        return;
      }
      if coolSince.None? {
        coolSince := Some(now);
      }
      if now - coolSince.value >= rearm {
        tripped := false;
        coolSince := None;
      }
    }
  }

  /** The powercap zone: its registers, and every state they have been in. */
  class Zone {
    const round: Rounding
    var limits: Limits
    ghost var history: seq<Limits>

    ghost predicate Valid()
      reads this
    {
      && history != [] && history[|history| - 1] == limits
      && forall i | 0 <= i < |history| :: history[i].Ordered()
    }

    constructor (limits: Limits, round: Rounding)
      requires limits.Ordered()
      ensures Valid() && this.limits == limits && this.round == round
    {
      this.limits, this.round, history := limits, round, [limits];
    }

    method Write(new_: Limits, access: Access) returns (ok: bool)
      requires Valid() && new_.Ordered()
      modifies this
      ensures Valid() && old(history) <= history
      ensures ok <==> access.readPl2Ok && access.writes >= 3
      ensures limits == if !access.readPl2Ok then old(limits)
                        else AfterWrites(round, old(limits), WritePlan(old(limits).pl2, new_),
                                         if access.writes < 3 then access.writes else 3)
    {
      if !access.readPl2Ok {
        return false;
      }
      var plan := WritePlan(limits.pl2, new_);
      ghost var before := limits;
      for i := 0 to |plan|
        invariant Valid() && old(history) <= history && i <= access.writes
        invariant limits == AfterWrites(round, before, plan, i)
      {
        if i >= access.writes {
          return false;
        }
        PlanKeepsOrder(round, before, new_, i + 1);
        limits := Store(round, limits, plan[i]);
        history := history + [limits];
      }
      ok := true;
    }
  }

  class Controller {
    const cfg: Config
    const zone: Zone
    const guard: Guard
    var applied: Option<Mode>
    var lastVerify: Option<int>

    ghost predicate Valid()
      reads this, zone, guard
    {
      zone.Valid() && cfg.Valid() && zone.round == cfg.round && guard.rearm == cfg.rearm
    }

    ghost function Value(): Control
      reads this, zone, guard
    {
      Control(zone.limits, guard.Value(), applied, lastVerify)
    }

    constructor (cfg: Config, zone: Zone)
      requires cfg.Valid() && zone.Valid() && zone.round == cfg.round
      ensures Valid() && fresh(guard) && this.zone == zone && this.cfg == cfg
      ensures Value() == Control(zone.limits, HoldLatch.OFF, None, None)
    {
      this.cfg, this.zone := cfg, zone;
      guard := new Guard(cfg.rearm);
      applied, lastVerify := None, None;
    }

    method OnTick(now: int, sample: Option<seq<Reading>>, access: Access)
      requires Valid()
      modifies this, zone, guard
      ensures Valid() && old(zone.history) <= zone.history
      ensures Value() == Next(cfg, old(Value()), Tick(now, sample, None, access))
    {
      guard.Observe(now, sample, cfg.temps);
      var want := if guard.tripped then Stock else Configured;
      VerifyLimits(now, access);
      if applied != Some(want) {
        ApplyLimits(now, want, access);
      }
    }

    method VerifyLimits(now: int, access: Access)
      requires Valid()
      modifies this
      ensures Valid() && Value() == Verify(cfg, old(Value()), now, access)
    {
      if applied.None? || !VerifyDue(lastVerify, now) {
        return;
      }
      lastVerify := Some(now);
      if !access.readOk || !cfg.For(applied.value).Matches(zone.limits) {
        applied := None;
      }
    }

    method ApplyLimits(now: int, mode: Mode, access: Access)
      requires Valid()
      modifies this, zone
      ensures Valid() && old(zone.history) <= zone.history
      ensures Value() == Apply(cfg, old(Value()), now, mode, access)
    {
      if !access.checkOk {
        return;
      }
      var ok := zone.Write(cfg.For(mode), access);
      if ok {
        applied := Some(mode);
        lastVerify := Some(now);
      }
    }
  }
}
