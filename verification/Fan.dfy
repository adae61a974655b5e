/** The fan controller (`FanController::update` and what it calls). */
module Fan {
  import opened Wrappers
  import opened FanCurve
  import opened FanSensors

  /** Milliseconds. */
  const TAKEOVER_AFTER := 30_000
  const KICK := 1_000

  /**
   One update: the time, whether the pwm chip can be found, the latest samples,
   the tach, and which writes succeed.
   */
  datatype Tick = Tick(now: int, chip: bool, samples: seq<Sample>, rpm: Option<real>, enableOk: bool, writeOk: bool)
  {
    predicate WritesWork() {
      enableOk && writeOk
    }
  }

  datatype PwmCommand = Set(pwm: Pwm) | Kick(pwm: Pwm)

  /** The controller, with what the fan's pwm files hold (`manual`, `pwm`). */
  datatype State = State(
    resolved: bool, lastPwm: Option<Pwm>, kickUntil: Option<int>, feeds: seq<Feed>, critical: bool,
    everRan: bool, stalls: nat, sensorsLost: bool, started: int, manual: bool, pwm: Pwm)

  // ---------- specification ----------

  function Readings(p: Profile, t: Tick): (r: seq<Option<real>>)
    requires |t.samples| == |p.sensors|
    ensures |r| == |p.sensors|
    ensures forall i | 0 <= i < |r| :: r[i] == Current(t.samples[i], p.sensors[i].maxAge, t.now)
  {
    seq(|p.sensors|, i requires 0 <= i < |p.sensors| => Current(t.samples[i], p.sensors[i].maxAge, t.now))
  }

  function Track(feeds: seq<Feed>, now: int, readings: seq<Option<real>>): (r: seq<Feed>)
    requires |feeds| == |readings|
    ensures |r| == |feeds|
    ensures forall i | 0 <= i < |r| :: r[i] == FeedStep(feeds[i], now, readings[i].Some?)
  {
    seq(|feeds|, i requires 0 <= i < |feeds| => FeedStep(feeds[i], now, readings[i].Some?))
  }

  predicate AnyHeld(feeds: seq<Feed>) {
    exists i | 0 <= i < |feeds| :: feeds[i].held
  }

  /**
   What the fan should run at, once sensors are tracked and the override is up
   to date; `None` without any reading.
   */
  function Target(p: Profile, feeds: seq<Feed>, critical: bool, readings: seq<Option<real>>): (target: Option<Pwm>)
    requires p.Valid() && |readings| == |p.sensors|
    ensures target.Some? <==> AnyReading(readings)
    ensures target.Some? && (AnyHeld(feeds) || critical) ==> target.value == p.maxPwm
  {
    DemandBounds(p, readings, |readings|);
    if !AnyReading(readings) then None
    else if AnyHeld(feeds) || critical then Some(p.maxPwm)
    else if p.mode.Fixed? then Some(if p.fixedPwm.Some? then p.fixedPwm.value else p.maxPwm)
    else Demand(p, readings, |readings|)
  }

  function Plan(p: Profile, s: State, target: Pwm, rpm: Option<real>): (PwmCommand, State) {
    var commanded: Pwm := if s.lastPwm.Some? then s.lastPwm.value else 0;
    if target == 0 then (Set(0), s.(stalls := 0))
    else if commanded > 0 && rpm.Some? && rpm.value <= 0.0 then (Kick(p.minStartPwm), s.(stalls := s.stalls + 1))
    else if commanded == 0 then (Kick(p.minStartPwm), s)
    else (Set(target), s.(stalls := 0, everRan := true))
  }

  /** Asserts manual mode, then writes; a failure makes the chip be looked up again. */
  function Write(s: State, value: Pwm, t: Tick): State {
    if !t.enableOk then s.(resolved := false)
    else if !t.writeOk then s.(resolved := false, manual := true)
    else s.(manual := true, pwm := value, lastPwm := Some(value))
  }

  function Apply(s: State, cmd: PwmCommand, t: Tick): State {
    var s1 := Write(s, cmd.pwm, t);
    if t.WritesWork() && cmd.Kick? then s1.(kickUntil := Some(t.now + KICK)) else s1
  }

  function HoldFullSpeed(p: Profile, s: State, t: Tick): State {
    if s.lastPwm.None? && t.now - s.started < TAKEOVER_AFTER then s
    else Write(s.(sensorsLost := true, kickUntil := None), p.maxPwm, t)
  }

  /** Whether an update gets as far as looking at the sensors. */
  predicate Looks(p: Profile, s: State, t: Tick) {
    p.enabled && (s.resolved || t.chip)
  }

  function Tracked(p: Profile, s: State, t: Tick): State
    requires |t.samples| == |p.sensors| == |s.feeds|
  {
    var readings := Readings(p, t);
    s.(resolved := true, feeds := Track(s.feeds, t.now, readings),
       critical := if AnyReading(readings) then OverrideStep(s.critical, p.sensors, readings) else s.critical)
  }

  predicate MidKick(s: State, now: int) {
    s.kickUntil.Some? && now < s.kickUntil.value
  }

  /** From what the sensors ask for to what is written. */
  function Drive(p: Profile, s: State, target: Option<Pwm>, t: Tick): (u: State)
    ensures u.feeds == s.feeds && u.critical == s.critical
  {
    match target
    case None => HoldFullSpeed(p, s, t)
    case Some(pwm) =>
      if MidKick(s, t.now) then s.(sensorsLost := false)
      else
        var (cmd, s1) := Plan(p, s.(sensorsLost := false, kickUntil := None), pwm, t.rpm);
        Apply(s1, cmd, t)
  }

  function Update(p: Profile, s: State, t: Tick): (u: State)
    requires p.Valid() && |t.samples| == |p.sensors| == |s.feeds|
    ensures |u.feeds| == |p.sensors|
  {
    if !Looks(p, s, t) then s
    else
      var s1 := Tracked(p, s, t);
      Drive(p, s1, Target(p, s1.feeds, s1.critical, Readings(p, t)), t)
  }

  // ---------- the code ----------

  /** The fan's pwm files. The driver rejects a pwm write in automatic mode. */
  class PwmChip {
    var manual: bool
    var pwm: Pwm

    method EnsureManualMode(ok: bool)
      modifies this
      ensures pwm == old(pwm) && manual == (old(manual) || ok)
    {
      manual := manual || ok;
    }

    method WritePwm(value: Pwm, ok: bool)
      requires manual
      modifies this
      ensures manual && pwm == if ok then value else old(pwm)
    {
      if ok {
        pwm := value;
      }
    }
  }

  class FanController {
    const profile: Profile
    const chip: PwmChip
    const started: int
    var resolved: bool
    var lastPwm: Option<Pwm>
    var kickUntil: Option<int>
    var feeds: seq<Feed>
    var critical: bool
    var everRan: bool
    var stalls: nat
    var sensorsLost: bool

    ghost predicate Valid()
      reads this
    {
      profile.Valid() && |feeds| == |profile.sensors|
    }

    ghost function Value(): State
      reads this, chip
    {
      State(resolved, lastPwm, kickUntil, feeds, critical, everRan, stalls, sensorsLost, started, chip.manual, chip.pwm)
    }

    constructor (profile: Profile, chip: PwmChip, now: int)
      requires profile.Valid()
      ensures Valid() && this.profile == profile && this.chip == chip
      ensures Value() == Started(profile, now, chip.manual, chip.pwm)
    {
      this.profile, this.chip, started := profile, chip, now;
      resolved, lastPwm, kickUntil, critical := false, None, None, false;
      feeds := seq(|profile.sensors|, i => NEW_FEED);
      everRan, stalls, sensorsLost := false, 0, false;
    }

    method OnUpdate(t: Tick)
      requires Valid() && |t.samples| == |profile.sensors|
      modifies this, chip
      ensures Valid() && Value() == Update(profile, old(Value()), t)
    {
      hide Target;
      hide Drive;
      if !profile.enabled {
        return;
      }
      if !resolved {
        resolved := t.chip;
      }
      if !resolved {
        return;
      }
      var readings := LookAtSensors(t);
      DriveFan(Target(profile, feeds, critical, readings), t);
    }

    method LookAtSensors(t: Tick) returns (readings: seq<Option<real>>)
      requires Valid() && |t.samples| == |profile.sensors| && resolved
      modifies this`feeds, this`critical
      ensures readings == Readings(profile, t)
      ensures Valid() && Value() == Tracked(profile, old(Value()), t)
    {
      readings := Readings(profile, t);
      TrackSensors(t.now, readings);
      if AnyReading(readings) {
        UpdateCriticalOverride(readings);
      }
    }

    method DriveFan(target: Option<Pwm>, t: Tick)
      requires Valid()
      modifies this, chip
      ensures Valid() && Value() == Drive(profile, old(Value()), target, t)
    {
      hide Plan;
      hide Apply;
      hide HoldFullSpeed;
      match target {
        case None =>
          HoldFullSpeedWithoutSensors(t);
        case Some(pwm) =>
          sensorsLost := false;
          if kickUntil.Some? {
            if t.now < kickUntil.value {
              return;
            }
            kickUntil := None;
          }
          var cmd := PlanCommand(pwm, t.rpm);
          ApplyCommand(cmd, t);
      }
    }

    method TrackSensors(now: int, readings: seq<Option<real>>)
      requires Valid() && |readings| == |feeds|
      modifies this`feeds
      ensures Valid() && feeds == Track(old(feeds), now, readings)
    {
      for i := 0 to |feeds|
        invariant |feeds| == |readings| && feeds[i..] == old(feeds)[i..]
        invariant forall k | 0 <= k < i :: feeds[k] == FeedStep(old(feeds)[k], now, readings[k].Some?)
      {
        assert feeds[i] == old(feeds)[i];
        var f := feeds[i];
        if readings[i].Some? {
          f := f.(everRead := true, lostSince := None);
          if f.held {
            if f.backSince.None? {
              f := f.(backSince := Some(now));
            }
            if now - f.backSince.value >= RECOVERY_HOLD {
              f := f.(held := false, backSince := None);
            }
          }
        } else if f.everRead {
          f := f.(backSince := None);
          if f.lostSince.None? {
            f := f.(lostSince := Some(now));
          }
          if !f.held && now - f.lostSince.value >= LOSS_GRACE {
            f := f.(held := true);
          }
        }
        feeds := feeds[i := f];
      }
    }

    method UpdateCriticalOverride(readings: seq<Option<real>>)
      requires |readings| == |profile.sensors|
      modifies this`critical
      ensures critical == OverrideStep(old(critical), profile.sensors, readings)
    {
      if Hot(profile.sensors, readings) {
        critical := true;
      } else if critical && AllBelowWarning(profile.sensors, readings) {
        critical := false;
      }
    }

    method PlanCommand(target: Pwm, rpm: Option<real>) returns (cmd: PwmCommand)
      modifies this`stalls, this`everRan
      ensures (cmd, Value()) == Plan(profile, old(Value()), target, rpm)
    {
      if target == 0 {
        stalls := 0;
        return Set(0);
      }
      var commanded: Pwm := if lastPwm.Some? then lastPwm.value else 0;
      if commanded > 0 && rpm.Some? && rpm.value <= 0.0 {
        stalls := stalls + 1;
        return Kick(profile.minStartPwm);
      }
      if commanded == 0 {
        return Kick(profile.minStartPwm);
      }
      stalls := 0;
      everRan := true;
      cmd := Set(target);
    }

    method ApplyCommand(cmd: PwmCommand, t: Tick)
      requires Valid()
      modifies this, chip
      ensures Valid() && Value() == Apply(old(Value()), cmd, t)
    {
      var ok := WriteBoth(cmd.pwm, t);
      if ok && cmd.Kick? {
        kickUntil := Some(t.now + KICK);
      }
    }

    method HoldFullSpeedWithoutSensors(t: Tick)
      requires Valid()
      modifies this, chip
      ensures Valid() && Value() == HoldFullSpeed(profile, old(Value()), t)
    {
      if lastPwm.None? && t.now - started < TAKEOVER_AFTER {
        return;
      }
      sensorsLost := true;
      kickUntil := None;
      var ok := WriteBoth(profile.maxPwm, t);
    }

    method WriteBoth(value: Pwm, t: Tick) returns (ok: bool)
      requires Valid()
      modifies this, chip
      ensures Valid() && Value() == Write(old(Value()), value, t) && ok == t.WritesWork()
    {
      chip.EnsureManualMode(t.enableOk);
      if !t.enableOk {
        resolved := false;
        return false;
      }
      chip.WritePwm(value, t.writeOk);
      if !t.writeOk {
        resolved := false;
        return false;
      }
      lastPwm := Some(value);
      ok := true;
    }
  }

  function Started(p: Profile, now: int, manual: bool, pwm: Pwm): State {
    State(false, None, None, seq(|p.sensors|, i => NEW_FEED), false, false, 0, false, now, manual, pwm)
  }
}
