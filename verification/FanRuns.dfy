/** The fan controller over whole runs of updates. */
module FanRuns {
  import opened Wrappers
  import HoldLatch
  import opened FanCurve
  import opened FanSensors
  import opened Fan

  predicate Fits(p: Profile, run: seq<Tick>) {
    p.Valid() && forall i | 0 <= i < |run| :: |run[i].samples| == |p.sensors|
  }

  function After(p: Profile, start: State, run: seq<Tick>): (s: State)
    requires Fits(p, run) && |start.feeds| == |p.sensors|
    ensures |s.feeds| == |p.sensors|
  {
    if run == [] then start
    else
      hide Update;
      Update(p, After(p, start, run[..|run| - 1]), run[|run| - 1])
  }

  /** The ticks of a run that found the chip, and so looked at the sensors. */
  function Looked(p: Profile, start: State, run: seq<Tick>): (seen: seq<Tick>)
    requires Fits(p, run) && |start.feeds| == |p.sensors|
    ensures Fits(p, seen) && forall t | t in seen :: t in run
  {
    if run == [] then []
    else
      var init, t := run[..|run| - 1], run[|run| - 1];
      if Looks(p, After(p, start, init), t) then Looked(p, start, init) + [t] else Looked(p, start, init)
  }

  function FeedTrace(p: Profile, seen: seq<Tick>, i: nat): (trace: seq<Seen>)
    requires Fits(p, seen) && i < |p.sensors|
    ensures |trace| == |seen|
    ensures forall k | 0 <= k < |seen| :: trace[k] == Seen(seen[k].now, Readings(p, seen[k])[i].Some?)
  {
    seq(|seen|, k requires 0 <= k < |seen| => Seen(seen[k].now, Readings(p, seen[k])[i].Some?))
  }

  function OverrideTrace(p: Profile, seen: seq<Tick>): (trace: seq<HoldLatch.Obs>)
    requires Fits(p, seen)
    ensures |trace| == |seen|
    ensures forall k | 0 <= k < |seen| :: trace[k] == OverrideObs(seen[k].now, p.sensors, Readings(p, seen[k]))
  {
    seq(|seen|, k requires 0 <= k < |seen| => OverrideObs(seen[k].now, p.sensors, Readings(p, seen[k])))
  }

  function New(p: Profile, now: int, manual: bool, pwm: Pwm): State {
    Fan.Started(p, now, manual, pwm)
  }

  // ---------- what the state remembers ----------

  lemma UpdateTracks(p: Profile, s: State, t: Tick)
    requires p.Valid() && |t.samples| == |p.sensors| == |s.feeds|
    ensures var u := Update(p, s, t);
            if Looks(p, s, t) then u.feeds == Tracked(p, s, t).feeds && u.critical == Tracked(p, s, t).critical
            else u.feeds == s.feeds && u.critical == s.critical
  {
    hide Target;
  }

  lemma {:induction false} StateFollowsTraces(p: Profile, now: int, manual: bool, pwm: Pwm, run: seq<Tick>)
    requires Fits(p, run)
    ensures var s := After(p, New(p, now, manual, pwm), run);
            var seen := Looked(p, New(p, now, manual, pwm), run);
            && (forall i | 0 <= i < |p.sensors| :: s.feeds[i] == FeedRun(FeedTrace(p, seen, i)))
            && HoldLatch.Run(0, OverrideTrace(p, seen)) == HoldLatch.Latch(s.critical, None)
  {
    hide Update;
    hide Looks;
    hide FeedStep;
    hide HoldLatch.Step;
    hide OverrideObs;
    hide OverrideStep;
    hide AnyReading;
    var start := New(p, now, manual, pwm);
    if run == [] {
      assert OverrideTrace(p, []) == [];
      forall i | 0 <= i < |p.sensors| ensures FeedTrace(p, [], i) == [] {
      }
    } else {
      var init, t := run[..|run| - 1], run[|run| - 1];
      StateFollowsTraces(p, now, manual, pwm, init);
      var s, seen := After(p, start, init), Looked(p, start, init);
      UpdateTracks(p, s, t);
      if Looks(p, s, t) {
        assert OverrideTrace(p, seen + [t])[..|seen|] == OverrideTrace(p, seen);
        OverrideIsLatch(s.critical, t.now, p.sensors, Readings(p, t));
        forall i | 0 <= i < |p.sensors| ensures FeedTrace(p, seen + [t], i)[..|seen|] == FeedTrace(p, seen, i) {
        }
      }
    }
  }

  predicate Ordered(run: seq<Tick>) {
    forall i, j | 0 <= i <= j < |run| :: run[i].now <= run[j].now
  }

  /** A sensor was at critical or over range and no later look found everything below warning. */
  ghost predicate Overheated(p: Profile, seen: seq<Tick>)
    requires Fits(p, seen)
  {
    HoldLatch.Holding(0, OverrideTrace(p, seen))
  }

  /** A sensor that used to read went silent past the grace and has not read steadily since. */
  ghost predicate Blind(p: Profile, seen: seq<Tick>)
    requires Fits(p, seen)
  {
    exists i | 0 <= i < |p.sensors| :: HoldLatch.Holding(30_000, Trips(FeedTrace(p, seen, i)))
  }

  /** The override and the holds, after any run, in terms of what the sensors did. */
  lemma FlagsMeanWhatTheySay(p: Profile, now: int, manual: bool, pwm: Pwm, run: seq<Tick>)
    requires Fits(p, run) && Ordered(Looked(p, New(p, now, manual, pwm), run))
    ensures var s := After(p, New(p, now, manual, pwm), run);
            var seen := Looked(p, New(p, now, manual, pwm), run);
            && (s.critical <==> Overheated(p, seen))
            && (AnyHeld(s.feeds) <==> Blind(p, seen))
  {
    hide After;
    hide Looked;
    hide FeedRun;
    hide FeedTrace;
    hide OverrideTrace;
    hide Overheated;
    hide Blind;
    hide HoldLatch.Holding;
    hide HoldLatch.Run;
    hide Ordered;
    var s, seen := After(p, New(p, now, manual, pwm), run), Looked(p, New(p, now, manual, pwm), run);
    StateFollowsTraces(p, now, manual, pwm, run);
    LatchIsOverheated(p, seen);
    HeldIsBlind(p, seen, s.feeds);
  }

  lemma HeldIsBlind(p: Profile, seen: seq<Tick>, feeds: seq<Feed>)
    requires Fits(p, seen) && Ordered(seen) && |feeds| == |p.sensors|
    requires forall i | 0 <= i < |p.sensors| :: feeds[i] == FeedRun(FeedTrace(p, seen, i))
    ensures AnyHeld(feeds) <==> Blind(p, seen)
  {
    hide FeedRun;
    hide HoldLatch.Holding;
    forall i | 0 <= i < |p.sensors|
      ensures feeds[i].held <==> HoldLatch.Holding(RECOVERY_HOLD, Trips(FeedTrace(p, seen, i)))
    {
      HeldIff(FeedTrace(p, seen, i));
    }
  }

  lemma LatchIsOverheated(p: Profile, seen: seq<Tick>)
    requires Fits(p, seen) && Ordered(seen)
    ensures HoldLatch.Run(0, OverrideTrace(p, seen)).on <==> Overheated(p, seen)
  {
    OverrideExclusive(p, seen);
    HoldLatch.OnIffHolding(0, OverrideTrace(p, seen));
  }

  lemma OverrideExclusive(p: Profile, seen: seq<Tick>)
    requires Fits(p, seen) && Ordered(seen)
    ensures HoldLatch.Exclusive(OverrideTrace(p, seen)) && HoldLatch.Ordered(OverrideTrace(p, seen))
  {
  }

  // ---------- what is written ----------

  /** The speed an update wants: without any reading full speed, unless the fan was never taken over and it is early. */
  function Wanted(p: Profile, s: State, t: Tick): Option<Pwm>
    requires p.Valid() && |t.samples| == |p.sensors| == |s.feeds|
  {
    var s1 := Tracked(p, s, t);
    if !AnyReading(Readings(p, t)) then
      (if s.lastPwm.None? && t.now - s.started < TAKEOVER_AFTER then None else Some(p.maxPwm))
    else Target(p, s1.feeds, s1.critical, Readings(p, t))
  }

  /** The readings of an update: of each sensor the latest value, unless it is missing or too old. */
  lemma ReadsIff(p: Profile, t: Tick, i: nat, c: real)
    requires |t.samples| == |p.sensors| && i < |p.sensors|
    ensures Readings(p, t)[i] == Some(c)
            <==> t.samples[i].value == Some(c) && t.samples[i].at != None
                 && t.now <= t.samples[i].at.value + p.sensors[i].maxAge
  {
    CurrentIff(t.samples[i], p.sensors[i].maxAge, t.now, c);
  }

  /**
   With a reading, no override and no hold: in curve mode what some sensor asks
   for, and no sensor asks for more; in fixed mode the fixed speed.
   */
  lemma WantedIsCurve(p: Profile, s: State, t: Tick) returns (i: int)
    requires p.Valid() && |t.samples| == |p.sensors| == |s.feeds| && AnyReading(Readings(p, t))
    requires !AnyHeld(Tracked(p, s, t).feeds) && !Tracked(p, s, t).critical
    ensures p.mode == Fixed ==> Wanted(p, s, t) == p.fixedPwm
    ensures p.mode == Curve ==>
              && Wanted(p, s, t).Some? && AsksFor(p, Readings(p, t), i, Wanted(p, s, t).value)
              && forall j, pwm: Pwm | AsksFor(p, Readings(p, t), j, pwm) :: pwm <= Wanted(p, s, t).value
  {
    hide ComputePwm;
    i := DemandIsMost(p, Readings(p, t), |p.sensors|);
  }

  /** In curve mode a reading at or above its sensor's maximum wants full speed. */
  lemma MaximumWantsFullSpeed(p: Profile, s: State, t: Tick, i: nat)
    requires p.Valid() && |t.samples| == |p.sensors| == |s.feeds| && p.mode == Curve && i < |p.sensors|
    requires Readings(p, t)[i].Some?
    requires Readings(p, t)[i].value >= if p.sensors[i].maxTemp == None then p.maxTemp else p.sensors[i].maxTemp.value
    ensures Wanted(p, s, t) == Some(p.maxPwm)
  {
    hide ComputePwm;
    DemandBounds(p, Readings(p, t), |p.sensors|);
  }

  /** The same sensors read at the same time, none cooler than before. */
  predicate NoCooler(p: Profile, cooler: Tick, hotter: Tick)
    requires |cooler.samples| == |hotter.samples| == |p.sensors|
  {
    && cooler.now == hotter.now
    && forall i | 0 <= i < |p.sensors| ::
         var a, b := Readings(p, cooler)[i], Readings(p, hotter)[i];
         a.Some? == b.Some? && (a.Some? ==> a.value <= b.value)
  }

  /** A hotter reading never lowers the speed an update wants, override and holds included. */
  lemma HotterWantsNoLess(p: Profile, s: State, cooler: Tick, hotter: Tick)
    requires p.Valid() && p.minPwm <= p.minStopPwm
    requires |cooler.samples| == |hotter.samples| == |p.sensors| == |s.feeds|
    requires NoCooler(p, cooler, hotter)
    ensures Wanted(p, s, cooler).Some? == Wanted(p, s, hotter).Some?
    ensures Wanted(p, s, cooler).Some? ==> Wanted(p, s, cooler).value <= Wanted(p, s, hotter).value
  {
    hide ComputePwm;
    hide FeedStep;
    var a, b := Readings(p, cooler), Readings(p, hotter);
    HotterStaysCritical(p, s.critical, a, b);
    assert Tracked(p, s, cooler).feeds == Tracked(p, s, hotter).feeds;
    DemandMonotone(p, a, b, |p.sensors|);
    DemandBounds(p, a, |p.sensors|);
  }

  lemma HotterStaysCritical(p: Profile, on: bool, a: seq<Option<real>>, b: seq<Option<real>>)
    requires |a| == |b| == |p.sensors|
    requires forall i | 0 <= i < |a| :: a[i].Some? == b[i].Some? && (a[i].Some? ==> a[i].value <= b[i].value)
    ensures AnyReading(a) == AnyReading(b)
    ensures OverrideStep(on, p.sensors, a) ==> OverrideStep(on, p.sensors, b)
  {
    if i :| 0 <= i < |a| && a[i].Some? && (a[i].value >= p.sensors[i].critical || OverRange(a[i].value)) {
      assert b[i].Some? && (b[i].value >= p.sensors[i].critical || OverRange(b[i].value));
    }
    if i :| 0 <= i < |a| && a[i].Some? && (a[i].value >= p.sensors[i].warn || OverRange(a[i].value)) {
      assert b[i].Some? && (b[i].value >= p.sensors[i].warn || OverRange(b[i].value));
    }
  }

  predicate TachZero(t: Tick) {
    t.rpm.Some? && t.rpm.value <= 0.0
  }

  /** The pwm file holds the last write, and a running kick is the last write. */
  predicate FileAgrees(p: Profile, s: State) {
    && (s.lastPwm.Some? ==> s.manual && s.pwm == s.lastPwm.value)
    && (s.kickUntil.Some? ==> s.lastPwm == Some(p.minStartPwm))
  }

  lemma WriteEffect(s: State, value: Pwm, t: Tick)
    ensures var u := Write(s, value, t);
            && u.kickUntil == s.kickUntil
            && if t.WritesWork() then u.manual && u.pwm == value && u.lastPwm == Some(value)
               else u.pwm == s.pwm && u.lastPwm == s.lastPwm && (s.manual ==> u.manual)
  {
  }

  lemma DriveKeepsFile(p: Profile, s: State, target: Option<Pwm>, t: Tick)
    requires FileAgrees(p, s)
    ensures var u := Drive(p, s, target, t);
            && FileAgrees(p, u)
            && (u.lastPwm.None? ==> s.lastPwm.None? && u.pwm == s.pwm)
            && (u.kickUntil.Some? ==>
                  u.kickUntil == s.kickUntil
                  || (u.kickUntil == Some(t.now + KICK) && t.WritesWork() && !MidKick(s, t.now)))
  {
    hide Write;
    match target {
      case None =>
        WriteEffect(s.(sensorsLost := true, kickUntil := None), p.maxPwm, t);
      case Some(pwm) =>
        if !MidKick(s, t.now) {
          var (cmd, s1) := Plan(p, s.(sensorsLost := false, kickUntil := None), pwm, t.rpm);
          assert cmd.Kick? ==> cmd.pwm == p.minStartPwm;
          WriteEffect(s1, cmd.pwm, t);
        }
    }
  }

  /** An update that works, with no kick running before it. */
  predicate MayKick(p: Profile, s: State, t: Tick) {
    Looks(p, s, t) && t.WritesWork() && !MidKick(s, t.now)
  }

  /** What every update keeps about the pwm file and a running kick. */
  lemma UpdateKeepsFile(p: Profile, s: State, t: Tick)
    requires p.Valid() && |t.samples| == |p.sensors| == |s.feeds| && FileAgrees(p, s)
    ensures var u := Update(p, s, t);
            && FileAgrees(p, u)
            && (u.lastPwm.None? ==> s.lastPwm.None? && u.pwm == s.pwm)
            && (u.kickUntil.Some? ==>
                  u.kickUntil == s.kickUntil || (u.kickUntil == Some(t.now + KICK) && MayKick(p, s, t)))
  {
    hide Target;
    hide Track;
    hide OverrideStep;
    hide Drive;
    if Looks(p, s, t) {
      var s1 := Tracked(p, s, t);
      DriveKeepsFile(p, s1, Target(p, s1.feeds, s1.critical, Readings(p, t)), t);
    }
  }

  /**
   Update `i` of the run wrote a kick, with none running before it, and after
   every update since it was still to end a second after update `i`.
   */
  predicate KickedAt(p: Profile, start: State, run: seq<Tick>, i: nat)
    requires Fits(p, run) && |start.feeds| == |p.sensors| && i < |run|
    decreases |run|
  {
    && After(p, start, run).kickUntil == Some(run[i].now + 1_000)
    && if i == |run| - 1 then MayKick(p, After(p, start, run[..i]), run[i])
       else KickedAt(p, start, run[..|run| - 1], i)
  }

  /**
   The pwm file holds what the controller last wrote, over any run with any
   failures; and a kick ends one second after the update that began it, however
   many updates there are in between.
   */
  lemma {:induction false} FileHoldsLastWrite(p: Profile, now: int, manual: bool, pwm: Pwm, run: seq<Tick>)
    requires Fits(p, run)
    ensures var start := New(p, now, manual, pwm);
            var s := After(p, start, run);
            && (s.lastPwm.Some? ==> s.manual && s.pwm == s.lastPwm.value)
            && (s.lastPwm.None? ==> s.pwm == pwm)
            && (s.kickUntil.Some? ==>
                  s.lastPwm == Some(p.minStartPwm) && exists i | 0 <= i < |run| :: KickedAt(p, start, run, i))
  {
    hide Update;
    hide MayKick;
    if run != [] {
      var n := |run| - 1;
      var start, init := New(p, now, manual, pwm), run[..n];
      FileHoldsLastWrite(p, now, manual, pwm, init);
      var s, u := After(p, start, init), After(p, start, run);
      UpdateKeepsFile(p, s, run[n]);
      if u.kickUntil.Some? && u.kickUntil == s.kickUntil {
        var i :| 0 <= i < n && KickedAt(p, start, init, i);
        assert KickedAt(p, start, run, i);
      } else if u.kickUntil.Some? {
        assert KickedAt(p, start, run, n);
      }
    }
  }

  /** Nothing reads, and the fan has been taken over or it is too late to wait for a reading. */
  predicate NoneLeft(p: Profile, s: State, t: Tick)
    requires |t.samples| == |p.sensors|
  {
    !AnyReading(Readings(p, t)) && (s.lastPwm.Some? || t.now - s.started >= 30_000)
  }

  /** With every sensor gone a successful update sets full speed at once: stopped, mid-kick or stalled. */
  lemma NoneLeftIsFullSpeed(p: Profile, s: State, t: Tick)
    requires p.Valid() && |t.samples| == |p.sensors| == |s.feeds|
    requires Looks(p, s, t) && t.WritesWork() && NoneLeft(p, s, t)
    ensures Wanted(p, s, t) == Some(p.maxPwm)
    ensures var u := Update(p, s, t);
            u.lastPwm == Some(p.maxPwm) && u.manual && u.pwm == p.maxPwm && u.kickUntil.None?
  {
    hide Track;
    hide OverrideStep;
    hide AnyReading;
  }

  /** After a write that failed the chip is looked up again at the next update. */
  lemma FailedWriteLooksAgain(p: Profile, s: State, t: Tick)
    requires p.Valid() && |t.samples| == |p.sensors| == |s.feeds|
    requires Looks(p, s, t) && !t.WritesWork() && Wanted(p, s, t).Some?
    requires AnyReading(Readings(p, t)) ==> !MidKick(s, t.now)
    ensures var u := Update(p, s, t);
            !u.resolved && u.pwm == s.pwm && u.lastPwm == s.lastPwm && u.kickUntil == None
  {
    hide Target;
    hide Track;
    hide OverrideStep;
    hide AnyReading;
  }

  /** For the first half minute a fan never taken over is left as it is while no sensor reads. */
  lemma LeftAloneAtFirst(p: Profile, s: State, t: Tick)
    requires p.Valid() && |t.samples| == |p.sensors| == |s.feeds|
    requires !AnyReading(Readings(p, t)) && s.lastPwm == None && t.now - s.started < 30_000
    ensures Wanted(p, s, t) == None
    ensures var u := Update(p, s, t);
            u.pwm == s.pwm && u.manual == s.manual && u.lastPwm == None && u.kickUntil == s.kickUntil
  {
    hide Track;
    hide OverrideStep;
    hide AnyReading;
  }

  /** Nothing delays a set: no kick is running, and the fan is commanded to spin and seen to. */
  predicate Spinning(s: State, t: Tick) {
    !MidKick(s, t.now) && s.lastPwm.Some? && s.lastPwm.value > 0 && !TachZero(t)
  }

  /** What a successful update leaves in the pwm file: all there is to kicks, stops and stalls. */
  lemma UpdateWrites(p: Profile, s: State, t: Tick)
    requires p.Valid() && |t.samples| == |p.sensors| == |s.feeds| && FileAgrees(p, s)
    requires Looks(p, s, t) && t.WritesWork() && Wanted(p, s, t).Some?
    ensures var u, wanted := Update(p, s, t), Wanted(p, s, t).value;
            && u.manual && u.lastPwm == Some(u.pwm)
            && u.pwm == (if !AnyReading(Readings(p, t)) then p.maxPwm
                         else if MidKick(s, t.now) then p.minStartPwm
                         else if wanted == 0 || Spinning(s, t) then wanted
                         else p.minStartPwm)
  {
    hide Target;
    hide Track;
    hide OverrideStep;
    hide AnyReading;
  }

  /**
   The override pegs the fan at the speed wanted, full speed, exactly while the
   fan is seen to spin: one whose tach reads zero is kicked with `minStartPwm`
   instead, whatever is wanted.
   */
  lemma WritesWantedIffSpinning(p: Profile, s: State, t: Tick)
    requires p.Valid() && |t.samples| == |p.sensors| == |s.feeds| && FileAgrees(p, s)
    requires Looks(p, s, t) && t.WritesWork() && AnyReading(Readings(p, t))
    requires Wanted(p, s, t).value > 0 && Wanted(p, s, t).value != p.minStartPwm
    ensures Update(p, s, t).pwm == Wanted(p, s, t).value <==> Spinning(s, t)
  {
    hide Update;
    hide Target;
    hide Track;
    hide OverrideStep;
    hide AnyReading;
    UpdateWrites(p, s, t);
  }

  /** Every update of a run finds readings and a zero tach, and wants the fan to spin. */
  predicate Stalled(p: Profile, s: State, run: seq<Tick>)
    requires Fits(p, run) && |s.feeds| == |p.sensors|
  {
    forall k | 0 <= k < |run| ::
      && AnyReading(Readings(p, run[k])) && TachZero(run[k])
      && Wanted(p, After(p, s, run[..k]), run[k]).value > 0
  }

  /**
   A fan whose tach reads zero is held at `minStartPwm` for ever, from the first
   successful update on, however hot it gets; until then the file is left alone.
   */
  lemma {:induction false} StalledHeldAtStart(p: Profile, s: State, run: seq<Tick>)
    requires Fits(p, run) && |s.feeds| == |p.sensors| && Stalled(p, s, run)
    requires FileAgrees(p, s) && s.lastPwm.Some? && s.lastPwm.value > 0 && p.minStartPwm > 0
    ensures var u := After(p, s, run);
            && FileAgrees(p, u) && u.lastPwm.Some? && u.lastPwm.value > 0
            && u.pwm == if SomeWorks(p, s, run) then p.minStartPwm else s.pwm
  {
    hide Update;
    hide Wanted;
    hide AnyReading;
    hide Looks;
    hide Stalled;
    hide Works;
    if run != [] {
      var init, t := run[..|run| - 1], run[|run| - 1];
      StalledBefore(p, s, run);
      StalledHeldAtStart(p, s, init);
      StalledUpdate(p, After(p, s, init), t);
      SomeWorksOrLast(p, s, run);
    }
  }

  lemma StalledBefore(p: Profile, s: State, run: seq<Tick>)
    requires run != [] && Fits(p, run) && |s.feeds| == |p.sensors| && Stalled(p, s, run)
    ensures Stalled(p, s, run[..|run| - 1])
    ensures var u, t := After(p, s, run[..|run| - 1]), run[|run| - 1];
            AnyReading(Readings(p, t)) && TachZero(t) && Wanted(p, u, t).value > 0
  {
    hide After;
    hide Wanted;
    hide AnyReading;
    hide TachZero;
    var init := run[..|run| - 1];
    forall k | 0 <= k < |init| ensures init[k] == run[k] && init[..k] == run[..k] {
    }
  }

  lemma SomeWorksOrLast(p: Profile, s: State, run: seq<Tick>)
    requires run != [] && Fits(p, run) && |s.feeds| == |p.sensors|
    ensures var init, t := run[..|run| - 1], run[|run| - 1];
            SomeWorks(p, s, run) <==>
              SomeWorks(p, s, init) || (Looks(p, After(p, s, init), t) && t.WritesWork())
  {
    hide After;
    hide Looks;
    var n := |run| - 1;
    var init := run[..n];
    forall k | 0 <= k < n ensures Works(p, s, init, k) <==> Works(p, s, run, k) {
      assert init[k] == run[k] && init[..k] == run[..k];
    }
    if k :| 0 <= k < n && Works(p, s, init, k) {
      assert Works(p, s, run, k);
    }
    assert Works(p, s, run, n) <==> Looks(p, After(p, s, init), run[n]) && run[n].WritesWork();
  }

  /** Some update of the run found the chip and could write. */
  predicate SomeWorks(p: Profile, s: State, run: seq<Tick>)
    requires Fits(p, run) && |s.feeds| == |p.sensors|
  {
    exists k | 0 <= k < |run| :: Works(p, s, run, k)
  }

  predicate Works(p: Profile, s: State, run: seq<Tick>, k: nat)
    requires Fits(p, run) && |s.feeds| == |p.sensors| && k < |run|
  {
    Looks(p, After(p, s, run[..k]), run[k]) && run[k].WritesWork()
  }

  lemma StalledUpdate(p: Profile, s: State, t: Tick)
    requires p.Valid() && |t.samples| == |p.sensors| == |s.feeds| && FileAgrees(p, s)
    requires s.lastPwm.Some? && s.lastPwm.value > 0 && p.minStartPwm > 0
    requires AnyReading(Readings(p, t)) && TachZero(t) && Wanted(p, s, t).value > 0
    ensures var u := Update(p, s, t);
            && FileAgrees(p, u) && u.lastPwm.Some? && u.lastPwm.value > 0
            && u.pwm == if Looks(p, s, t) && t.WritesWork() then p.minStartPwm else s.pwm
  {
    UpdateKeepsFile(p, s, t);
    if Looks(p, s, t) && t.WritesWork() {
      hide Update;
      hide Wanted;
      UpdateWrites(p, s, t);
    } else {
      hide Target;
      hide Track;
      hide OverrideStep;
      hide AnyReading;
    }
  }

  /**
   A stopped fan that is wanted at two successful updates a kick apart ends at
   the wanted speed exactly when `minStartPwm` is positive and the tach does
   not read zero (or the wanted speed is that of a kick).
   */
  lemma StoppedFanStartsIff(p: Profile, s: State, t1: Tick, t2: Tick)
    requires p.Valid() && |t1.samples| == |t2.samples| == |p.sensors| == |s.feeds|
    requires s.kickUntil.None? && Stopped(s) && FileAgrees(p, s)
    requires Looks(p, s, t1) && t1.WritesWork() && AnyReading(Readings(p, t1)) && Wanted(p, s, t1).value > 0
    requires t2.now >= t1.now + KICK && t2.WritesWork() && AnyReading(Readings(p, t2))
    requires Wanted(p, Update(p, s, t1), t2).value > 0
    ensures var u := Update(p, s, t1);
            var v, wanted := Update(p, u, t2), Wanted(p, u, t2).value;
            && u.kickUntil == Some(t1.now + KICK) && u.pwm == p.minStartPwm
            && (v.pwm == wanted <==> p.minStartPwm > 0 && (!TachZero(t2) || wanted == p.minStartPwm))
  {
    FirstKick(p, s, t1);
    hide Update;
    hide Wanted;
    hide AnyReading;
    UpdateKeepsFile(p, s, t1);
    UpdateWrites(p, Update(p, s, t1), t2);
  }

  /** Never commanded to spin so far. */
  predicate Stopped(s: State) {
    s.lastPwm.None? || s.lastPwm == Some(0)
  }

  /**
   With `minStartPwm` zero a stopped fan stays so for ever, over any run with
   readings, however hot they are and whatever is wanted: the critical override
   and the lost-sensor hold have no effect on it.
   */
  lemma {:induction false} KickedWithZeroForEver(p: Profile, s: State, run: seq<Tick>)
    requires Fits(p, run) && |s.feeds| == |p.sensors| && p.minStartPwm == 0 && Stopped(s)
    requires forall t | t in run :: AnyReading(Readings(p, t))
    ensures var u := After(p, s, run);
            Stopped(u) && (u.pwm == 0 || u.pwm == s.pwm)
  {
    hide Update;
    if run != [] {
      var init, t := run[..|run| - 1], run[|run| - 1];
      assert forall u | u in init :: u in run;
      assert t in run;
      KickedWithZeroForEver(p, s, init);
      KickedWithZero(p, After(p, s, init), t);
    }
  }

  lemma KickedWithZero(p: Profile, s: State, t: Tick)
    requires p.Valid() && |t.samples| == |p.sensors| == |s.feeds| && p.minStartPwm == 0 && Stopped(s)
    requires AnyReading(Readings(p, t))
    ensures var u := Update(p, s, t);
            Stopped(u) && (u.pwm == 0 || u.pwm == s.pwm)
  {
    hide Target;
    hide Track;
    hide OverrideStep;
    hide AnyReading;
  }

  lemma FirstKick(p: Profile, s: State, t: Tick)
    requires p.Valid() && |t.samples| == |p.sensors| == |s.feeds|
    requires s.kickUntil.None? && (s.lastPwm.None? || s.lastPwm.value == 0)
    requires Looks(p, s, t) && t.WritesWork() && AnyReading(Readings(p, t)) && Wanted(p, s, t).value > 0
    ensures var u := Update(p, s, t);
            && u.resolved && u.lastPwm == Some(p.minStartPwm) && u.pwm == p.minStartPwm
            && u.kickUntil == Some(t.now + KICK)
  {
    hide Target;
    hide Track;
    hide OverrideStep;
    hide AnyReading;
  }

  // ---------- safety over whole runs ----------

  ghost predicate Unsafe(p: Profile, seen: seq<Tick>)
    requires Fits(p, seen)
  {
    Overheated(p, seen) || Blind(p, seen)
  }

  /** Update `k` of a run works and finds the fan too hot or blind to a sensor, or without any reading. */
  ghost predicate UnsafeUpdate(p: Profile, start: State, run: seq<Tick>, k: nat)
    requires Fits(p, run) && |start.feeds| == |p.sensors| && k < |run|
  {
    var s := After(p, start, run[..k]);
    && Looks(p, s, run[k]) && run[k].WritesWork()
    && if AnyReading(Readings(p, run[k])) then Unsafe(p, Looked(p, start, run[..k + 1])) else NoneLeft(p, s, run[k])
  }

  /** Too hot, blind to a sensor, or without any: whatever the mode, full speed is wanted. */
  lemma UnsafeWantsFullSpeed(p: Profile, now: int, manual: bool, pwm: Pwm, run: seq<Tick>)
    requires run != [] && Fits(p, run) && Ordered(Looked(p, New(p, now, manual, pwm), run))
    requires UnsafeUpdate(p, New(p, now, manual, pwm), run, |run| - 1)
    ensures Wanted(p, After(p, New(p, now, manual, pwm), run[..|run| - 1]), run[|run| - 1]) == Some(p.maxPwm)
  {
    hide AnyReading;
    hide Track;
    hide OverrideStep;
    hide Overheated;
    hide Blind;
    hide Drive;
    var s, t := After(p, New(p, now, manual, pwm), run[..|run| - 1]), run[|run| - 1];
    assert run[..|run|] == run;
    if AnyReading(Readings(p, t)) {
      FlagsMeanWhatTheySay(p, now, manual, pwm, run);
      UpdateTracks(p, s, t);
    }
  }

  lemma UnsafeUpdateWants(p: Profile, now: int, manual: bool, pwm: Pwm, run: seq<Tick>, k: nat)
    requires Fits(p, run) && Ordered(run) && k < |run|
    requires UnsafeUpdate(p, New(p, now, manual, pwm), run, k)
    ensures Wanted(p, After(p, New(p, now, manual, pwm), run[..k]), run[k]) == Some(p.maxPwm)
  {
    hide AnyReading;
    hide Looks;
    hide Wanted;
    hide Update;
    hide Overheated;
    hide Blind;
    hide NoneLeft;
    var part := run[..k + 1];
    assert part[..k] == run[..k] && part[..k + 1] == part;
    LookedOrdered(p, New(p, now, manual, pwm), part);
    UnsafeWantsFullSpeed(p, now, manual, pwm, part);
  }

  /**
   Over any run, whatever failed before: once two updates a kick or more apart
   both work and both find the fan too hot, blind to a sensor or without any
   reading, the fan's pwm file holds `maxPwm` if and only if the tach does not
   read zero (else it holds the speed of a kick). Without readings the second
   update is enough, whatever the tach.
   */
  lemma UnsafeTwiceIsFullSpeed(p: Profile, now: int, manual: bool, pwm: Pwm, run: seq<Tick>)
    requires run != [] && Fits(p, run) && Ordered(run)
    requires UnsafeUpdate(p, New(p, now, manual, pwm), run, |run| - 1)
    requires AnyReading(Readings(p, run[|run| - 1])) ==>
               && |run| >= 2 && p.minStartPwm > 0 && p.maxPwm > 0
               && run[|run| - 1].now >= run[|run| - 2].now + KICK
               && UnsafeUpdate(p, New(p, now, manual, pwm), run, |run| - 2)
    ensures var s, t := After(p, New(p, now, manual, pwm), run), run[|run| - 1];
            && s.manual && s.lastPwm == Some(s.pwm)
            && s.pwm == if AnyReading(Readings(p, t)) && TachZero(t) then p.minStartPwm else p.maxPwm
  {
    hide AnyReading;
    hide Looks;
    hide Unsafe;
    hide Wanted;
    hide NoneLeft;
    hide KickedAt;
    hide Update;
    var n := |run| - 1;
    var start := New(p, now, manual, pwm);
    UnsafeUpdateWants(p, now, manual, pwm, run, n);
    FileHoldsLastWrite(p, now, manual, pwm, run[..n]);
    if AnyReading(Readings(p, run[n])) {
      UnsafeUpdateWants(p, now, manual, pwm, run, n - 1);
      FileHoldsLastWrite(p, now, manual, pwm, run[..n - 1]);
      KickIsOver(p, now, manual, pwm, run);
      WantedFanSpins(p, After(p, start, run[..n - 1]), run[n - 1]);
      assert run[..n][..n - 1] == run[..n - 1];
    }
    UpdateWrites(p, After(p, start, run[..n]), run[n]);
  }

  /** A second after the update before, no kick can still be running. */
  lemma KickIsOver(p: Profile, now: int, manual: bool, pwm: Pwm, run: seq<Tick>)
    requires |run| >= 2 && Fits(p, run) && Ordered(run) && run[|run| - 1].now >= run[|run| - 2].now + KICK
    ensures !MidKick(After(p, New(p, now, manual, pwm), run[..|run| - 1]), run[|run| - 1].now)
  {
    hide Update;
    hide MayKick;
    var n := |run| - 1;
    var start, init := New(p, now, manual, pwm), run[..n];
    FileHoldsLastWrite(p, now, manual, pwm, init);
    if After(p, start, init).kickUntil.Some? {
      var i :| 0 <= i < n && KickedAt(p, start, init, i);
      assert init[i] == run[i] && run[i].now <= run[n - 1].now;
    }
  }

  /** A fan wanted at a successful update is commanded to spin afterwards, kicked or not. */
  lemma WantedFanSpins(p: Profile, s: State, t: Tick)
    requires p.Valid() && |t.samples| == |p.sensors| == |s.feeds| && p.minStartPwm > 0
    requires s.kickUntil.Some? ==> s.lastPwm == Some(p.minStartPwm)
    requires Looks(p, s, t) && t.WritesWork() && Wanted(p, s, t).Some? && Wanted(p, s, t).value > 0
    ensures Update(p, s, t).lastPwm.Some? && Update(p, s, t).lastPwm.value > 0
  {
    hide Target;
    hide Track;
    hide OverrideStep;
    hide AnyReading;
  }

  lemma {:induction false} LookedOrdered(p: Profile, start: State, run: seq<Tick>)
    requires Fits(p, run) && Ordered(run) && |start.feeds| == |p.sensors|
    ensures Ordered(Looked(p, start, run))
    ensures forall k | 0 <= k < |Looked(p, start, run)| :: Looked(p, start, run)[k].now <= run[|run| - 1].now
  {
    hide Looks;
    hide Update;
    if run != [] {
      LookedOrdered(p, start, run[..|run| - 1]);
    }
  }
}
