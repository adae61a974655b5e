/** What the scheduler does over whole runs: any sequence of clock readings. */
module PowerRuns {
  import opened Wrappers
  import opened Calendar
  import opened LocalZone
  import opened PowerRules
  import opened PowerScheduler

  /** A wake alarm that has come due is spent: the file reads empty again. */
  function Spend(s: State, now: int): State {
    if s.alarm.Some? && s.alarm.value <= now then s.(alarm := None) else s
  }

  function Started(alarm: Option<int>): State {
    State(None, None, NEVER_CHECKED, alarm, [])
  }

  /** The state after polling at each reading of `run` in turn. */
  function After(rules: seq<Rule>, local: int -> LocalTime, alarm: Option<int>, run: seq<Reading>): State {
    if run == [] then Started(alarm)
    else
      var r := run[|run| - 1];
      Poll(rules, Spend(After(rules, local, alarm, run[..|run| - 1]), r.now), r, local).0
  }

  /** What the poll number `i` of `run` fires. */
  function FiredAt(
    rules: seq<Rule>, local: int -> LocalTime, alarm: Option<int>, run: seq<Reading>, i: nat): Option<Fired>
    requires i < |run|
  {
    Poll(rules, Spend(After(rules, local, alarm, run[..i]), run[i].now), run[i], local).1
  }

  // ---------- the high-water mark ----------

  /** The latest reading since the clock last jumped. */
  function HighWater(run: seq<Reading>): int
    requires run != []
  {
    var now := run[|run| - 1].now;
    if |run| == 1 then now
    else
      var hw := HighWater(run[..|run| - 1]);
      if Jumped(hw, now) || now > hw then now else hw
  }

  lemma PollMovesMark(rules: seq<Rule>, s: State, r: Reading, local: int -> LocalTime)
    ensures Poll(rules, s, r, local).0.checkedUntil
            == if s.checkedUntil.Some? && !Jumped(s.checkedUntil.value, r.now) && r.now <= s.checkedUntil.value
               then s.checkedUntil else Some(r.now)
  {
    hide LastDue;
    hide ToFire;
    hide NextPowerOn;
  }

  lemma {:induction false} CheckedIsHighWater(
    rules: seq<Rule>, local: int -> LocalTime, alarm: Option<int>, run: seq<Reading>)
    ensures After(rules, local, alarm, run).checkedUntil == if run == [] then None else Some(HighWater(run))
  {
    hide Poll;
    if run != [] {
      var init, r := run[..|run| - 1], run[|run| - 1];
      CheckedIsHighWater(rules, local, alarm, init);
      PollMovesMark(rules, Spend(After(rules, local, alarm, init), r.now), r, local);
    }
  }

  lemma HighWaterStep(run: seq<Reading>)
    requires run != []
    ensures var n := |run| - 1;
            HighWater(run)
            == if n > 0 && !Jumped(HighWater(run[..n]), run[n].now) && run[n].now <= HighWater(run[..n])
               then HighWater(run[..n]) else run[n].now
  {
  }

  /** Without jumps the mark is simply the largest reading so far. */
  lemma {:induction false} HighWaterIsMax(run: seq<Reading>) returns (i: nat)
    requires run != []
    requires forall k | 0 < k < |run| :: !Jumped(HighWater(run[..k]), run[k].now)
    ensures i < |run| && run[i].now == HighWater(run)
    ensures forall k | 0 <= k < |run| :: run[k].now <= HighWater(run)
  {
    hide HighWater;
    var n := |run| - 1;
    i := n;
    HighWaterStep(run);
    if n > 0 {
      var init := run[..n];
      forall k | 0 < k < n ensures init[..k] == run[..k] {
      }
      var p := HighWaterIsMax(init);
      assert forall k | 0 <= k < n :: init[k] == run[k];
      if run[n].now <= HighWater(init) {
        i := p;
      }
    }
  }

  // ---------- what fires ----------

  /** Poll `i` looks at boundary `m`: it lies between the mark and the new reading, with no jump. */
  predicate InWindow(run: seq<Reading>, i: nat, m: int)
    requires i < |run|
  {
    i > 0 && HighWater(run[..i]) < m <= run[i].now <= HighWater(run[..i]) + MAX_GAP
  }

  lemma {:induction false} LastDueIsLast(rules: seq<Rule>, after: int, until: int, local: int -> LocalTime)
    ensures match LastDue(rules, after, until, local)
            case Some((m, r)) =>
              && after < m <= until && IsDue(rules, m, local, false)
              && Best(DueAt(rules, m, local, false)) == Some(r) && r.action.PowerOff?
              && forall b | m < b <= until :: !IsDue(rules, b, local, false)
            case None => forall b | after < b <= until :: !IsDue(rules, b, local, false)
    decreases until - after
  {
    hide IsDue;
    hide Best;
    var m := until / 60 * 60;
    NothingDueBetween(rules, m, until, local);
    if m > after {
      match Best(DueAt(rules, m, local, false)) {
        case Some(r) => PowerOffWins(rules, m, local);
        case None => LastDueIsLast(rules, after, m - 1, local);
      }
    }
  }

  /** Whether anything is due from the last boundary on is decided at that boundary. */
  lemma NothingDueBetween(rules: seq<Rule>, m: int, until: int, local: int -> LocalTime)
    requires m == until / 60 * 60
    ensures forall b | m < b <= until :: !IsDue(rules, b, local, false)
    ensures IsDue(rules, m, local, false) <==> Best(DueAt(rules, m, local, false)).Some?
  {
    hide DueAt;
    hide Best;
    forall b | m < b <= until ensures !IsBoundary(b) {
    }
  }

  lemma PowerOffWins(rules: seq<Rule>, m: int, local: int -> LocalTime)
    requires DueAt(rules, m, local, false) != []
    ensures Best(DueAt(rules, m, local, false)).value.action.PowerOff?
  {
    hide IsRepeatedWallTime;
    var due := DueAt(rules, m, local, false);
    var i := BestWins(due);
    assert due[i] in due;
  }

  /** What is fired is the action, countdown and name of the rule that wins at that local time. */
  predicate Fires(fired: Option<Fired>, rules: seq<Rule>, t: LocalTime) {
    exists k | 0 <= k < |rules| ::
      && Wins(rules, k, t, false) && rules[k].action.PowerOff?
      && fired == Some(Fired(rules[k].action.run, rules[k].countdownSecs, rules[k].name))
  }

  lemma WinnerFires(rules: seq<Rule>, m: int, local: int -> LocalTime)
    requires IsDue(rules, m, local, false)
    ensures Fires(ToFire(Some((m, Best(DueAt(rules, m, local, false)).value))), rules, local(m))
  {
    hide DueAt;
    hide Best;
    var i := DueMeans(rules, m, local, false);
  }

  lemma FiredIsLastCrossed(rules: seq<Rule>, local: int -> LocalTime, alarm: Option<int>, run: seq<Reading>, i: nat)
    requires i < |run|
    ensures FiredAt(rules, local, alarm, run, i)
            == if i > 0 && HighWater(run[..i]) < run[i].now <= HighWater(run[..i]) + MAX_GAP
               then ToFire(LastDue(rules, HighWater(run[..i]), run[i].now, local)) else None
  {
    hide LastDue;
    hide Sync;
    hide ToFire;
    CheckedIsHighWater(rules, local, alarm, run[..i]);
  }

  /**
   A poll fires exactly when a shutdown or restart is due at some boundary it
   crosses without a jump; it fires the winner of the last such boundary.
   */
  lemma FiresWhatIsCrossed(rules: seq<Rule>, local: int -> LocalTime, alarm: Option<int>, run: seq<Reading>, i: nat)
    requires i < |run|
    ensures FiredAt(rules, local, alarm, run, i).Some? <==>
            exists m :: InWindow(run, i, m) && IsDue(rules, m, local, false)
    ensures forall m | InWindow(run, i, m) && IsDue(rules, m, local, false)
                       && (forall b | m < b && InWindow(run, i, b) :: !IsDue(rules, b, local, false)) ::
              Fires(FiredAt(rules, local, alarm, run, i), rules, local(m))
  {
    hide DueAt;
    hide LastDue;
    hide FiredAt;
    hide Best;
    hide Fires;
    FiredIsLastCrossed(rules, local, alarm, run, i);
    if i > 0 {
      LastDueIsLast(rules, HighWater(run[..i]), run[i].now, local);
      forall m | IsDue(rules, m, local, false)
        ensures Fires(ToFire(Some((m, Best(DueAt(rules, m, local, false)).value))), rules, local(m))
      {
        WinnerFires(rules, m, local);
      }
    }
  }

  /** The last boundary a poll crosses decides alone if it has something due. */
  lemma LastBoundaryFires(
    rules: seq<Rule>, local: int -> LocalTime, alarm: Option<int>, run: seq<Reading>, i: nat, m: int)
    requires i < |run| && InWindow(run, i, m) && IsBoundary(m) && run[i].now < m + 60
    ensures IsDue(rules, m, local, false) ==>
              && FiredAt(rules, local, alarm, run, i) == ToFire(Some((m, Best(DueAt(rules, m, local, false)).value)))
              && FiredAt(rules, local, alarm, run, i).Some?
              && Fires(FiredAt(rules, local, alarm, run, i), rules, local(m))
    ensures !IsDue(rules, m, local, false) && m - 60 <= HighWater(run[..i]) ==>
              FiredAt(rules, local, alarm, run, i).None?
  {
    hide DueAt;
    hide FiredAt;
    hide Best;
    hide LastDue;
    hide HighWater;
    hide Fires;
    FiredIsLastCrossed(rules, local, alarm, run, i);
    LastDueIsLast(rules, HighWater(run[..i]), run[i].now, local);
    if IsDue(rules, m, local, false) {
      WinnerFires(rules, m, local);
    }
    forall b | m < b <= run[i].now ensures !IsBoundary(b) {
    }
    forall b | m - 60 < b < m ensures !IsBoundary(b) {
    }
  }

  // ---------- exactly once ----------

  /** Poll `k` saw the clock set back by more than the accepted gap, to before `m`. */
  predicate SetBackBefore(run: seq<Reading>, k: nat, m: int)
    requires k < |run|
  {
    k > 0 && run[k].now < HighWater(run[..k]) - MAX_GAP && run[k].now < m
  }

  /** A minute is looked at twice only if in between the clock, having passed it, was set back past it. */
  lemma TwiceOnlyIfSetBack(run: seq<Reading>, i: nat, j: nat, m: int) returns (k: nat)
    requires i < j < |run| && InWindow(run, i, m) && InWindow(run, j, m)
    ensures i < k < j && m <= HighWater(run[..k]) && SetBackBefore(run, k, m)
  {
    assert run[..i + 1][..i] == run[..i];
    k := i + 1;
    while !SetBackBefore(run, k, m)
      invariant i < k <= j && m <= HighWater(run[..k])
      decreases j - k
    {
      assert run[..k + 1][..k] == run[..k];
      k := k + 1;
    }
  }

  /** No reading so far past the mark that it is taken for a jump; the clock may be set back at will. */
  predicate NoLeaps(run: seq<Reading>) {
    forall i | 0 < i < |run| :: run[i].now <= HighWater(run[..i]) + MAX_GAP
  }

  /** No reading more than a minute past the mark: no poll crosses two boundaries. */
  predicate Prompt(run: seq<Reading>) {
    forall i | 0 < i < |run| :: run[i].now <= HighWater(run[..i]) + 60
  }

  /** The clock passed `m`, and was then set back past it by more than the accepted gap. */
  predicate PassedAndSetBack(run: seq<Reading>, m: int) {
    exists k | 0 < k < |run| :: m <= HighWater(run[..k]) && SetBackBefore(run, k, m)
  }

  predicate LookedAtTwice(run: seq<Reading>, m: int) {
    exists i, j | 0 <= i < j < |run| :: InWindow(run, i, m) && InWindow(run, j, m)
  }

  /**
   While no reading leaps ahead, a minute the clock ends up past is looked at
   twice if and only if the clock, having passed it, was at some
   time set back past it by more than the accepted gap.
   */
  lemma TwiceIffSetBack(run: seq<Reading>, m: int)
    requires run != [] && NoLeaps(run) && run[0].now < m <= HighWater(run)
    ensures LookedAtTwice(run, m) <==> PassedAndSetBack(run, m)
  {
    hide HighWater;
    hide InWindow;
    hide SetBackBefore;
    hide NoLeaps;
    if LookedAtTwice(run, m) {
      var i, j :| 0 <= i < j < |run| && InWindow(run, i, m) && InWindow(run, j, m);
      var k := TwiceOnlyIfSetBack(run, i, j, m);
    }
    if PassedAndSetBack(run, m) {
      var k :| 0 < k < |run| && m <= HighWater(run[..k]) && SetBackBefore(run, k, m);
      SetBackLooksTwice(run, k, m);
    }
  }

  lemma SetBackLooksTwice(run: seq<Reading>, k: nat, m: int)
    requires NoLeaps(run) && 0 < k < |run| && run[0].now < m <= HighWater(run)
    requires m <= HighWater(run[..k]) && SetBackBefore(run, k, m)
    ensures LookedAtTwice(run, m)
  {
    hide HighWater;
    hide InWindow;
    hide SetBackBefore;
    hide NoLeaps;
    SetBackMovesMark(run, k, m);
    MarkStarts(run);
    assert run[..|run|] == run;
    var i := CrossingPoll(run, 1, k, m);
    var j := CrossingPoll(run, k + 1, |run|, m);
  }

  lemma MarkStarts(run: seq<Reading>)
    requires run != []
    ensures HighWater(run[..1]) == run[0].now
  {
  }

  lemma SetBackMovesMark(run: seq<Reading>, k: nat, m: int)
    requires k < |run| && SetBackBefore(run, k, m)
    ensures HighWater(run[..k + 1]) == run[k].now < m
  {
    assert run[..k + 1][..k] == run[..k];
  }

  /** Between two marks either side of `m` some poll looks at `m`. */
  lemma {:induction false} CrossingPoll(run: seq<Reading>, a: nat, n: nat, m: int) returns (i: nat)
    requires 0 < a <= n <= |run| && NoLeaps(run) && HighWater(run[..a]) < m <= HighWater(run[..n])
    ensures a <= i < n && InWindow(run, i, m)
    decreases n
  {
    assert a < n;
    assert run[..n][..n - 1] == run[..n - 1];
    if m <= HighWater(run[..n - 1]) {
      i := CrossingPoll(run, a, n - 1, m);
    } else {
      i := n - 1;
    }
  }

  /** Poll `i` fires for the rule that wins at boundary `m`, or, if nothing is due there, nothing. */
  predicate FiresFor(
    rules: seq<Rule>, local: int -> LocalTime, alarm: Option<int>, run: seq<Reading>, i: nat, m: int)
    requires i < |run|
  {
    if IsDue(rules, m, local, false) then Fires(FiredAt(rules, local, alarm, run, i), rules, local(m))
    else FiredAt(rules, local, alarm, run, i) == None
  }

  /**
   So "never the same one twice" holds for a due minute exactly unless the
   clock, having passed it, is set back past it: then two polls fire its
   winner, otherwise the one poll that looks at it does.
   */
  lemma FiresTwiceIffSetBack(
    rules: seq<Rule>, local: int -> LocalTime, alarm: Option<int>, run: seq<Reading>, m: int)
    requires run != [] && Prompt(run) && IsBoundary(m) && run[0].now < m <= HighWater(run)
    ensures forall i | 0 <= i < |run| && InWindow(run, i, m) :: FiresFor(rules, local, alarm, run, i, m)
    ensures exists i | 0 <= i < |run| :: InWindow(run, i, m)
    ensures LookedAtTwice(run, m) <==> PassedAndSetBack(run, m)
  {
    hide LookedAtTwice;
    hide PassedAndSetBack;
    hide HighWater;
    hide FiredAt;
    hide DueAt;
    hide Best;
    hide Fires;
    hide ToFire;
    TwiceIffSetBack(run, m);
    MarkStarts(run);
    assert run[..|run|] == run;
    var k := CrossingPoll(run, 1, |run|, m);
    forall i | 0 <= i < |run| && InWindow(run, i, m) ensures FiresFor(rules, local, alarm, run, i, m) {
      LastBoundaryFires(rules, local, alarm, run, i, m);
    }
  }

  /** Cross `m`, set the clock back over five minutes, and come up to `m` again. */
  function SetBackRun(m: Time, ok: Access): seq<Reading>
    requires -0x3000_0000_0000_0000 < m < 0x3000_0000_0000_0000
  {
    [Reading(m - 30, ok), Reading(m + 30, ok), Reading(m - 400, ok), Reading(m - 130, ok), Reading(m, ok)]
  }

  lemma SetBackMarks(m: Time, ok: Access)
    requires -0x3000_0000_0000_0000 < m < 0x3000_0000_0000_0000
    ensures var run := SetBackRun(m, ok);
            HighWater(run[..1]) == m - 30 && HighWater(run[..4]) == m - 130
  {
    var run := SetBackRun(m, ok);
    assert run[..1] == [run[0]];
    assert run[..2][..1] == run[..1] && run[..3][..2] == run[..2] && run[..4][..3] == run[..3];
    assert HighWater(run[..2]) == m + 30;
    assert HighWater(run[..3]) == m - 400;
  }

  /** Setting the clock back past a due minute does fire it again, whatever the rules. */
  lemma SetBackFiresAgain(rules: seq<Rule>, local: int -> LocalTime, alarm: Option<int>, m: Time, ok: Access)
    requires IsDue(rules, m, local, false) && -0x3000_0000_0000_0000 < m < 0x3000_0000_0000_0000
    ensures var run := SetBackRun(m, ok);
            && InWindow(run, 1, m) && Fires(FiredAt(rules, local, alarm, run, 1), rules, local(m))
            && InWindow(run, 4, m) && FiredAt(rules, local, alarm, run, 4) == FiredAt(rules, local, alarm, run, 1)
  {
    hide DueAt;
    hide FiredAt;
    hide Best;
    hide ToFire;
    hide HighWater;
    hide Fires;
    var run := SetBackRun(m, ok);
    SetBackMarks(m, ok);
    LastBoundaryFires(rules, local, alarm, run, 1, m);
    LastBoundaryFires(rules, local, alarm, run, 4, m);
  }

  /** Every reading within a minute past the mark, and none set back by more than the gap. */
  predicate Steady(run: seq<Reading>) {
    forall i | 0 < i < |run| ::
      HighWater(run[..i]) - MAX_GAP <= run[i].now <= HighWater(run[..i]) + 60
  }

  lemma SteadyLooksOnce(run: seq<Reading>, i: nat, j: nat, m: int)
    requires Steady(run) && i < |run| && j < |run| && InWindow(run, i, m) && InWindow(run, j, m)
    ensures i == j
  {
    hide InWindow;
    hide HighWater;
    if i < j {
      var k := TwiceOnlyIfSetBack(run, i, j, m);
    } else if j < i {
      var k := TwiceOnlyIfSetBack(run, j, i, m);
    }
  }

  /**
   While the clock is read at least once a minute and never set back by more
   than the gap, each boundary the clock passes is looked at by exactly one
   poll, which fires that boundary's winner if it has one and nothing else.
   */
  lemma EveryMinuteExactlyOnce(rules: seq<Rule>, local: int -> LocalTime, alarm: Option<int>, run: seq<Reading>, m: int)
    returns (i: nat)
    requires run != [] && Steady(run) && IsBoundary(m) && run[0].now < m <= HighWater(run)
    ensures i < |run| && InWindow(run, i, m)
    ensures forall j | 0 <= j < |run| && InWindow(run, j, m) :: j == i
    ensures FiresFor(rules, local, alarm, run, i, m)
  {
    hide HighWater;
    hide FiresFor;
    FiresTwiceIffSetBack(rules, local, alarm, run, m);
    i :| 0 <= i < |run| && InWindow(run, i, m);
    forall j | 0 <= j < |run| && InWindow(run, j, m) ensures j == i {
      SteadyLooksOnce(run, i, j, m);
    }
  }

  predicate SameWall(zone: Zone, x: int, m: int) {
    IsBoundary(x) && LocalAt(zone, x).Wall() == LocalAt(zone, m).Wall()
  }

  /**
   Daylight-saving nights included: over a run on a steady clock each local
   minute that shutdown or restart rules ask for, and the clock passes, is fired
   for by exactly one poll, the one that looks at the first boundary showing it;
   polls that look at another boundary showing it fire nothing.
   */
  lemma {:induction false} RuleMinuteFiresOnce(
    rules: seq<Rule>, zone: Zone, alarm: Option<int>, run: seq<Reading>, m: int)
    returns (first: int, i: int)
    requires run != [] && Steady(run) && Piecewise(zone) && IsBoundary(m) && m <= HighWater(run)
    requires Matching(rules, LocalAt(zone, m), false) != []
    ensures SameWall(zone, first, m) && first <= m && IsDue(rules, first, Local(zone), false)
    ensures run[0].now < first ==>
              && 0 <= i < |run| && InWindow(run, i, first)
              && forall j | 0 <= j < |run| && InWindow(run, j, first) :: j == i
    ensures forall x, j | SameWall(zone, x, m) && 0 <= j < |run| && InWindow(run, j, x) ::
              && FiresFor(rules, Local(zone), alarm, run, j, x)
              && (FiredAt(rules, Local(zone), alarm, run, j).Some? <==> x == first)
  {
    hide HighWater;
    hide FiredAt;
    hide DueAt;
    hide IsDue;
    hide LocalAt;
    hide Steady;
    hide Piecewise;
    hide FiresFor;
    hide InWindow;
    first := RuleMinuteDueOnce(rules, zone, m, false);
    i := -1;
    if run[0].now < first {
      i := EveryMinuteExactlyOnce(rules, Local(zone), alarm, run, first);
    }
    forall x, j | SameWall(zone, x, m) && 0 <= j < |run| && InWindow(run, j, x)
      ensures FiresFor(rules, Local(zone), alarm, run, j, x)
      ensures FiredAt(rules, Local(zone), alarm, run, j).Some? <==> x == first
    {
      SteadyLooks(rules, Local(zone), alarm, run, j, x);
    }
  }

  /** On a steady clock a poll fires for the boundary it looks at, if anything is due there. */
  lemma SteadyLooks(
    rules: seq<Rule>, local: int -> LocalTime, alarm: Option<int>, run: seq<Reading>, j: nat, x: int)
    requires Steady(run) && IsBoundary(x) && j < |run| && InWindow(run, j, x)
    ensures FiresFor(rules, local, alarm, run, j, x)
    ensures FiredAt(rules, local, alarm, run, j).Some? <==> IsDue(rules, x, local, false)
  {
    hide HighWater;
    hide FiredAt;
    hide DueAt;
    hide Best;
    hide Fires;
    hide ToFire;
    LastBoundaryFires(rules, local, alarm, run, j, x);
  }
}
