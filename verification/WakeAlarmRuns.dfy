/** The RTC wake alarm over whole runs of the scheduler. */
module WakeAlarmRuns {
  import opened Wrappers
  import opened Calendar
  import opened LocalZone
  import opened PowerRules
  import opened PowerScheduler
  import opened PowerRuns

  /** With no power-on rule the alarm file is never written, however the run goes. */
  lemma {:induction false} NoRuleNeverWrites(
    rules: seq<Rule>, local: int -> LocalTime, alarm: Option<int>, run: seq<Reading>)
    requires !HasPowerOn(rules)
    ensures var s := After(rules, local, alarm, run);
            && s.written == [] && s.armed == None
            && (s.alarm == alarm || (s.alarm == None && exists i :: 0 <= i < |run| && alarm.value <= run[i].now))
  {
    if run != [] {
      var init, r := run[..|run| - 1], run[|run| - 1];
      NoRuleNeverWrites(rules, local, alarm, init);
      assert run[|run| - 1] == r;
      assert forall i | 0 <= i < |init| :: init[i] == run[i];
    }
  }

  /**
   Whatever fails and however the clock moves, `armed` never claims an alarm
   the file does not hold: it is a due power-on minute still to come.
   */
  lemma {:induction false} ArmedIsSet(rules: seq<Rule>, local: int -> LocalTime, alarm: Option<int>, run: seq<Reading>)
    requires run != []
    ensures var s := After(rules, local, alarm, run);
            s.armed.Some? ==>
              && s.alarm == s.armed && run[|run| - 1].now < s.armed.value
              && IsDue(rules, s.armed.value, local, true)
              && exists r | r in rules :: r.action == PowerOn && Fits(r, local(s.armed.value), true)
  {
    hide Poll;
    hide IsDue;
    var init, r := run[..|run| - 1], run[|run| - 1];
    if !HasPowerOn(rules) {
      NoRuleNeverWrites(rules, local, alarm, run);
    } else {
      if init != [] {
        ArmedIsSet(rules, local, alarm, init);
      }
      PollKeepsArmed(rules, local, Spend(After(rules, local, alarm, init), r.now), r);
    }
    var s := After(rules, local, alarm, run);
    if s.armed.Some? {
      var i := DueMeans(rules, s.armed.value, local, true);
      assert rules[i] in rules;
    }
  }

  lemma PollKeepsArmed(rules: seq<Rule>, local: int -> LocalTime, s: State, r: Reading)
    requires HasPowerOn(rules)
    requires s.armed.Some? && r.now < s.armed.value ==> s.alarm == s.armed && IsDue(rules, s.armed.value, local, true)
    ensures var t := Poll(rules, s, r, local).0;
            t.armed.Some? ==> t.alarm == t.armed && r.now < t.armed.value && IsDue(rules, t.armed.value, local, true)
  {
    hide NextPowerOn;
    hide IsDue;
    hide LastDue;
    hide ToFire;
    hide HasPowerOn;
    NextPowerOnIsLeast(rules, r.now, local);
  }

  lemma NextPowerOnIsLeast(rules: seq<Rule>, now: int, local: int -> LocalTime)
    ensures match NextPowerOn(rules, now, local)
            case Some(a) => now < a <= now + LOOKAHEAD && IsDue(rules, a, local, true)
                            && forall b | now < b < a :: !IsDue(rules, b, local, true)
            case None => forall b | now < b <= now + LOOKAHEAD :: !IsDue(rules, b, local, true)
  {
    hide NextOccurrence;
    hide IsDue;
    NextOccurrenceIsLeast(rules, now, local, true);
  }

  predicate NothingDue(rules: seq<Rule>, local: int -> LocalTime, after: int, until: int) {
    forall b | after < b <= until :: !IsDue(rules, b, local, true)
  }

  /** A look-up at `syncAt` gives what one at `now` would. */
  predicate StillNext(rules: seq<Rule>, local: int -> LocalTime, syncAt: int, now: int) {
    && NothingDue(rules, local, now, syncAt)
    && match NextPowerOn(rules, syncAt, local)
       case Some(at) => at <= now + LOOKAHEAD
       case None => NothingDue(rules, local, syncAt + LOOKAHEAD, now + LOOKAHEAD)
  }

  /** Looking again before the minute found, within a look-ahead of the first look, finds the same exactly then. */
  lemma SameNextPowerOn(rules: seq<Rule>, local: int -> LocalTime, syncAt: int, now: int)
    requires now - LOOKAHEAD <= syncAt <= now + LOOKAHEAD
    requires NextPowerOn(rules, syncAt, local).Some? ==> now < NextPowerOn(rules, syncAt, local).value
    ensures NextPowerOn(rules, now, local) == NextPowerOn(rules, syncAt, local)
            <==> StillNext(rules, local, syncAt, now)
  {
    hide IsDue;
    hide NextPowerOn;
    NextPowerOnIsLeast(rules, syncAt, local);
    NextPowerOnIsLeast(rules, now, local);
  }

  predicate AllAccessible(run: seq<Reading>) {
    forall i | 0 <= i < |run| :: run[i].access == ALL_OK
  }

  /** The state after a poll whose file and belief are what a look-up at `syncAt` gave. */
  ghost predicate SyncedAt(rules: seq<Rule>, local: int -> LocalTime, s: State, now: int, syncAt: int) {
    && s.armed == s.alarm == NextPowerOn(rules, syncAt, local)
    && s.nextRtcCheck == syncAt + 60 && now - 60 < syncAt
    && (s.armed.Some? ==> now < s.armed.value)
    && s.checkedUntil.Some? && syncAt <= s.checkedUntil.value <= now + MAX_GAP
  }

  /** One more poll either looks again or leaves a recent look-up standing. */
  lemma PollStaysSynced(rules: seq<Rule>, local: int -> LocalTime, s: State, r: Reading, last: int, before: int)
    returns (syncAt: int)
    requires HasPowerOn(rules) && r.access == ALL_OK
    requires s.checkedUntil.Some? ==> SyncedAt(rules, local, s, last, before)
    ensures SyncedAt(rules, local, Poll(rules, Spend(s, r.now), r, local).0, r.now, syncAt)
  {
    hide NextPowerOn;
    hide LastDue;
    hide ToFire;
    hide HasPowerOn;
    NextPowerOnIsLeast(rules, r.now, local);
    syncAt := r.now;
    if s.checkedUntil.Some? && !Jumped(s.checkedUntil.value, r.now) && r.now < before + RTC_RECHECK
       && (s.armed.Some? ==> r.now < s.armed.value) {
      syncAt := before;
    }
  }

  /**
   While the file can be accessed, `armed` and the file always agree. They are
   what a look-up at `syncAt` gave, less than a minute before the present
   reading or after it; and they equal a fresh look-up if and only if the clock
   has not been put back over a power-on minute since, nor the minute armed out
   of the look-ahead, and none has come into the look-ahead that was not in it.
   */
  lemma {:induction false} AlarmAgrees(
    rules: seq<Rule>, local: int -> LocalTime, alarm: Option<int>, run: seq<Reading>) returns (syncAt: int)
    requires run != [] && AllAccessible(run) && HasPowerOn(rules)
    ensures var s := After(rules, local, alarm, run);
            var now := run[|run| - 1].now;
            && SyncedAt(rules, local, s, now, syncAt)
            && s.checkedUntil == Some(HighWater(run))
            && (s.armed == NextPowerOn(rules, now, local) <==> StillNext(rules, local, syncAt, now))
  {
    hide NextPowerOn;
    hide StillNext;
    hide Poll;
    hide SyncedAt;
    hide HighWater;
    var init, r := run[..|run| - 1], run[|run| - 1];
    var s := After(rules, local, alarm, init);
    CheckedIsHighWater(rules, local, alarm, init);
    CheckedIsHighWater(rules, local, alarm, run);
    var last, before := 0, 0;
    if init != [] {
      assert AllAccessible(init);
      last := init[|init| - 1].now;
      before := AlarmAgrees(rules, local, alarm, init);
    }
    syncAt := PollStaysSynced(rules, local, s, r, last, before);
    SyncedMeansSame(rules, local, After(rules, local, alarm, run), r.now, syncAt);
  }

  lemma SyncedMeansSame(rules: seq<Rule>, local: int -> LocalTime, s: State, now: int, syncAt: int)
    requires SyncedAt(rules, local, s, now, syncAt)
    ensures s.armed == NextPowerOn(rules, now, local) <==> StillNext(rules, local, syncAt, now)
  {
    hide NextPowerOn;
    hide StillNext;
    SameNextPowerOn(rules, local, syncAt, now);
  }

  // ---------- after a failed access, or another writer ----------

  /** The state after polling at each reading of `run`, from any state: whatever failed or wrote the file before. */
  function AfterFrom(rules: seq<Rule>, local: int -> LocalTime, s: State, run: seq<Reading>): State {
    if run == [] then s
    else
      var r := run[|run| - 1];
      Poll(rules, Spend(AfterFrom(rules, local, s, run[..|run| - 1]), r.now), r, local).0
  }

  /** Once the recheck is due a poll with working access puts everything right, from any state. */
  lemma RecheckSyncs(rules: seq<Rule>, local: int -> LocalTime, s: State, r: Reading)
    requires HasPowerOn(rules) && r.access == ALL_OK && r.now >= s.nextRtcCheck
    ensures SyncedAt(rules, local, Poll(rules, Spend(s, r.now), r, local).0, r.now, r.now)
  {
    hide NextPowerOn;
    hide LastDue;
    hide ToFire;
    hide HasPowerOn;
    NextPowerOnIsLeast(rules, r.now, local);
  }

  /** A poll with working access that does not put everything right has not looked: the recheck stays where it was. */
  lemma SyncsOrWaits(rules: seq<Rule>, local: int -> LocalTime, s: State, r: Reading)
    requires HasPowerOn(rules) && r.access == ALL_OK
    ensures var t := Poll(rules, Spend(s, r.now), r, local).0;
            t.nextRtcCheck == s.nextRtcCheck || SyncedAt(rules, local, t, r.now, r.now)
  {
    hide NextPowerOn;
    hide LastDue;
    hide ToFire;
    hide HasPowerOn;
    NextPowerOnIsLeast(rules, r.now, local);
  }

  /** Either nothing has been looked at yet, or everything is right. */
  lemma {:induction false} WaitsOrSynced(rules: seq<Rule>, local: int -> LocalTime, s: State, run: seq<Reading>)
    returns (syncAt: int)
    requires run != [] && AllAccessible(run) && HasPowerOn(rules)
    ensures var t := AfterFrom(rules, local, s, run);
            t.nextRtcCheck == s.nextRtcCheck || SyncedAt(rules, local, t, run[|run| - 1].now, syncAt)
  {
    hide Poll;
    hide SyncedAt;
    hide HasPowerOn;
    var init, r := run[..|run| - 1], run[|run| - 1];
    var t := AfterFrom(rules, local, s, init);
    var before := 0;
    if init != [] {
      assert AllAccessible(init);
      before := WaitsOrSynced(rules, local, s, init);
    }
    syncAt := r.now;
    SyncsOrWaits(rules, local, t, r);
    if init != [] && SyncedAt(rules, local, t, init[|init| - 1].now, before) {
      syncAt := PollStaysSynced(rules, local, t, r, init[|init| - 1].now, before);
    }
  }

  /**
   Whatever failed before, and whatever anything else wrote to the alarm file:
   once file access works and nothing else writes it, from the first poll at or
   after the recheck (a minute after the last attempt) on, file and belief are
   what a look-up less than a minute old gave.
   */
  lemma {:induction false} AlarmRecovers(
    rules: seq<Rule>, local: int -> LocalTime, s: State, run: seq<Reading>, i: nat) returns (syncAt: int)
    requires i < |run| && AllAccessible(run) && HasPowerOn(rules) && run[i].now >= s.nextRtcCheck
    ensures var t, now := AfterFrom(rules, local, s, run), run[|run| - 1].now;
            && SyncedAt(rules, local, t, now, syncAt)
            && (t.armed == NextPowerOn(rules, now, local) <==> StillNext(rules, local, syncAt, now))
  {
    hide Poll;
    hide SyncedAt;
    hide HasPowerOn;
    hide NextPowerOn;
    hide StillNext;
    var n := |run| - 1;
    var init := run[..n];
    var t := AfterFrom(rules, local, s, init);
    var last, before := 0, 0;
    if init != [] {
      assert AllAccessible(init);
      last := init[n - 1].now;
      if i < n {
        assert init[i] == run[i];
        before := AlarmRecovers(rules, local, s, init, i);
      } else {
        before := WaitsOrSynced(rules, local, s, init);
      }
    }
    if init != [] && SyncedAt(rules, local, t, last, before) {
      syncAt := PollStaysSynced(rules, local, t, run[n], last, before);
    } else {
      syncAt := run[n].now;
      RecheckSyncs(rules, local, t, run[n]);
    }
    SyncedMeansSame(rules, local, AfterFrom(rules, local, s, run), run[n].now, syncAt);
  }

  /** The extra look right before the machine is shut down or the daemon ends leaves the file right, from any state. */
  lemma SyncBeforeShutdown(rules: seq<Rule>, local: int -> LocalTime, s: State, r: Reading)
    requires r.access == ALL_OK
    ensures var t := Sync(rules, s, r, local);
            && t.alarm == t.armed == NextPowerOn(rules, r.now, local) && t.nextRtcCheck == r.now + RTC_RECHECK
            && (t.written == s.written <==> s.alarm == t.alarm)
  {
    hide NextPowerOn;
  }

  // ---------- clocks that only go forward ----------

  /** Each reading is at or past the mark, or a jump the scheduler notices. */
  predicate Forward(run: seq<Reading>) {
    forall i | 0 < i < |run| :: run[i].now >= HighWater(run[..i]) || Jumped(HighWater(run[..i]), run[i].now)
  }

  /**
   With a clock that only goes forward or jumps, in any zone, file, `armed` and
   a fresh look-up are the same, unless no power-on was in the look-ahead and
   the next one came into it less than a minute ago.
   */
  lemma AlarmNeverStale(rules: seq<Rule>, local: int -> LocalTime, alarm: Option<int>, run: seq<Reading>)
    requires run != [] && AllAccessible(run) && HasPowerOn(rules) && Forward(run)
    ensures var s := After(rules, local, alarm, run);
            var now := run[|run| - 1].now;
            var next := NextPowerOn(rules, now, local);
            && s.alarm == s.armed
            && (s.armed == next || (s.armed.None? && next.value > now + LOOKAHEAD - 60))
  {
    hide NextPowerOn;
    hide IsDue;
    hide After;
    hide HasPowerOn;
    hide LOOKAHEAD;
    var now := run[|run| - 1].now;
    var syncAt := AlarmAgrees(rules, local, alarm, run);
    ForwardMark(run);
    NextPowerOnIsLeast(rules, now, local);
    NextPowerOnIsLeast(rules, syncAt, local);
  }

  lemma ForwardMark(run: seq<Reading>)
    requires run != [] && Forward(run)
    ensures HighWater(run) == run[|run| - 1].now
  {
  }

  /** If the clocks are not changed in the week ahead there is no such delay. */
  lemma AlarmFreshInQuietWeek(
    rules: seq<Rule>, r: Rule, zone: Zone, alarm: Option<int>, run: seq<Reading>)
    requires run != [] && AllAccessible(run) && Forward(run) && r in rules && r.Valid() && r.Selected(true)
    requires NoTransitionIn(zone, run[|run| - 1].now - LOOK_BACK, run[|run| - 1].now + WEEK)
    ensures var s := After(rules, Local(zone), alarm, run);
            s.alarm == s.armed == NextPowerOn(rules, run[|run| - 1].now, Local(zone))
  {
    hide NextPowerOn;
    hide IsDue;
    hide After;
    var now := run[|run| - 1].now;
    AlarmNeverStale(rules, Local(zone), alarm, run);
    NextPowerOnIsLeast(rules, now, Local(zone));
    var m := WeeklyRuleComesRound(rules, r, zone, now, true);
  }
}
