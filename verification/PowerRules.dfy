/**
 Scheduled power rules: which are due at a minute boundary, which of several
 wins, and when the next one comes (`due_at`, `best`, `next_occurrence`).
 */
module PowerRules {
  import opened Wrappers
  import opened Actions
  import opened Calendar
  import opened LocalZone

  datatype PowerAction = PowerOn | PowerOff(run: Action)

  /** `days` holds weekdays, 0 = Sunday: the set bits of the source's mask. */
  datatype Rule = Rule(days: set<int>, minuteOfDay: int, action: PowerAction, countdownSecs: nat, name: string)
  {
    predicate Valid() {
      && (exists d | 0 <= d < 7 :: d in days) && (forall d | d in days :: 0 <= d < 7)
      && 0 <= minuteOfDay < 1440
    }

    predicate Matches(t: LocalTime) {
      t.weekday in days && t.hour * 60 + t.minute == minuteOfDay
    }

    /** The two filters the scheduler uses: power-on rules, or all others. */
    predicate Selected(powerOn: bool) {
      action.PowerOn? == powerOn
    }
  }

  const WEEK := 7 * SECS_PER_DAY
  const LOOKAHEAD := 8 * 24 * 60 * 60

  // ---------- due at one minute ----------

  function Matching(rules: seq<Rule>, t: LocalTime, powerOn: bool): (due: seq<Rule>)
    ensures forall r :: r in due <==> r in rules && r.Selected(powerOn) && r.Matches(t)
    ensures (forall r | r in rules :: !r.Selected(powerOn)) ==> due == []
  {
    if rules == [] then []
    else
      var rest := Matching(rules[1..], t, powerOn);
      assert rules == [rules[0]] + rules[1..];
      if rules[0].Selected(powerOn) && rules[0].Matches(t) then [rules[0]] + rest else rest
  }

  function DueAt(rules: seq<Rule>, m: int, local: int -> LocalTime, powerOn: bool): seq<Rule> {
    var due := Matching(rules, local(m), powerOn);
    if due != [] && IsRepeatedWallTime(m, local) then [] else due
  }

  /** `max_by_key(is shutdown)`, which keeps the last of equal candidates. */
  function Best(due: seq<Rule>): (best: Option<Rule>)
    ensures best.None? <==> due == []
  {
    if due == [] then None
    else
      var last := due[|due| - 1];
      match Best(due[..|due| - 1])
      case Some(b) => if IsShutdown(b) && !IsShutdown(last) then Some(b) else Some(last)
      case None => Some(last)
  }

  predicate IsShutdown(r: Rule) {
    r.action == PowerOff(Shutdown)
  }

  /** The winner is a due rule; a shutdown wins over everything else, and only ties go to the later rule. */
  lemma {:induction false} BestWins(due: seq<Rule>) returns (i: int)
    requires due != []
    ensures 0 <= i < |due| && Best(due) == Some(due[i])
    ensures forall j | 0 <= j < |due| && IsShutdown(due[j]) :: IsShutdown(due[i]) && j <= i
    ensures !IsShutdown(due[i]) ==> i == |due| - 1
  {
    var n := |due| - 1;
    i := n;
    if n > 0 {
      var k := BestWins(due[..n]);
      if IsShutdown(due[k]) && !IsShutdown(due[n]) {
        i := k;
      }
    }
  }

  /** A rule of the kind asked for, on one of its weekdays and at its minute of the day. */
  predicate Fits(r: Rule, t: LocalTime, powerOn: bool) {
    && (if powerOn then r.action == PowerOn else r.action == PowerOff(Shutdown) || r.action == PowerOff(Restart))
    && t.weekday in r.days && r.minuteOfDay == 60 * t.hour + t.minute
  }

  /**
   Of the rules as listed, the winner of a local time is one that fits it; a
   shutdown if any fitting rule is one; and of those that could win so far the
   one listed last.
   */
  predicate Wins(rules: seq<Rule>, i: int, t: LocalTime, powerOn: bool) {
    && 0 <= i < |rules| && Fits(rules[i], t, powerOn)
    && forall j | 0 <= j < |rules| && Fits(rules[j], t, powerOn) ::
         && (rules[j].action == PowerOff(Shutdown) ==> rules[i].action == PowerOff(Shutdown))
         && (j > i ==> rules[i].action == PowerOff(Shutdown) && rules[j].action != PowerOff(Shutdown))
  }

  lemma {:induction false} WinnerIsLastListed(rules: seq<Rule>, t: LocalTime, powerOn: bool) returns (i: int)
    ensures Best(Matching(rules, t, powerOn)).None? <==> forall j | 0 <= j < |rules| :: !Fits(rules[j], t, powerOn)
    ensures Best(Matching(rules, t, powerOn)).Some? ==>
              Wins(rules, i, t, powerOn) && Best(Matching(rules, t, powerOn)) == Some(rules[i])
  {
    hide Fits;
    hide Matching;
    hide Best;
    i := -1;
    if rules != [] {
      var n := |rules| - 1;
      var init := rules[..n];
      i := WinnerIsLastListed(init, t, powerOn);
      assert forall j | 0 <= j < n :: init[j] == rules[j];
      MatchingGrows(init, rules[n], t, powerOn);
      assert init + [rules[n]] == rules;
      var best := Best(Matching(init, t, powerOn));
      BestGrows(Matching(init, t, powerOn), rules[n]);
      if Fits(rules[n], t, powerOn) && !(best.Some? && IsShutdown(best.value) && !IsShutdown(rules[n])) {
        i := n;
      }
    }
  }

  /**
   A rule is due at a boundary whose local time it fits, unless that time was
   shown before; and what is chosen there is a rule that wins.
   */
  lemma DueMeans(rules: seq<Rule>, m: int, local: int -> LocalTime, powerOn: bool) returns (i: int)
    ensures IsDue(rules, m, local, powerOn)
            <==> m % 60 == 0 && !IsRepeatedWallTime(m, local)
                 && exists j | 0 <= j < |rules| :: Fits(rules[j], local(m), powerOn)
    ensures IsDue(rules, m, local, powerOn) ==>
              Wins(rules, i, local(m), powerOn) && Best(DueAt(rules, m, local, powerOn)) == Some(rules[i])
  {
    hide IsRepeatedWallTime;
    hide Fits;
    hide Matching;
    hide Best;
    i := WinnerIsLastListed(rules, local(m), powerOn);
  }

  lemma BestGrows(due: seq<Rule>, r: Rule)
    ensures Best(due + [r])
            == if Best(due).Some? && IsShutdown(Best(due).value) && !IsShutdown(r) then Best(due) else Some(r)
    ensures Best(due + []) == Best(due)
  {
    assert (due + [r])[..|due|] == due && due + [] == due;
  }

  lemma FitsIff(r: Rule, t: LocalTime, powerOn: bool)
    ensures Fits(r, t, powerOn) <==> r.Selected(powerOn) && r.Matches(t)
  {
    assert r.action.PowerOff? ==> r.action.run == Shutdown || r.action.run == Restart;
  }

  lemma {:induction false} MatchingGrows(rules: seq<Rule>, r: Rule, t: LocalTime, powerOn: bool)
    ensures Matching(rules + [r], t, powerOn)
            == Matching(rules, t, powerOn) + (if Fits(r, t, powerOn) then [r] else [])
  {
    FitsIff(r, t, powerOn);
    if rules != [] {
      assert (rules + [r])[1..] == rules[1..] + [r];
      MatchingGrows(rules[1..], r, t, powerOn);
    }
  }

  predicate IsDue(rules: seq<Rule>, m: int, local: int -> LocalTime, powerOn: bool) {
    IsBoundary(m) && DueAt(rules, m, local, powerOn) != []
  }

  // ---------- the next one ----------

  /** The first boundary from `m` (a boundary) to `until` at which something is due. */
  function FirstDue(rules: seq<Rule>, m: int, until: int, local: int -> LocalTime, powerOn: bool): Option<(int, Rule)>
    decreases until - m
  {
    if m > until then None
    else match Best(DueAt(rules, m, local, powerOn))
      case Some(r) => Some((m, r))
      case None => FirstDue(rules, m + 60, until, local, powerOn)
  }

  function FirstBoundary(after: int): int {
    after / 60 * 60 + 60
  }

  function NextOccurrence(rules: seq<Rule>, after: int, local: int -> LocalTime, powerOn: bool): Option<(int, Rule)> {
    if forall r | r in rules :: !r.Selected(powerOn) then None
    else FirstDue(rules, FirstBoundary(after), after + LOOKAHEAD, local, powerOn)
  }

  lemma {:induction false} FirstDueIsLeast(rules: seq<Rule>, m: int, until: int, local: int -> LocalTime, powerOn: bool)
    requires IsBoundary(m)
    ensures match FirstDue(rules, m, until, local, powerOn)
            case Some((at, r)) =>
              && m <= at <= until && IsDue(rules, at, local, powerOn)
              && Best(DueAt(rules, at, local, powerOn)) == Some(r)
              && forall b | m <= b < at :: !IsDue(rules, b, local, powerOn)
            case None => forall b | m <= b <= until :: !IsDue(rules, b, local, powerOn)
    decreases until - m
  {
    if m <= until && DueAt(rules, m, local, powerOn) == [] {
      FirstDueIsLeast(rules, m + 60, until, local, powerOn);
      forall b | m <= b < m + 60 ensures !IsDue(rules, b, local, powerOn) {
        assert IsBoundary(b) ==> b == m;
      }
    }
  }

  /** `next_occurrence` is the least due boundary after `after`, if one is due within eight days. */
  lemma NextOccurrenceIsLeast(rules: seq<Rule>, after: int, local: int -> LocalTime, powerOn: bool)
    ensures match NextOccurrence(rules, after, local, powerOn)
            case Some((at, r)) =>
              && after < at <= after + 8 * 86_400 && IsDue(rules, at, local, powerOn)
              && Best(DueAt(rules, at, local, powerOn)) == Some(r)
              && forall b | after < b < at :: !IsDue(rules, b, local, powerOn)
            case None => forall b | after < b <= after + 8 * 86_400 :: !IsDue(rules, b, local, powerOn)
  {
    hide IsRepeatedWallTime;
    var m := FirstBoundary(after);
    forall b | after < b < m ensures !IsBoundary(b) {
    }
    FirstDueIsLeast(rules, m, after + LOOKAHEAD, local, powerOn);
    if forall r | r in rules :: !r.Selected(powerOn) {
      forall b ensures !IsDue(rules, b, local, powerOn) {
        assert Matching(rules, local(b), powerOn) == [];
      }
    }
  }

  predicate NoTransitionIn(zone: Zone, after: int, until: int) {
    forall t | after < t <= until :: !IsTransition(zone, t)
  }

  /** The local minute shown at `x`, counted from 1970-01-01 00:00. */
  function MinuteShown(zone: Zone, x: int): int {
    (x + zone(x)) / 60
  }

  /** Local minute `k` is one the rule asks for; day 0 was a Thursday. */
  predicate AskedBy(r: Rule, k: int) {
    (k / 1440 + 4) % 7 in r.days && k % 1440 == r.minuteOfDay
  }

  predicate Asked(rules: seq<Rule>, k: int, powerOn: bool) {
    exists r | r in rules :: r.Selected(powerOn) && AskedBy(r, k)
  }

  lemma AskedIsMatching(rules: seq<Rule>, zone: Zone, m: int, powerOn: bool)
    requires IsBoundary(m)
    ensures Matching(rules, Local(zone)(m), powerOn) != [] <==> Asked(rules, MinuteShown(zone, m), powerOn)
  {
    hide LocalAt;
    hide MinuteShown;
    var due := Matching(rules, LocalAt(zone, m), powerOn);
    LocalMinuteOfWeek(zone, m, MinuteShown(zone, m));
    if due != [] {
      assert due[0] in due;
    }
  }

  lemma AskedWeekly(rules: seq<Rule>, k: int, powerOn: bool)
    ensures Asked(rules, k, powerOn) <==> Asked(rules, k + 10_080, powerOn)
  {
    assert (k + 10_080) / 1440 == k / 1440 + 7 && (k + 10_080) % 1440 == k % 1440;
    forall r ensures AskedBy(r, k) <==> AskedBy(r, k + 10_080) {
    }
  }

  lemma DueIffAsked(rules: seq<Rule>, zone: Zone, m: int, powerOn: bool)
    ensures IsDue(rules, m, Local(zone), powerOn)
            <==> IsBoundary(m) && Asked(rules, MinuteShown(zone, m), powerOn) && !IsRepeatedWallTime(m, Local(zone))
  {
    hide IsRepeatedWallTime;
    hide LocalAt;
    hide Asked;
    hide MinuteShown;
    hide Matching;
    if IsBoundary(m) {
      AskedIsMatching(rules, zone, m, powerOn);
    }
  }

  /** A valid rule comes round within a week if the clocks are not changed in it, nor in the look-back before it. */
  lemma WeeklyRuleComesRound(rules: seq<Rule>, r: Rule, zone: Zone, after: int, powerOn: bool) returns (m: int)
    requires r in rules && r.Valid() && r.Selected(powerOn)
    requires NoTransitionIn(zone, after - LOOK_BACK, after + WEEK)
    ensures after < m <= after + WEEK && IsDue(rules, m, Local(zone), powerOn)
  {
    hide IsDue;
    hide IsRepeatedWallTime;
    hide MinuteShown;
    hide AskedBy;
    var k;
    k, m := MinuteComesRound(zone, after, r);
    NoTransitionNoChange(zone, m - LOOK_BACK, m);
    DueIffAsked(rules, zone, m, powerOn);
    QuietIsNotRepeated(zone, m);
  }

  lemma MinuteComesRound(zone: Zone, after: int, r: Rule) returns (k: int, m: int)
    requires r.Valid() && NoTransitionIn(zone, after, after + WEEK)
    ensures after < m <= after + WEEK && IsBoundary(m) && MinuteShown(zone, m) == k && AskedBy(r, k)
  {
    var d :| 0 <= d < 7 && d in r.days;
    var offset := zone(after) / 60;
    k := MinuteInWeek(after / 60 + offset, d * 1440 + r.minuteOfDay);
    m := 60 * (k - offset);
    NoTransitionNoChange(zone, after, m);
    DayAndMinute(k, d, r.minuteOfDay);
    WholeMinutes(k - offset, zone(after));
  }

  lemma WholeMinutes(q: int, x: int)
    ensures (60 * q + x) / 60 == q + x / 60
  {
  }

  /** Some minute among the 10 080 after `j` is minute `w` of its week (Sunday first; 1970 began on a Thursday). */
  lemma MinuteInWeek(j: int, w: int) returns (k: int)
    requires 0 <= w < 10_080
    ensures j < k <= j + 10_080 && (k + 4 * 1440) % 10_080 == w
  {
    var x := j + 1 + 4 * 1440;
    k := j + 1 + (w - x) % 10_080;
    var q := (w - x) / 10_080;
    assert k + 4 * 1440 == w + 10_080 * -q;
    assert (w + 10_080 * -q) % 10_080 == w % 10_080;
  }

  lemma DayAndMinute(k: int, d: int, minute: int)
    requires 0 <= d < 7 && 0 <= minute < 1440 && (k + 4 * 1440) % 10_080 == d * 1440 + minute
    ensures (k / 1440 + 4) % 7 == d && k % 1440 == minute
  {
    var q := (k + 4 * 1440) / 10_080;
    assert k == 1440 * (7 * q + d - 4) + minute;
    assert k / 1440 == 7 * q + d - 4;
    assert (7 * q + d) % 7 == d % 7;
  }

  lemma LocalMinuteOfWeek(zone: Zone, m: int, k: int)
    requires IsBoundary(m) && MinuteShown(zone, m) == k
    ensures var t := LocalAt(zone, m);
            t.weekday == (k / 1440 + 4) % 7 && t.hour * 60 + t.minute == k % 1440
  {
    hide Civil;
    var s := m + zone(m);
    assert s / 60 == k;
    MinuteOfDay(s);
  }

  // ---------- how far ahead is far enough ----------

  /** The clocks go forward at `t`, over local minute `k`. */
  predicate Skips(zone: Zone, t: int, k: int) {
    IsTransition(zone, t) && (t + zone(t - 1)) / 60 <= k < MinuteShown(zone, t)
  }

  predicate OneTransitionIn(zone: Zone, after: int, until: int) {
    forall t, u | after < t <= until && after < u <= until && IsTransition(zone, t) && IsTransition(zone, u) :: t == u
  }

  /** Local minute `k` lies between the first and the last boundary looked at, and the clocks do not skip it. */
  predicate InReach(zone: Zone, after: int, k: int) {
    var until := after + LOOKAHEAD;
    && MinuteShown(zone, FirstBoundary(after)) <= k <= MinuteShown(zone, until / 60 * 60)
    && !exists t | after < t <= until :: Skips(zone, t, k)
  }

  /** Every local minute between two boundaries is shown in between, or skipped. */
  lemma {:induction false} ShownOrSkipped(zone: Zone, p: int, q: int, k: int) returns (m: int)
    requires Piecewise(zone) && IsBoundary(p) && IsBoundary(q) && p <= q
    requires MinuteShown(zone, p) <= k <= MinuteShown(zone, q)
    ensures p <= m <= q && IsBoundary(m)
    ensures MinuteShown(zone, m) == k || (p < m && Skips(zone, m, k))
    decreases q - p
  {
    m := q;
    if k < MinuteShown(zone, q) {
      forall u | q - 60 < u < q ensures !IsTransition(zone, u) {
      }
      NoTransitionNoChange(zone, q - 60, q - 1);
      if k <= MinuteShown(zone, q - 60) {
        m := ShownOrSkipped(zone, p, q - 60, k);
      }
    }
  }

  /** A minute asked for and in reach is found; if only its second showing is, then the one a week on. */
  lemma AskedIsDue(rules: seq<Rule>, zone: Zone, after: int, k: int, powerOn: bool) returns (m: int)
    requires Piecewise(zone) && OneTransitionIn(zone, after - LOOK_BACK, after + LOOKAHEAD)
    requires InReach(zone, after, k) && Asked(rules, k, powerOn)
    ensures after < m <= after + LOOKAHEAD && IsDue(rules, m, Local(zone), powerOn)
  {
    hide IsDue;
    hide IsRepeatedWallTime;
    hide LocalAt;
    hide Asked;
    hide InReach;
    hide MinuteShown;
    m := ShownInReach(zone, after, k);
    DueIffAsked(rules, zone, m, powerOn);
    if IsRepeatedWallTime(m, Local(zone)) {
      var t, x := ShownBefore(zone, m);
      if x > after {
        DueIffAsked(rules, zone, x, powerOn);
        m := x;
      } else {
        AWeekOnIsDue(rules, zone, m, t, powerOn);
        m := m + WEEK;
      }
    }
  }

  lemma ShownInReach(zone: Zone, after: int, k: int) returns (m: int)
    requires Piecewise(zone) && InReach(zone, after, k)
    ensures after < m <= after + LOOKAHEAD && IsBoundary(m) && MinuteShown(zone, m) == k
  {
    hide Skips;
    hide MinuteShown;
    m := ShownOrSkipped(zone, FirstBoundary(after), (after + LOOKAHEAD) / 60 * 60, k);
  }

  lemma ShownBefore(zone: Zone, m: int) returns (t: int, x: int)
    requires Piecewise(zone) && IsBoundary(m) && IsRepeatedWallTime(m, Local(zone))
    ensures IsTransition(zone, t) && m - LOOK_BACK < t <= m
    ensures IsBoundary(x) && m - LOOK_BACK <= x < m && MinuteShown(zone, x) == MinuteShown(zone, m)
    ensures !IsRepeatedWallTime(x, Local(zone))
  {
    hide IsRepeatedWallTime;
    hide LocalAt;
    RepeatedIffSeenBefore(zone, m);
    t := RepeatedHasEarlierTwin(zone, m);
    x := FirstTimeRound(zone, m);
  }

  lemma AWeekOnIsDue(rules: seq<Rule>, zone: Zone, m: int, t: int, powerOn: bool)
    requires IsBoundary(m) && Asked(rules, MinuteShown(zone, m), powerOn)
    requires t <= m && NoTransitionIn(zone, t, m + WEEK)
    ensures IsDue(rules, m + WEEK, Local(zone), powerOn)
  {
    hide IsDue;
    hide IsRepeatedWallTime;
    hide LocalAt;
    hide Asked;
    var w := m + WEEK;
    NoTransitionNoChange(zone, m, w);
    NoTransitionNoChange(zone, w - LOOK_BACK, w);
    QuietIsNotRepeated(zone, w);
    assert MinuteShown(zone, w) == MinuteShown(zone, m) + 10_080;
    AskedWeekly(rules, MinuteShown(zone, m), powerOn);
    DueIffAsked(rules, zone, w, powerOn);
  }

  /** What is found was in reach; if the clocks went back over it, then the one a week before is. */
  lemma DueIsAsked(rules: seq<Rule>, zone: Zone, after: int, b: int, powerOn: bool) returns (k: int)
    requires Piecewise(zone) && OneTransitionIn(zone, after - LOOK_BACK, after + LOOKAHEAD)
    requires after < b <= after + LOOKAHEAD && IsDue(rules, b, Local(zone), powerOn)
    ensures InReach(zone, after, k) && Asked(rules, k, powerOn)
  {
    hide IsDue;
    hide IsRepeatedWallTime;
    hide LocalAt;
    hide Asked;
    hide InReach;
    hide MinuteShown;
    DueIffAsked(rules, zone, b, powerOn);
    k := MinuteShown(zone, b);
    InReachOrWeekBefore(zone, after, b);
    if !InReach(zone, after, k) {
      k := k - 10_080;
      AskedWeekly(rules, k, powerOn);
    }
  }

  /** Of the minute a due boundary shows and the same a week before, one is in reach. */
  lemma InReachOrWeekBefore(zone: Zone, after: int, b: int)
    requires Piecewise(zone) && OneTransitionIn(zone, after - LOOK_BACK, after + LOOKAHEAD)
    requires after < b <= after + LOOKAHEAD && IsBoundary(b) && !IsRepeatedWallTime(b, Local(zone))
    ensures InReach(zone, after, MinuteShown(zone, b)) || InReach(zone, after, MinuteShown(zone, b) - 10_080)
  {
    hide IsRepeatedWallTime;
    hide LocalAt;
    hide InReach;
    hide MinuteShown;
    hide ChangesAt;
    var first, last := FirstBoundary(after), (after + LOOKAHEAD) / 60 * 60;
    if NoTransitionIn(zone, first, last) {
      QuietIsInReach(zone, after, b);
    } else {
      var t :| first < t <= last && IsTransition(zone, t);
      OnlyChange(zone, after, t);
      if b < t {
        NoTransitionNoChange(zone, b, t - 1);
        BeforeChangeInReach(zone, after, t, b);
      } else {
        NoTransitionNoChange(zone, t, b);
        if MinuteShown(zone, b) < MinuteShown(zone, first) {
          RepeatsBeforeReach(zone, after, t, b);
        }
        AfterChangeInReach(zone, after, t, b);
      }
    }
  }

  lemma OnlyChange(zone: Zone, after: int, t: int)
    requires Piecewise(zone) && OneTransitionIn(zone, after - LOOK_BACK, after + LOOKAHEAD)
    requires IsTransition(zone, t) && FirstBoundary(after) < t <= (after + LOOKAHEAD) / 60 * 60
    ensures ChangesAt(zone, after, t)
  {
    NoTransitionNoChange(zone, FirstBoundary(after), t - 1);
    NoTransitionNoChange(zone, t, (after + LOOKAHEAD) / 60 * 60);
  }

  lemma QuietIsInReach(zone: Zone, after: int, b: int)
    requires Piecewise(zone) && IsBoundary(b) && after < b <= after + LOOKAHEAD
    requires NoTransitionIn(zone, FirstBoundary(after), (after + LOOKAHEAD) / 60 * 60)
    ensures InReach(zone, after, MinuteShown(zone, b))
  {
    var first, last := FirstBoundary(after), (after + LOOKAHEAD) / 60 * 60;
    NoTransitionNoChange(zone, first, b);
    NoTransitionNoChange(zone, b, last);
    forall t | after < t <= after + LOOKAHEAD ensures !Skips(zone, t, MinuteShown(zone, b)) {
      assert IsTransition(zone, t) ==> t == first;
    }
  }

  /** The only change in the window is at `t`, which is not its first boundary. */
  predicate ChangesAt(zone: Zone, after: int, t: int) {
    && IsTransition(zone, t) && FirstBoundary(after) < t <= (after + LOOKAHEAD) / 60 * 60
    && (forall u | after < u <= after + LOOKAHEAD && u != t :: !IsTransition(zone, u))
    && zone(FirstBoundary(after)) == zone(t - 1) && zone((after + LOOKAHEAD) / 60 * 60) == zone(t)
  }

  lemma BeforeChangeInReach(zone: Zone, after: int, t: int, b: int)
    requires Piecewise(zone) && ChangesAt(zone, after, t)
    requires IsBoundary(b) && after < b < t && zone(b) == zone(t - 1)
    ensures InReach(zone, after, MinuteShown(zone, b)) || InReach(zone, after, MinuteShown(zone, b) - 10_080)
  {
    hide Skips;
    hide MinuteShown;
    hide Piecewise;
    var k := BeforeChangeInRange(zone, after, t, b);
    NotSkippedBefore(zone, t, b, k);
    forall u | after < u <= after + LOOKAHEAD ensures !Skips(zone, u, k) {
      OnlyChangesSkip(zone, u, k);
    }
  }

  lemma BeforeChangeInRange(zone: Zone, after: int, t: int, b: int) returns (k: int)
    requires Piecewise(zone) && ChangesAt(zone, after, t)
    requires IsBoundary(b) && after < b < t && zone(b) == zone(t - 1)
    ensures k == MinuteShown(zone, b) || k == MinuteShown(zone, b) - 10_080
    ensures k <= MinuteShown(zone, b)
    ensures MinuteShown(zone, FirstBoundary(after)) <= k <= MinuteShown(zone, (after + LOOKAHEAD) / 60 * 60)
  {
    var first, last := FirstBoundary(after), (after + LOOKAHEAD) / 60 * 60;
    assert first <= b && first + WEEK + LOOK_BACK <= last;
    k := MinuteShown(zone, b);
    if k > MinuteShown(zone, last) {
      k := k - 10_080;
      assert Fall(zone, t) <= LOOK_BACK;
      AWeekBefore(first, last, b, zone(b), zone(t));
    }
  }

  lemma NotSkippedBefore(zone: Zone, t: int, b: int, k: int)
    requires Piecewise(zone) && IsTransition(zone, t)
    requires IsBoundary(b) && b < t && zone(b) == zone(t - 1) && k <= MinuteShown(zone, b)
    ensures !Skips(zone, t, k)
  {
    assert b + 60 <= t;
    LaterMinute(b + zone(b), t + zone(b));
  }

  lemma LaterMinute(x: int, y: int)
    requires x + 60 <= y
    ensures x / 60 < y / 60
  {
  }

  lemma OnlyChangesSkip(zone: Zone, u: int, k: int)
    ensures Skips(zone, u, k) ==> IsTransition(zone, u)
  {
  }

  lemma AWeekBefore(first: int, last: int, b: int, early: int, late: int)
    requires early - late <= LOOK_BACK && b <= last && first + WEEK + LOOK_BACK <= last
    requires (b + early) / 60 > (last + late) / 60
    ensures (first + early) / 60 <= (b + early) / 60 - 10_080 <= (last + late) / 60
  {
    assert b + early > last + late;
    assert (b - WEEK + early) / 60 == (b + early) / 60 - 10_080;
  }

  lemma AfterChangeInReach(zone: Zone, after: int, t: int, b: int)
    requires Piecewise(zone) && ChangesAt(zone, after, t)
    requires IsBoundary(b) && t <= b <= after + LOOKAHEAD && zone(b) == zone(t)
    requires MinuteShown(zone, FirstBoundary(after)) <= MinuteShown(zone, b)
    ensures InReach(zone, after, MinuteShown(zone, b))
  {
    var k := MinuteShown(zone, b);
    assert k >= MinuteShown(zone, t);
    assert forall u | after < u <= after + LOOKAHEAD :: !Skips(zone, u, k);
  }

  /** After a fall-back at `t`, minutes that show what was shown before `after` are repeats. */
  lemma RepeatsBeforeReach(zone: Zone, after: int, t: int, b: int)
    requires Piecewise(zone) && IsTransition(zone, t) && FirstBoundary(after) < t <= b && IsBoundary(b)
    requires zone(b) == zone(t) && zone(t - 1) == zone(FirstBoundary(after))
    requires forall u | after - LOOK_BACK < u < t :: !IsTransition(zone, u)
    requires MinuteShown(zone, b) < MinuteShown(zone, FirstBoundary(after))
    ensures IsRepeatedWallTime(b, Local(zone))
  {
    hide IsRepeatedWallTime;
    hide LocalAt;
    var x := b - Fall(zone, t);
    assert IsBoundary(x);
    NoTransitionNoChange(zone, x, t - 1);
    WallIsMinuteCount(zone, x, b);
    EarlierTwinIsRepeated(zone, x, b);
  }

  /**
   How good the eight days are: with at most one clock change in them and the
   four hours before, nothing is found if and only if every local minute asked
   for in that time is skipped by the clocks going forward.
   */
  lemma NotFoundIffSkipped(rules: seq<Rule>, zone: Zone, after: int, powerOn: bool)
    requires Piecewise(zone) && OneTransitionIn(zone, after - LOOK_BACK, after + LOOKAHEAD)
    ensures NextOccurrence(rules, after, Local(zone), powerOn) == None
            <==> forall k | Asked(rules, k, powerOn) :: !InReach(zone, after, k)
  {
    hide IsDue;
    hide InReach;
    hide Asked;
    hide LocalAt;
    hide NextOccurrence;
    NextOccurrenceIsLeast(rules, after, Local(zone), powerOn);
    if NextOccurrence(rules, after, Local(zone), powerOn).Some? {
      var at := NextOccurrence(rules, after, Local(zone), powerOn).value.0;
      var k := DueIsAsked(rules, zone, after, at, powerOn);
    } else {
      forall k | Asked(rules, k, powerOn) ensures !InReach(zone, after, k) {
        if InReach(zone, after, k) {
          var m := AskedIsDue(rules, zone, after, k, powerOn);
        }
      }
    }
  }

  // ---------- daylight saving ----------

  /**
   Across a daylight-saving change, of all the boundaries that show one local
   date and time a rule asks for, the rule is due at exactly one: the first.
   */
  lemma RuleMinuteDueOnce(rules: seq<Rule>, zone: Zone, m: int, powerOn: bool) returns (first: int)
    requires Piecewise(zone) && IsBoundary(m)
    requires Matching(rules, LocalAt(zone, m), powerOn) != []
    ensures IsBoundary(first) && first <= m && LocalAt(zone, first).Wall() == LocalAt(zone, m).Wall()
    ensures forall x | IsBoundary(x) && LocalAt(zone, x).Wall() == LocalAt(zone, m).Wall() ::
              IsDue(rules, x, Local(zone), powerOn) <==> x == first
  {
    hide IsRepeatedWallTime;
    hide LocalAt;
    first := ExactlyOneCounts(zone, m);
    forall x | IsBoundary(x) && LocalAt(zone, x).Wall() == LocalAt(zone, m).Wall()
      ensures IsDue(rules, x, Local(zone), powerOn) <==> x == first
    {
      SameWallSameWeekday(zone, x, m);
      MatchingIgnoresOffset(rules, LocalAt(zone, x), LocalAt(zone, m), powerOn);
    }
  }

  lemma SameWallSameWeekday(zone: Zone, x: int, m: int)
    requires LocalAt(zone, x).Wall() == LocalAt(zone, m).Wall()
    ensures LocalAt(zone, x).weekday == LocalAt(zone, m).weekday
  {
    hide Civil;
    WallIsMinuteCount(zone, x, m);
    MinutesAgree(x + zone(x), m + zone(m));
  }

  lemma {:induction false} MatchingIgnoresOffset(rules: seq<Rule>, t: LocalTime, u: LocalTime, powerOn: bool)
    requires t.Wall() == u.Wall() && t.weekday == u.weekday
    ensures Matching(rules, t, powerOn) == Matching(rules, u, powerOn)
  {
    if rules != [] {
      MatchingIgnoresOffset(rules[1..], t, u, powerOn);
    }
  }

  /** A Sunday rule for 02:30, in a zone whose clocks go from 02:00 to 03:00 on the second Sunday of 1970. */
  const SUNDAY_RULE := Rule({0}, 150, PowerOn, 0, "sunday 02:30")
  const SPRING_FORWARD := 10 * SECS_PER_DAY + 2 * 3600

  function SpringZone(): Zone {
    t => if t < SPRING_FORWARD then 0 else 3600
  }

  /**
   A weekly rule is not always found: right after the Sunday before a
   spring-forward that skips its minute, nothing is due for eight days.
   */
  lemma SkippedMinuteIsTooFar()
    ensures Piecewise(SpringZone()) && SUNDAY_RULE.Valid()
    ensures NextOccurrence([SUNDAY_RULE], 3 * SECS_PER_DAY + 150 * 60, Local(SpringZone()), true) == None
  {
    hide IsRepeatedWallTime;
    hide LocalAt;
    var zone, after := SpringZone(), 3 * SECS_PER_DAY + 150 * 60;
    assert forall t :: IsTransition(zone, t) <==> t == SPRING_FORWARD;
    assert 0 in SUNDAY_RULE.days;
    NextOccurrenceIsLeast([SUNDAY_RULE], after, Local(zone), true);
    forall b | after < b <= after + LOOKAHEAD ensures !IsDue([SUNDAY_RULE], b, Local(zone), true) {
      if IsBoundary(b) {
        NotSundayHalfPastTwo(zone, b, zone(b) / 60 + b / 60);
      }
    }
  }

  lemma NotSundayHalfPastTwo(zone: Zone, b: int, k: int)
    requires IsBoundary(b) && k == zone(b) / 60 + b / 60 && (4470 < k < 14_520 || 14_580 <= k <= 16_050)
    ensures Matching([SUNDAY_RULE], LocalAt(zone, b), true) == []
  {
    hide LocalAt;
    LocalMinuteOfWeek(zone, b, k);
    if k % 1440 == 150 {
      assert k / 1440 != 3 && k / 1440 != 10;
      assert 3 <= k / 1440 <= 11;
    }
  }
}
