/**
 Local wall-clock time, and which minute of a daylight-saving fall-back
 counts (`is_repeated_wall_time`).

 libc's `localtime_r` is an arbitrary function from instants to UTC offsets.
 */
module LocalZone {
  import opened Calendar

  type Zone = int -> int

  /** The local reading of the clock at `t`, under `zone`. */
  function LocalAt(zone: Zone, t: int): LocalTime {
    var s := t + zone(t);
    var d := Civil(s / SECS_PER_DAY);
    LocalTime(d.year, d.month, d.day, (s / SECS_PER_DAY + 4) % 7,
              s % SECS_PER_DAY / 3600, s % SECS_PER_DAY / 60 % 60, zone(t))
  }

  /** With offset zero a local time is what the fallback conversion gives. */
  lemma UtcIsFromUtc(t: i64)
    requires YearFits(t)
    ensures LocalAt(_ => 0, t) == FromUtc(t)
  {
    hide FromUtc;
    hide Civil;
    FromUtcIsCivil(t);
    YearFitsIff(t);
    HourAndMinute(t % SECS_PER_DAY);
  }

  function Local(zone: Zone): int -> LocalTime {
    t => LocalAt(zone, t)
  }

  /** The daemon's test for the repeated hour of a fall-back. */
  predicate IsRepeatedWallTime(m: int, local: int -> LocalTime) {
    var at := local(m);
    var shift := local(m - 4 * 3600).utcOffset - at.utcOffset;
    shift > 0 && local(m - shift).Wall() == at.Wall()
  }

  predicate IsBoundary(m: int) {
    m % 60 == 0
  }

  // ---------- wall clocks tell minutes apart ----------

  lemma WallIsMinuteCount(zone: Zone, t: int, u: int)
    ensures LocalAt(zone, t).Wall() == LocalAt(zone, u).Wall()
            <==> (t + zone(t)) / 60 == (u + zone(u)) / 60
  {
    hide Civil;
    hide ValidDate;
    hide NewYear;
    hide MonthStart;
    var s, r := t + zone(t), u + zone(u);
    MinutesAgree(s, r);
    CivilIsDate(s / SECS_PER_DAY);
    CivilIsDate(r / SECS_PER_DAY);
  }

  lemma MinutesAgree(s: int, r: int)
    ensures s / 60 == r / 60 <==>
            s / SECS_PER_DAY == r / SECS_PER_DAY
            && s % SECS_PER_DAY / 3600 == r % SECS_PER_DAY / 3600
            && s % SECS_PER_DAY / 60 % 60 == r % SECS_PER_DAY / 60 % 60
  {
    MinuteOfDay(s);
    MinuteOfDay(r);
  }

  /** The repeat test, in terms of offsets and minute counts. */
  lemma RepeatedMeans(zone: Zone, m: int)
    ensures var shift := zone(m - LOOK_BACK) - zone(m);
            IsRepeatedWallTime(m, Local(zone)) <==>
            shift > 0 && (m - shift + zone(m - shift)) / 60 == (m + zone(m)) / 60
  {
    hide Civil;
    WallIsMinuteCount(zone, m - (zone(m - LOOK_BACK) - zone(m)), m);
  }

  lemma MinuteOfDay(s: int)
    ensures s / 60 == s / SECS_PER_DAY * 1440 + s % SECS_PER_DAY / 60
    ensures s % SECS_PER_DAY / 60 == s % SECS_PER_DAY / 3600 * 60 + s % SECS_PER_DAY / 60 % 60
    ensures 0 <= s % SECS_PER_DAY / 60 < 1440
  {
    SecondOfDay(s);
    HourAndMinute(s % SECS_PER_DAY);
  }

  // ---------- zones that change rarely, on the minute, by whole minutes ----------

  const LOOK_BACK := 4 * 3600

  predicate IsTransition(zone: Zone, t: int) {
    zone(t - 1) != zone(t)
  }

  /** How far the wall clock is put back at `t` (negative: forward). */
  function Fall(zone: Zone, t: int): int {
    zone(t - 1) - zone(t)
  }

  ghost predicate Piecewise(zone: Zone) {
    && (forall t | IsTransition(zone, t) ::
          IsBoundary(t) && Fall(zone, t) % 60 == 0 && Fall(zone, t) <= LOOK_BACK)
    && (forall t, u | IsTransition(zone, t) && IsTransition(zone, u) && t < u :: u - t > 2 * LOOK_BACK)
  }

  lemma {:induction false} NoTransitionNoChange(zone: Zone, a: int, b: int)
    requires a <= b && forall t | a < t <= b :: !IsTransition(zone, t)
    ensures zone(a) == zone(b)
    decreases b - a
  {
    if a < b {
      assert !IsTransition(zone, b);
      NoTransitionNoChange(zone, a, b - 1);
    }
  }

  /** Within the look-back there is at most one transition, and the offsets either side tell it. */
  lemma OneTransition(zone: Zone, a: int, t: int, b: int)
    requires Piecewise(zone) && IsTransition(zone, t) && a < t <= b && b - a <= LOOK_BACK
    ensures zone(a) - zone(b) == Fall(zone, t)
  {
    forall u | a < u <= b && u != t ensures !IsTransition(zone, u) {
    }
    NoTransitionNoChange(zone, a, t - 1);
    NoTransitionNoChange(zone, t, b);
  }

  /**
   How far the wall clock of any earlier minute can reach: not up to the
   current minute, except for the stretch a recent fall-back repeats.
   */
  lemma {:induction false} EarlierMinutesReadLess(zone: Zone, x: int, m: int) returns (t: int)
    requires Piecewise(zone) && IsBoundary(x) && IsBoundary(m) && x < m
    ensures || x + zone(x) <= m + zone(m) - 60
            || (IsTransition(zone, t) && x < t <= m && m - LOOK_BACK < t
                && x + zone(x) <= m + zone(m) - 60 + Fall(zone, t) - (m - t))
    decreases m - x
  {
    t := m;
    var p := m - 60;
    forall u | p < u < m ensures !IsTransition(zone, u) {
    }
    NoTransitionNoChange(zone, p, m - 1);
    if x < p {
      var s := EarlierMinutesReadLess(zone, x, p);
      if !IsTransition(zone, m) && IsTransition(zone, s) {
        t := s;
      }
    }
  }

  /** Local readings drift from each other by whole minutes only. */
  lemma {:induction false} OffsetsAgreeMod60(zone: Zone, a: int, b: int)
    requires Piecewise(zone) && a <= b
    ensures (zone(b) - zone(a)) % 60 == 0
    decreases b - a
  {
    if a < b {
      OffsetsAgreeMod60(zone, a, b - 1);
      if IsTransition(zone, b) {
        assert Fall(zone, b) % 60 == 0;
      }
    }
  }

  lemma SameMinuteSameReading(zone: Zone, x: int, m: int)
    requires Piecewise(zone) && IsBoundary(x) && IsBoundary(m) && x <= m
    requires (x + zone(x)) / 60 == (m + zone(m)) / 60
    ensures x + zone(x) == m + zone(m)
  {
    OffsetsAgreeMod60(zone, x, m);
    MultipleApart(x + zone(x), m + zone(m));
  }

  lemma MultipleApart(a: int, b: int)
    requires (b - a) % 60 == 0 && a / 60 == b / 60
    ensures a == b
  {
  }

  // ---------- main results ----------

  /** The earlier minute that reads the same as `m`, if `m` is in a repeated stretch. */
  function FirstTimeRound(zone: Zone, m: int): int {
    m - (zone(m - LOOK_BACK) - zone(m))
  }

  lemma RepeatedHasEarlierTwin(zone: Zone, m: int) returns (t: int)
    requires Piecewise(zone) && IsBoundary(m)
    requires IsRepeatedWallTime(m, Local(zone))
    ensures IsTransition(zone, t) && m - LOOK_BACK < t <= m && FirstTimeRound(zone, m) < t
    ensures var x := FirstTimeRound(zone, m);
            IsBoundary(x) && m - LOOK_BACK <= x < m && x + zone(x) == m + zone(m)
  {
    hide LocalAt;
    hide IsRepeatedWallTime;
    var a := m - LOOK_BACK;
    RepeatedMeans(zone, m);
    if forall u | a < u <= m :: !IsTransition(zone, u) {
      NoTransitionNoChange(zone, a, m);
    }
    t :| a < t <= m && IsTransition(zone, t);
    OneTransition(zone, a, t, m);
    var x := m - Fall(zone, t);
    if x >= t {
      forall u | x < u <= m ensures !IsTransition(zone, u) {
      }
      NoTransitionNoChange(zone, x, m);
      SameMinuteSameReading(zone, x, m);
    }
    OneTransition(zone, x, t, m);
  }

  lemma EarlierTwinIsRepeated(zone: Zone, x: int, m: int)
    requires Piecewise(zone) && IsBoundary(x) && IsBoundary(m) && x < m
    requires LocalAt(zone, x).Wall() == LocalAt(zone, m).Wall()
    ensures IsRepeatedWallTime(m, Local(zone)) && FirstTimeRound(zone, m) == x
  {
    hide LocalAt;
    hide IsRepeatedWallTime;
    WallIsMinuteCount(zone, x, m);
    RepeatedMeans(zone, m);
    SameMinuteSameReading(zone, x, m);
    var t := EarlierMinutesReadLess(zone, x, m);
    var d := Fall(zone, t);
    OneTransition(zone, m - LOOK_BACK, t, m);
    assert m - d < t;
    OneTransition(zone, m - d, t, m);
    if x != m - d {
      assert IsBoundary(m - d);
      if x < m - d {
        TwinsBeforeTransition(zone, x, m - d, t);
      } else {
        TwinsBeforeTransition(zone, m - d, x, t);
      }
    }
  }

  /** No two minutes just before a transition read the same. */
  lemma TwinsBeforeTransition(zone: Zone, x: int, y: int, t: int)
    requires Piecewise(zone) && IsTransition(zone, t)
    requires IsBoundary(x) && IsBoundary(y) && x < y < t && t - LOOK_BACK <= y
    ensures x + zone(x) != y + zone(y)
  {
    var s := EarlierMinutesReadLess(zone, x, y);
    assert !IsTransition(zone, s) || !(y - LOOK_BACK < s <= y);
  }

  /**
   A boundary is skipped as repeated exactly when an earlier minute showed
   the same local date and time; that minute is unique and not itself repeated.
   */
  lemma RepeatedIffSeenBefore(zone: Zone, m: int)
    requires Piecewise(zone) && IsBoundary(m)
    ensures IsRepeatedWallTime(m, Local(zone)) <==>
            exists x :: IsBoundary(x) && x < m && LocalAt(zone, x).Wall() == LocalAt(zone, m).Wall()
    ensures IsRepeatedWallTime(m, Local(zone)) ==>
              !IsRepeatedWallTime(FirstTimeRound(zone, m), Local(zone))
  {
    if IsRepeatedWallTime(m, Local(zone)) {
      var t := RepeatedHasEarlierTwin(zone, m);
      var x := FirstTimeRound(zone, m);
      WallIsMinuteCount(zone, x, m);
      assert IsBoundary(x) && x < m && LocalAt(zone, x).Wall() == LocalAt(zone, m).Wall();
      if IsRepeatedWallTime(x, Local(zone)) {
        var u := RepeatedHasEarlierTwin(zone, x);
      }
    } else if x :| IsBoundary(x) && x < m && LocalAt(zone, x).Wall() == LocalAt(zone, m).Wall() {
      EarlierTwinIsRepeated(zone, x, m);
    }
  }

  /** Of all boundaries showing one local minute, exactly the earliest is not repeated. */
  lemma ExactlyOneCounts(zone: Zone, m: int) returns (first: int)
    requires Piecewise(zone) && IsBoundary(m)
    ensures IsBoundary(first) && first <= m && LocalAt(zone, first).Wall() == LocalAt(zone, m).Wall()
    ensures forall x | IsBoundary(x) && LocalAt(zone, x).Wall() == LocalAt(zone, m).Wall() ::
              first <= x && (IsRepeatedWallTime(x, Local(zone)) <==> x != first)
  {
    RepeatedIffSeenBefore(zone, m);
    first := m;
    if IsRepeatedWallTime(m, Local(zone)) {
      var t := RepeatedHasEarlierTwin(zone, m);
      first := FirstTimeRound(zone, m);
      WallIsMinuteCount(zone, first, m);
      RepeatedIffSeenBefore(zone, first);
    }
    forall x | IsBoundary(x) && LocalAt(zone, x).Wall() == LocalAt(zone, m).Wall()
      ensures first <= x && (IsRepeatedWallTime(x, Local(zone)) <==> x != first)
    {
      RepeatedIffSeenBefore(zone, x);
    }
  }

  /** With the offset it had four hours before, no minute is the second time round. */
  lemma QuietIsNotRepeated(zone: Zone, m: int)
    requires zone(m - LOOK_BACK) == zone(m)
    ensures !IsRepeatedWallTime(m, Local(zone))
  {
  }
}
