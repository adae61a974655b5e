/**
 The proleptic Gregorian calendar and the daemon's fallback conversion from
 epoch seconds to it (`LocalTime::from_utc`).

 The specification side counts days year by year and month by month from
 1970-01-01; it shares nothing with the closed-form arithmetic of the code.
 */
module Calendar {

  type i64 = x: int | -0x8000_0000_0000_0000 <= x < 0x8000_0000_0000_0000

  const MIN_I32 := -0x8000_0000
  const MAX_I32 := 0x7FFF_FFFF
  const SECS_PER_DAY := 86_400

  // ---------- the calendar, from first principles ----------

  datatype Date = Date(year: int, month: int, day: int)

  predicate IsLeap(y: int) {
    y % 4 == 0 && (y % 100 != 0 || y % 400 == 0)
  }

  function DaysInMonth(y: int, m: int): int {
    if m == 2 then (if IsLeap(y) then 29 else 28)
    else if m == 4 || m == 6 || m == 9 || m == 11 then 30
    else 31
  }

  predicate ValidDate(d: Date) {
    1 <= d.month <= 12 && 1 <= d.day <= DaysInMonth(d.year, d.month)
  }

  function YearLength(y: int): int {
    if IsLeap(y) then 366 else 365
  }

  /** Days from 1970-01-01 to January 1st of `y`, one year at a time. */
  ghost function NewYear(y: int): int
    decreases if y < 1970 then 1970 - y else y - 1970
  {
    if y == 1970 then 0
    else if y > 1970 then NewYear(y - 1) + YearLength(y - 1)
    else NewYear(y + 1) - YearLength(y)
  }

  /** Days from January 1st to the first of month `m` of year `y`. */
  ghost function MonthStart(y: int, m: int): int
    decreases m
  {
    if m <= 1 then 0 else MonthStart(y, m - 1) + DaysInMonth(y, m - 1)
  }

  ghost function DayNumber(d: Date): int {
    NewYear(d.year) + MonthStart(d.year, d.month) + d.day - 1
  }

  /** The day after `d` on a wall calendar. */
  function Tomorrow(d: Date): Date {
    if d.day < DaysInMonth(d.year, d.month) then d.(day := d.day + 1)
    else if d.month < 12 then Date(d.year, d.month + 1, 1)
    else Date(d.year + 1, 1, 1)
  }

  // ---------- facts about the calendar ----------

  function Leaps(y: int): int {
    y / 4 - y / 100 + y / 400
  }

  lemma LeapsStep(y: int)
    ensures Leaps(y) == Leaps(y - 1) + (if IsLeap(y) then 1 else 0)
  {
    assert y / 4 == (y - 1) / 4 + (if y % 4 == 0 then 1 else 0);
    assert y / 100 == (y - 1) / 100 + (if y % 100 == 0 then 1 else 0);
    assert y / 400 == (y - 1) / 400 + (if y % 400 == 0 then 1 else 0);
    Multiples(y % 400, y / 400);
  }

  /** Whole multiples shift a quotient and leave its remainder alone. */
  lemma Multiples(x: int, q: int)
    ensures (4 * q + x) / 4 == q + x / 4 && (100 * q + x) / 100 == q + x / 100
    ensures (400 * q + x) / 400 == q + x / 400
    ensures (400 * q + x) % 100 == x % 100 && (400 * q + x) % 4 == x % 4
  {
    Fours(x, q);
    Fours(x, 100 * q);
    Hundreds(x, q);
    Hundreds(x, 4 * q);
    FourHundreds(x, q);
  }

  lemma Fours(x: int, q: int)
    ensures (4 * q + x) / 4 == q + x / 4 && (4 * q + x) % 4 == x % 4
  {
  }

  lemma Hundreds(x: int, q: int)
    ensures (100 * q + x) / 100 == q + x / 100 && (100 * q + x) % 100 == x % 100
  {
  }

  lemma FourHundreds(x: int, q: int)
    ensures (400 * q + x) / 400 == q + x / 400 && (400 * q + x) % 400 == x % 400
  {
  }

  lemma {:induction false} NewYearClosed(y: int)
    ensures NewYear(y) == 365 * (y - 1970) + Leaps(y - 1) - 477
    decreases if y < 1970 then 1970 - y else y - 1970
  {
    if y > 1970 {
      NewYearClosed(y - 1);
      LeapsStep(y - 1);
    } else if y < 1970 {
      NewYearClosed(y + 1);
      LeapsStep(y);
    }
  }

  lemma NewYearNext(y: int)
    ensures NewYear(y + 1) == NewYear(y) + YearLength(y)
  {
    NewYearClosed(y);
    NewYearClosed(y + 1);
    LeapsStep(y);
  }

  lemma {:induction false} NewYearMonotone(y: int, z: int)
    requires y <= z
    ensures NewYear(z) >= NewYear(y) + 365 * (z - y)
    decreases z - y
  {
    if y < z {
      NewYearMonotone(y, z - 1);
      NewYearNext(z - 1);
    }
  }

  /** Day of the year on which each month starts, tabulated. */
  lemma MonthStarts(y: int)
    ensures var k := if IsLeap(y) then 1 else 0;
            && MonthStart(y, 1) == 0 && MonthStart(y, 2) == 31
            && MonthStart(y, 3) == 59 + k && MonthStart(y, 4) == 90 + k
            && MonthStart(y, 5) == 120 + k && MonthStart(y, 6) == 151 + k
            && MonthStart(y, 7) == 181 + k && MonthStart(y, 8) == 212 + k
            && MonthStart(y, 9) == 243 + k && MonthStart(y, 10) == 273 + k
            && MonthStart(y, 11) == 304 + k && MonthStart(y, 12) == 334 + k
  {
    assert MonthStart(y, 3) == 59 + (if IsLeap(y) then 1 else 0);
    assert MonthStart(y, 5) == MonthStart(y, 3) + 61;
    assert MonthStart(y, 7) == MonthStart(y, 5) + 61;
    assert MonthStart(y, 9) == MonthStart(y, 7) + 62;
    assert MonthStart(y, 11) == MonthStart(y, 9) + 61;
  }

  lemma DayOfYearBounds(d: Date)
    requires ValidDate(d)
    ensures NewYear(d.year) <= DayNumber(d) < NewYear(d.year) + YearLength(d.year)
  {
    MonthStarts(d.year);
  }

  /** Every step on the wall calendar is one day. */
  lemma TomorrowIsNextDay(d: Date)
    requires ValidDate(d)
    ensures ValidDate(Tomorrow(d))
    ensures DayNumber(Tomorrow(d)) == DayNumber(d) + 1
  {
    MonthStarts(d.year);
    NewYearNext(d.year);
  }

  /** Two valid dates with the same day number are the same date. */
  lemma DateUnique(d: Date, e: Date)
    requires ValidDate(d) && ValidDate(e)
    requires DayNumber(d) == DayNumber(e)
    ensures d == e
  {
    hide NewYear;
    DayOfYearBounds(d);
    DayOfYearBounds(e);
    if d.year < e.year {
      NewYearNext(d.year);
      NewYearMonotone(d.year + 1, e.year);
    } else if e.year < d.year {
      NewYearNext(e.year);
      NewYearMonotone(e.year + 1, d.year);
    }
    MonthStarts(d.year);
  }

  // ---------- the code ----------

  /** A moment in wall-clock terms; `weekday` 0 is Sunday. */
  datatype LocalTime = LocalTime(
    year: int, month: int, day: int, weekday: int, hour: int, minute: int, utcOffset: int)
  {
    function CivilDate(): Date {
      Date.Date(year, month, day)
    }

    /** The reading of a clock on the wall: everything but weekday and offset. */
    function Wall(): (int, int, int, int, int) {
      (year, month, day, hour, minute)
    }
  }

  function SaturatingAdd(a: i64, b: i64): i64 {
    if a + b < -0x8000_0000_0000_0000 then -0x8000_0000_0000_0000
    else if a + b >= 0x8000_0000_0000_0000 then 0x7FFF_FFFF_FFFF_FFFF
    else a + b
  }

  function SaturatingMul(a: i64, b: i64): i64 {
    if a * b < -0x8000_0000_0000_0000 then -0x8000_0000_0000_0000
    else if a * b >= 0x8000_0000_0000_0000 then 0x7FFF_FFFF_FFFF_FFFF
    else a * b
  }

  /** `u32::try_from(v).unwrap_or(0)`. */
  function Small(v: int): int {
    if 0 <= v < 0x1_0000_0000 then v else 0
  }

  function ClampI32(y: int): int {
    if y < MIN_I32 then MIN_I32 else if y > MAX_I32 then MAX_I32 else y
  }

  /** The year within its 400-year era (March first), from the day within it. */
  function YearOfEra(doe: int): int {
    (doe - doe / 1460 + doe / 36_524 - doe / 146_096) / 365
  }

  function FromUtc(t: i64): LocalTime {
    var days: i64 := t / SECS_PER_DAY;
    var secs := t % SECS_PER_DAY;
    var z := SaturatingAdd(days, 719_468);
    var era: i64 := z / 146_097;
    var doe := z % 146_097;
    var yoe := YearOfEra(doe);
    var doy := doe - (365 * yoe + yoe / 4 - yoe / 100);
    var mp := (5 * doy + 2) / 153;
    var month := if mp < 10 then mp + 3 else mp - 9;
    YearOfEraBounds(doe);
    var year := SaturatingAdd(SaturatingAdd(yoe, SaturatingMul(era, 400)),
                              if month <= 2 then 1 else 0);
    LocalTime(ClampI32(year), Small(month), Small(doy - (153 * mp + 2) / 5 + 1),
              Small(SaturatingAdd(days, 4) % 7), Small(secs / 3600), Small(secs / 60 % 60), 0)
  }

  /** The date `n` days after 1970-01-01: `FromUtc`'s date arithmetic without its limits. */
  function Civil(n: int): Date {
    var z := n + 719_468;
    var yoe := YearOfEra(z % 146_097);
    ShiftedDate(yoe + z / 146_097 * 400, z % 146_097 - EraDays(yoe))
  }

  /** The date `doy` days after March 1st of year `y`. */
  function ShiftedDate(y: int, doy: int): Date {
    var mp := (5 * doy + 2) / 153;
    var month := if mp < 10 then mp + 3 else mp - 9;
    Date(y + (if month <= 2 then 1 else 0), month, doy - (153 * mp + 2) / 5 + 1)
  }

  // ---------- the code meets the calendar ----------

  /** Days from March 1st of era year 0 to March 1st of era year `y`. */
  function EraDays(y: int): int {
    365 * y + y / 4 - y / 100 + y / 400
  }

  lemma YearOfEraBounds(doe: int)
    requires 0 <= doe < 146_097
    ensures 0 <= YearOfEra(doe) < 400
    ensures EraDays(YearOfEra(doe)) <= doe < EraDays(YearOfEra(doe) + 1)
  {
    if doe < 146_096 {
      var y := YearOfEra(doe);
      var a := YearOfEraParts(doe, y);
      YearStarts(doe / 36_524, a, y % 4, y);
    }
  }

  /** The four-year cycle of the year found, and where in it the day lies. */
  lemma YearOfEraParts(doe: int, y: int) returns (a: int)
    requires 0 <= doe < 146_096 && y == YearOfEra(doe)
    ensures a == y / 4 && 0 <= y < 400
    ensures var c, b := doe / 36_524, y % 4;
            && 0 <= c < 4 && 25 * c <= a < 25 * c + 25
            && 1461 * a + 365 * b - c <= doe < 1461 * a + 365 * (b + 1) - c + (if b == 3 then 1 else 0)
            && (a == 25 * c + 24 && b == 3 ==> doe < 36_524 * (c + 1))
  {
    var c, q := doe / 36_524, doe / 1460;
    a := y / 4;
    var b := y % 4;
    var s := doe - q + c - 365 * y;
    assert 0 <= s < 365;
    assert doe == 1460 * a + 365 * b + s + q - c;
    assert a - 1 < q <= a || (b == 3 && q == a + 1);
    assert 25 * c <= a < 25 * c + 25;
  }

  /** Where the year `b` years into cycle `a` of century `c` starts, and the next one. */
  lemma YearStarts(c: int, a: int, b: int, y: int)
    requires 0 <= c < 4 && 25 * c <= a < 25 * c + 25 && 0 <= b < 4 && y == 4 * a + b
    ensures EraDays(y) == 1461 * a + 365 * b - c
    ensures EraDays(y + 1)
            == if b < 3 then 1461 * a + 365 * (b + 1) - c
               else if a < 25 * c + 24 then 1461 * (a + 1) - c
               else if c < 3 then 36_524 * (c + 1) else 146_097
  {
    assert y / 100 == c && y / 400 == 0;
    if b < 3 {
      assert (y + 1) / 4 == a && (y + 1) / 100 == c;
    } else if a < 25 * c + 24 {
      assert (y + 1) / 4 == a + 1 && (y + 1) / 100 == c;
    } else {
      assert y + 1 == 100 * (c + 1);
    }
  }

  lemma MonthOfShiftedYear(doy: int)
    requires 0 <= doy < 366
    ensures var mp := (5 * doy + 2) / 153;
            0 <= mp <= 11 && (153 * mp + 2) / 5 <= doy < (153 * (mp + 1) + 2) / 5
  {
  }

  lemma ShiftedDateIsDate(y: int, doy: int)
    requires 0 <= doy < YearLength(y + 1)
    ensures ValidDate(ShiftedDate(y, doy))
    ensures DayNumber(ShiftedDate(y, doy)) == NewYear(y + 1) - 306 + doy
  {
    MonthOfShiftedYear(doy);
    NewYearNext(y);
    var d := ShiftedDate(y, doy);
    MonthStarts(d.year);
    var mp := (5 * doy + 2) / 153;
    assert MonthStart(d.year, d.month) + (if mp < 10 then NewYear(y) - NewYear(y + 1) else 0)
        == (153 * mp + 2) / 5 - 306;
  }

  lemma CivilIsDate(n: int)
    ensures ValidDate(Civil(n)) && DayNumber(Civil(n)) == n
  {
    hide ShiftedDate;
    hide NewYear;
    hide MonthStart;
    hide YearOfEra;
    var z := n + 719_468;
    EraDate(n, z / 146_097, z % 146_097);
  }

  lemma EraDate(n: int, era: int, doe: int)
    requires 0 <= doe < 146_097 && n + 719_468 == 146_097 * era + doe
    ensures var d := ShiftedDate(YearOfEra(doe) + era * 400, doe - EraDays(YearOfEra(doe)));
            ValidDate(d) && DayNumber(d) == n
  {
    var yoe := YearOfEra(doe);
    YearOfEraBounds(doe);
    EraYear(era, yoe);
    ShiftedDateIsDate(yoe + era * 400, doe - EraDays(yoe));
  }

  /** How an era year sits in the calendar. */
  lemma EraYear(era: int, yoe: int)
    requires 0 <= yoe < 400
    ensures var y := yoe + era * 400;
            && NewYear(y + 1) == 146_097 * era + EraDays(yoe) - 719_162
            && EraDays(yoe + 1) - EraDays(yoe) == YearLength(y + 1)
  {
    hide NewYear;
    var y := yoe + era * 400;
    NewYearClosed(y + 1);
    Multiples(yoe, era);
    EraQuotients(era, yoe);
    EraQuotients(era, yoe + 1);
    LeapsStep(yoe + 1);
  }

  lemma EraQuotients(era: int, yoe: int)
    ensures var y := yoe + era * 400;
            && Leaps(y) == Leaps(yoe) + 97 * era
            && (IsLeap(y) <==> IsLeap(yoe))
  {
    var y := yoe + era * 400;
    Fours(yoe, 100 * era);
    Hundreds(yoe, 4 * era);
    FourHundreds(yoe, era);
  }

  // ---------- main results ----------

  /** The first second of the first year a 32-bit field holds, and the last second of the last. */
  const FIRST_INSTANT := -67_768_100_567_971_200
  const LAST_INSTANT := 67_767_976_233_532_799

  predicate YearFits(t: int) {
    FIRST_INSTANT <= t <= LAST_INSTANT
  }

  lemma InstantsOfYears()
    ensures NewYear(MIN_I32) * SECS_PER_DAY == FIRST_INSTANT
    ensures NewYear(MAX_I32 + 1) * SECS_PER_DAY == LAST_INSTANT + 1
  {
    hide NewYear;
    NewYearClosed(MIN_I32);
    NewYearClosed(MAX_I32 + 1);
  }

  /** The date computed for an instant lies in a 32-bit year exactly within that range of instants. */
  lemma YearFitsIff(t: int)
    ensures YearFits(t) <==> MIN_I32 <= Civil(t / SECS_PER_DAY).year <= MAX_I32
  {
    hide Civil;
    hide NewYear;
    hide MonthStart;
    InstantsOfYears();
    var d := Civil(t / SECS_PER_DAY);
    CivilIsDate(t / SECS_PER_DAY);
    DayOfYearBounds(d);
    YearOrder(d.year, MIN_I32);
    YearOrder(d.year, MAX_I32 + 1);
  }

  /** A whole year lies before or after the start of another. */
  lemma YearOrder(y: int, z: int)
    ensures y < z ==> NewYear(y) + YearLength(y) <= NewYear(z)
    ensures y >= z ==> NewYear(y) >= NewYear(z)
  {
    hide NewYear;
    if y < z {
      NewYearNext(y);
      NewYearMonotone(y + 1, z);
    } else {
      NewYearMonotone(z, y);
    }
  }

  /** Nothing in `from_utc` ever saturates; only the year is clamped. */
  lemma FromUtcIsCivil(t: i64)
    ensures var d := Civil(t / SECS_PER_DAY);
            && FromUtc(t).CivilDate() == d.(year := ClampI32(d.year))
            && FromUtc(t).weekday == (t / SECS_PER_DAY + 4) % 7
            && FromUtc(t).hour * 60 + FromUtc(t).minute == t % SECS_PER_DAY / 60
            && 0 <= FromUtc(t).hour < 24 && 0 <= FromUtc(t).minute < 60
            && FromUtc(t).utcOffset == 0
  {
    var n := t / SECS_PER_DAY;
    var z := n + 719_468;
    assert SaturatingAdd(n, 719_468) == z && SaturatingAdd(n, 4) == n + 4;
    var era, doe := z / 146_097, z % 146_097;
    NothingSaturates(era, doe);
    YearOfEraBounds(doe);
    CivilIsDate(n);
    HourAndMinute(t % SECS_PER_DAY);
  }

  lemma NothingSaturates(era: i64, doe: int)
    requires 0 <= doe < 146_097 && -0x1_0000_0000_0000 < era < 0x1_0000_0000_0000
    ensures var yoe := YearOfEra(doe);
            && 0 <= yoe < 400 && yoe / 400 == 0
            && forall k | k == 0 || k == 1 ::
                 SaturatingAdd(SaturatingAdd(yoe, SaturatingMul(era, 400)), k) == yoe + era * 400 + k
  {
    YearOfEraBounds(doe);
  }

  lemma HourAndMinute(secs: int)
    requires 0 <= secs < SECS_PER_DAY
    ensures 0 <= secs / 3600 < 24 && 0 <= secs / 60 % 60 < 60
    ensures secs / 3600 * 60 + secs / 60 % 60 == secs / 60
  {
    var h, r := secs / 3600, secs % 3600;
    assert secs / 60 == h * 60 + r / 60;
  }

  /**
   `from_utc` gives a date of the calendar, the only one with that day
   number, exactly for the instants whose year fits the field; for any other
   converting back gives another day.
   */
  lemma FromUtcInvertsTheCalendar(t: i64)
    ensures YearFits(t) ==> ValidDate(FromUtc(t).CivilDate())
    ensures YearFits(t) <==> DayNumber(FromUtc(t).CivilDate()) == t / SECS_PER_DAY
    ensures forall d | ValidDate(d) && DayNumber(d) == t / SECS_PER_DAY && MIN_I32 <= d.year <= MAX_I32 ::
              FromUtc(t).CivilDate() == d
  {
    var n := t / SECS_PER_DAY;
    FromUtcIsCivil(t);
    YearFitsIff(t);
    CivilIsDate(n);
    forall d | ValidDate(d) && DayNumber(d) == n ensures d == Civil(n) {
      DateUnique(d, Civil(n));
    }
    if !YearFits(t) {
      var d := Civil(n);
      ClampedDayDiffers(d, ClampI32(d.year));
    }
  }

  lemma ClampedDayDiffers(d: Date, y: int)
    requires ValidDate(d) && y != d.year
    ensures DayNumber(d.(year := y)) != DayNumber(d)
  {
    MonthStarts(d.year);
    MonthStarts(y);
    if y < d.year {
      NewYearMonotone(y, d.year);
    } else {
      NewYearMonotone(d.year, y);
    }
  }

  /** One day later is the next page of the calendar, and the next weekday. */
  lemma FromUtcNextDay(t: i64)
    requires YearFits(t) && YearFits(t + SECS_PER_DAY)
    ensures FromUtc(t + SECS_PER_DAY).CivilDate() == Tomorrow(FromUtc(t).CivilDate())
    ensures FromUtc(t + SECS_PER_DAY).weekday == (FromUtc(t).weekday + 1) % 7
    ensures FromUtc(t + SECS_PER_DAY).hour == FromUtc(t).hour
    ensures FromUtc(t + SECS_PER_DAY).minute == FromUtc(t).minute
  {
    hide FromUtc;
    hide Civil;
    FromUtcDay(t, t / SECS_PER_DAY);
    NextDayQuotient(t);
    FromUtcDay(t + SECS_PER_DAY, t / SECS_PER_DAY + 1);
    CivilNext(t / SECS_PER_DAY);
    NextWeekday(t / SECS_PER_DAY + 4);
    SameMinute(t);
  }

  lemma FromUtcDay(t: i64, n: int)
    requires n == t / SECS_PER_DAY && YearFits(t)
    ensures FromUtc(t).CivilDate() == Civil(n)
    ensures FromUtc(t).weekday == (n + 4) % 7
  {
    YearFitsIff(t);
    FromUtcIsCivil(t);
  }

  lemma NextWeekday(n: int)
    ensures (n + 1) % 7 == (n % 7 + 1) % 7
  {
  }

  lemma CivilNext(n: int)
    ensures Civil(n + 1) == Tomorrow(Civil(n))
  {
    CivilIsDate(n);
    CivilIsDate(n + 1);
    TomorrowIsNextDay(Civil(n));
    DateUnique(Civil(n + 1), Tomorrow(Civil(n)));
  }

  lemma NextDayQuotient(t: int)
    ensures (t + SECS_PER_DAY) / SECS_PER_DAY == t / SECS_PER_DAY + 1
    ensures (t + SECS_PER_DAY) % SECS_PER_DAY == t % SECS_PER_DAY
  {
  }

  lemma SameMinute(t: i64)
    requires t + SECS_PER_DAY < 0x8000_0000_0000_0000
    ensures FromUtc(t + SECS_PER_DAY).hour == FromUtc(t).hour
    ensures FromUtc(t + SECS_PER_DAY).minute == FromUtc(t).minute
  {
    NextDayQuotient(t);
  }

  /** The anchor: second 0 is Thursday, 1970-01-01 00:00. */
  lemma FromUtcEpoch()
    ensures FromUtc(0) == LocalTime(1970, 1, 1, 4, 0, 0, 0)
  {
    assert YearOfEra(135_080) == 369;
    assert 719_468 / 146_097 == 4 && 719_468 % 146_097 == 135_080;
  }

  /**
   "Seconds Since the Epoch", section 4.16 of the Base Definitions of
   POSIX.1-2017, from the broken-down fields (`yday` counts from January 1st).
   */
  function PosixSeconds(sec: int, min: int, hour: int, yday: int, year: int): int {
    sec + min * 60 + hour * 3600 + yday * 86_400 + (year - 70) * 31_536_000
    + (year - 69) / 4 * 86_400 - (year - 1) / 100 * 86_400 + (year + 299) / 400 * 86_400
  }

  lemma PosixFormulaInverts(t: i64)
    requires t >= 0 && YearFits(t)
    ensures var u := FromUtc(t);
            PosixSeconds(t % 60, u.minute, u.hour, MonthStart(u.year, u.month) + u.day - 1, u.year - 1900) == t
  {
    hide FromUtc;
    hide NewYear;
    hide MonthStart;
    hide Civil;
    hide YearFits;
    var u := FromUtc(t);
    FromUtcIsCivil(t);
    FromUtcInvertsTheCalendar(t);
    PosixDay(u.year, MonthStart(u.year, u.month) + u.day - 1);
    SecondOfDay(t);
  }

  lemma PosixDay(year: int, yday: int)
    ensures PosixSeconds(0, 0, 0, yday, year - 1900) == (NewYear(year) + yday) * 86_400
  {
    NewYearClosed(year);
    Multiples(year - 1, -492);
    Multiples(year - 1, -19);
    Multiples(year - 1, -4);
  }

  lemma SecondOfDay(t: int)
    ensures t == t / SECS_PER_DAY * SECS_PER_DAY + t % SECS_PER_DAY / 60 * 60 + t % 60
  {
    var q, r := t / SECS_PER_DAY, t % SECS_PER_DAY;
    Sixties(1440 * q, r);
    assert t == 60 * (1440 * q) + r;
  }

  lemma Sixties(k: int, r: int)
    ensures (60 * k + r) % 60 == r % 60
  {
  }
}
