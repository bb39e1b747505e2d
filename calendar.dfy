/** Proleptic Gregorian date-times as Python's `datetime.datetime` holds them
    (years 1 to 9999, no time zone, no microseconds), the ordinal day numbering
    behind `toordinal`, and the `- timedelta(minutes=30)` step of the query handler. */
module Calendar {
  import opened Wrappers

  datatype DateTime = DateTime(year: int, month: int, day: int, hour: int, minute: int, second: int)

  const MinYear := 1
  const MaxYear := 9999
  const SecondsPerDay := 86400
  const HalfHour := 1800

  predicate IsLeapYear(y: int) {
    y % 4 == 0 && (y % 100 != 0 || y % 400 == 0)
  }

  function DaysInYear(y: int): int {
    if IsLeapYear(y) then 366 else 365
  }

  function DaysInMonth(y: int, m: int): int {
    if m == 2 then (if IsLeapYear(y) then 29 else 28)
    else if m == 4 || m == 6 || m == 9 || m == 11 then 30
    else 31
  }

  predicate ValidDate(y: int, m: int, d: int) {
    MinYear <= y <= MaxYear && 1 <= m <= 12 && 1 <= d <= DaysInMonth(y, m)
  }

  /** What the `datetime` constructor accepts. */
  predicate Valid(t: DateTime) {
    && ValidDate(t.year, t.month, t.day)
    && 0 <= t.hour < 24
    && 0 <= t.minute < 60
    && 0 <= t.second < 60
  }

  /** Days in the years before `y`, as the closed form Python's `_days_before_year` uses. */
  function DaysBeforeYear(y: int): int
    requires y >= 1
  {
    var p := y - 1;
    p * 365 + p / 4 - p / 100 + p / 400
  }

  /** Days in the months of year `y` before month `m`. */
  function DaysBeforeMonth(y: int, m: int): int
    requires 1 <= m <= 12
  {
    var table := [0, 31, 59, 90, 120, 151, 181, 212, 243, 273, 304, 334];
    table[m - 1] + (if m > 2 && IsLeapYear(y) then 1 else 0)
  }

  /** Day number with 0001-01-01 as day 1 (Python's `toordinal`). */
  function Ordinal(y: int, m: int, d: int): int
    requires y >= 1 && 1 <= m <= 12
  {
    DaysBeforeYear(y) + DaysBeforeMonth(y, m) + d
  }

  /** Seconds elapsed since 0001-01-01 00:00:00: the reference timeline on which
      Python's `datetime` arithmetic is defined. */
  function Seconds(t: DateTime): int
    requires Valid(t)
  {
    (Ordinal(t.year, t.month, t.day) - 1) * SecondsPerDay + t.hour * 3600 + t.minute * 60 + t.second
  }

  /** `t - timedelta(minutes=30)`, written as the borrow from minutes into hours,
      days, months and years. `None` is the `OverflowError` Python raises when the
      result would fall before 0001-01-01 00:00:00. */
  function MinusHalfHour(t: DateTime): (r: Option<DateTime>)
    requires Valid(t)
    ensures r.None? <==> t.year == MinYear && t.month == 1 && t.day == 1 && t.hour == 0 && t.minute < 30
    ensures r.Some? ==> Valid(r.value)
  {
    if t.minute >= 30 then Some(t.(minute := t.minute - 30))
    else if t.hour > 0 then Some(t.(hour := t.hour - 1, minute := t.minute + 30))
    else if t.day > 1 then Some(t.(day := t.day - 1, hour := 23, minute := t.minute + 30))
    else if t.month > 1 then
      Some(t.(month := t.month - 1, day := DaysInMonth(t.year, t.month - 1), hour := 23, minute := t.minute + 30))
    else if t.year > MinYear then
      Some(DateTime(t.year - 1, 12, 31, 23, t.minute + 30, t.second))
    else None
  }

  // ---------------------------------------------------------------------------
  // Facts about the day numbering

  lemma DaysBeforeYearStep(y: int)
    requires y >= 1
    ensures DaysBeforeYear(y + 1) == DaysBeforeYear(y) + DaysInYear(y)
  {
    var p := y - 1;
    assert y / 4 == p / 4 + (if y % 4 == 0 then 1 else 0);
    assert y / 100 == p / 100 + (if y % 100 == 0 then 1 else 0);
    assert y / 400 == p / 400 + (if y % 400 == 0 then 1 else 0);
  }

  lemma {:induction false} DaysBeforeYearMonotone(a: int, b: int)
    requires 1 <= a <= b
    ensures DaysBeforeYear(a) + 365 * (b - a) <= DaysBeforeYear(b)
    decreases b - a
  {
    if a < b {
      DaysBeforeYearMonotone(a, b - 1);
      DaysBeforeYearStep(b - 1);
    }
  }

  lemma DaysBeforeMonthStep(y: int, m: int)
    requires 1 <= m < 12
    ensures DaysBeforeMonth(y, m + 1) == DaysBeforeMonth(y, m) + DaysInMonth(y, m)
  {
  }

  lemma DaysBeforeMonthBounds(y: int, m: int)
    requires 1 <= m <= 12
    ensures DaysBeforeMonth(y, m) + DaysInMonth(y, m) <= DaysInYear(y)
    ensures m < 12 ==> DaysBeforeMonth(y, m) + DaysInMonth(y, m) == DaysBeforeMonth(y, m + 1)
    ensures m == 12 ==> DaysBeforeMonth(y, m) + DaysInMonth(y, m) == DaysInYear(y)
  {
  }

  /** Within one year, the day of the year is between 1 and the year's length,
      and distinct (month, day) pairs have distinct days of the year. */
  lemma DayOfYearInjective(y: int, m1: int, d1: int, m2: int, d2: int)
    requires ValidDate(y, m1, d1) && ValidDate(y, m2, d2)
    requires DaysBeforeMonth(y, m1) + d1 == DaysBeforeMonth(y, m2) + d2
    ensures m1 == m2 && d1 == d2
  {
    if m1 < m2 {
      MonthsAreOrdered(y, m1, m2);
    } else if m2 < m1 {
      MonthsAreOrdered(y, m2, m1);
    }
  }

  lemma MonthsAreOrdered(y: int, a: int, b: int)
    requires 1 <= a < b <= 12
    ensures DaysBeforeMonth(y, a) + DaysInMonth(y, a) <= DaysBeforeMonth(y, b)
  {
  }

  lemma DayOfYearBounds(y: int, m: int, d: int)
    requires ValidDate(y, m, d)
    ensures 1 <= DaysBeforeMonth(y, m) + d <= DaysInYear(y)
  {
    DaysBeforeMonthBounds(y, m);
  }

  /** Distinct valid dates have distinct ordinals. */
  lemma OrdinalInjective(y1: int, m1: int, d1: int, y2: int, m2: int, d2: int)
    requires ValidDate(y1, m1, d1) && ValidDate(y2, m2, d2)
    requires Ordinal(y1, m1, d1) == Ordinal(y2, m2, d2)
    ensures y1 == y2 && m1 == m2 && d1 == d2
  {
    DayOfYearBounds(y1, m1, d1);
    DayOfYearBounds(y2, m2, d2);
    if y1 < y2 {
      DaysBeforeYearStep(y1);
      DaysBeforeYearMonotone(y1 + 1, y2);
    } else if y2 < y1 {
      DaysBeforeYearStep(y2);
      DaysBeforeYearMonotone(y2 + 1, y1);
    } else {
      DayOfYearInjective(y1, m1, d1, m2, d2);
    }
  }

  /** The seconds timeline identifies valid date-times: two valid date-times at
      the same second are the same. */
  lemma SecondsInjective(t1: DateTime, t2: DateTime)
    requires Valid(t1) && Valid(t2)
    requires Seconds(t1) == Seconds(t2)
    ensures t1 == t2
  {
    var o1, o2 := Ordinal(t1.year, t1.month, t1.day), Ordinal(t2.year, t2.month, t2.day);
    var c1, c2 := t1.hour * 3600 + t1.minute * 60 + t1.second, t2.hour * 3600 + t2.minute * 60 + t2.second;
    assert 0 <= c1 < SecondsPerDay && 0 <= c2 < SecondsPerDay;
    assert o1 == o2;
    OrdinalInjective(t1.year, t1.month, t1.day, t2.year, t2.month, t2.day);
    assert c1 == c2;
  }

  /** Every valid date-time lies at or after the start of the timeline. */
  lemma SecondsNonNegative(t: DateTime)
    requires Valid(t)
    ensures Seconds(t) >= 0
    ensures Seconds(t) < HalfHour <==> t.year == 1 && t.month == 1 && t.day == 1 && t.hour == 0 && t.minute < 30
  {
    DaysBeforeYearMonotone(1, t.year);
    if t.year > 1 || t.month > 1 || t.day > 1 {
      assert Ordinal(t.year, t.month, t.day) >= 2;
    }
  }

  /** The back-step is `timedelta` subtraction: its result is a valid date-time
      exactly 1800 seconds earlier, and it fails exactly when no valid date-time
      lies that far back. */
  lemma HalfHourEarlier(t: DateTime)
    requires Valid(t)
    ensures MinusHalfHour(t).Some? <==> Seconds(t) >= HalfHour
    ensures MinusHalfHour(t).Some? ==>
      Valid(MinusHalfHour(t).value) && Seconds(MinusHalfHour(t).value) == Seconds(t) - HalfHour
  {
    SecondsNonNegative(t);
    if t.minute < 30 && t.hour == 0 && t.day == 1 {
      if t.month > 1 {
        DaysBeforeMonthStep(t.year, t.month - 1);
      } else if t.year > MinYear {
        DaysBeforeYearStep(t.year - 1);
        DaysBeforeMonthBounds(t.year - 1, 12);
      }
    }
  }

  /** ... and it is the only one: any valid date-time 1800 seconds before `t` is the
      back-step's result. */
  lemma HalfHourEarlierUnique(t: DateTime, e: DateTime)
    requires Valid(t) && Valid(e)
    requires Seconds(e) == Seconds(t) - HalfHour
    ensures MinusHalfHour(t) == Some(e)
  {
    SecondsNonNegative(e);
    HalfHourEarlier(t);
    SecondsInjective(MinusHalfHour(t).value, e);
  }
}
