/** The proleptic Gregorian calendar of .NET's `DateTime`: an instant is a
    count of 100-nanosecond ticks since 0001-01-01T00:00:00, and the
    calendar fields of a valid date-time determine that count. */
module Calendar {

  const TicksPerSecond: int := 10_000_000
  const SecondsPerDay: int := 86_400

  predicate IsLeapYear(year: int) {
    year % 4 == 0 && (year % 100 != 0 || year % 400 == 0)
  }

  function DaysInYear(year: int): int {
    if IsLeapYear(year) then 366 else 365
  }

  function DaysInMonth(year: int, month: int): int
    requires 1 <= month <= 12
  {
    if month == 2 then (if IsLeapYear(year) then 29 else 28)
    else if month == 4 || month == 6 || month == 9 || month == 11 then 30
    else 31
  }

  /** Days from 0001-01-01 to January 1 of `year`. */
  function DaysBeforeYear(year: int): int
    requires year >= 1
  {
    var y := year - 1;
    365 * y + y / 4 - y / 100 + y / 400
  }

  /** Days from January 1 to the first day of `month` (13 = next year). */
  function DaysBeforeMonth(year: int, month: int): (days: int)
    requires 1 <= month <= 13
    ensures days >= 0
  {
    if month == 1 then 0 else DaysBeforeMonth(year, month - 1) + DaysInMonth(year, month - 1)
  }

  /** A calendar date and time of day; `fraction` counts ticks within the
      second. */
  datatype CivilTime = CivilTime(year: int, month: int, day: int,
                                 hour: int, minute: int, second: int, fraction: int)

  /** What `DateTime` admits: years 1 to 9999, a day that exists in its
      month, a time of day below 24:00:00 and no leap second. */
  predicate ValidTime(t: CivilTime) {
    && 1 <= t.year <= 9999
    && 1 <= t.month <= 12
    && 1 <= t.day <= DaysInMonth(t.year, t.month)
    && 0 <= t.hour < 24 && 0 <= t.minute < 60 && 0 <= t.second < 60
    && 0 <= t.fraction < TicksPerSecond
  }

  function SecondOfDay(t: CivilTime): int {
    t.hour * 3600 + t.minute * 60 + t.second
  }

  function DayNumber(t: CivilTime): int
    requires ValidTime(t)
  {
    DaysBeforeYear(t.year) + DaysBeforeMonth(t.year, t.month) + t.day - 1
  }

  /** The instant of a valid calendar time, in ticks. */
  function Ticks(t: CivilTime): int
    requires ValidTime(t)
  {
    (DayNumber(t) * SecondsPerDay + SecondOfDay(t)) * TicksPerSecond + t.fraction
  }

  /** `new DateTime(year, 1, 1, 0, 0, 0, DateTimeKind.Utc)` in ticks. */
  function StartOfYear(year: int): int
    requires year >= 1
  {
    DaysBeforeYear(year) * SecondsPerDay * TicksPerSecond
  }

  /** Consecutive years are a year's length apart. */
  lemma DaysBeforeNextYear(year: int)
    requires year >= 1
    ensures DaysBeforeYear(year + 1) == DaysBeforeYear(year) + DaysInYear(year)
  {
    var y := year - 1;
    assert (y + 1) / 4 == y / 4 + (if year % 4 == 0 then 1 else 0);
    assert (y + 1) / 100 == y / 100 + (if year % 100 == 0 then 1 else 0);
    assert (y + 1) / 400 == y / 400 + (if year % 400 == 0 then 1 else 0);
  }

  /** The months of a year add up to the year's length. */
  lemma YearOfMonths(year: int)
    ensures DaysBeforeMonth(year, 13) == DaysInYear(year)
  {
    var feb := DaysInMonth(year, 2);
    assert DaysBeforeMonth(year, 2) == 31;
    assert DaysBeforeMonth(year, 3) == 31 + feb;
    assert DaysBeforeMonth(year, 4) == 62 + feb;
    assert DaysBeforeMonth(year, 5) == 92 + feb;
    assert DaysBeforeMonth(year, 6) == 123 + feb;
    assert DaysBeforeMonth(year, 7) == 153 + feb;
    assert DaysBeforeMonth(year, 8) == 184 + feb;
    assert DaysBeforeMonth(year, 9) == 215 + feb;
    assert DaysBeforeMonth(year, 10) == 245 + feb;
    assert DaysBeforeMonth(year, 11) == 276 + feb;
    assert DaysBeforeMonth(year, 12) == 306 + feb;
  }

  /** A month ends no later than the year does. */
  lemma {:induction false} MonthEndsInYear(year: int, month: int)
    requires 1 <= month <= 12
    ensures DaysBeforeMonth(year, month) + DaysInMonth(year, month) <= DaysInYear(year)
    decreases 12 - month
  {
    if month == 12 {
      YearOfMonths(year);
    } else {
      MonthEndsInYear(year, month + 1);
    }
  }

  /** Every valid calendar time lies in its own year: no earlier than
      January 1 of that year and before January 1 of the next. */
  lemma {:induction false} TicksWithinYear(t: CivilTime)
    requires ValidTime(t)
    ensures StartOfYear(t.year) <= Ticks(t) < StartOfYear(t.year + 1)
  {
    MonthEndsInYear(t.year, t.month);
    DaysBeforeNextYear(t.year);
    var d := DaysBeforeMonth(t.year, t.month) + t.day - 1;
    assert 0 <= d < DaysInYear(t.year);
    assert 0 <= SecondOfDay(t) < SecondsPerDay;
    var inDay := SecondOfDay(t) * TicksPerSecond + t.fraction;
    assert 0 <= inDay < SecondsPerDay * TicksPerSecond;
    assert Ticks(t) == DaysBeforeYear(t.year) * SecondsPerDay * TicksPerSecond
                       + d * SecondsPerDay * TicksPerSecond + inDay;
  }

  /** January 1 moves forward with the year. */
  lemma {:induction false} StartOfYearMonotone(a: int, b: int)
    requires 1 <= a <= b
    ensures StartOfYear(a) <= StartOfYear(b)
    decreases b - a
  {
    if a < b {
      DaysBeforeNextYear(a);
      StartOfYearMonotone(a + 1, b);
    }
  }

  /** Comparing an instant with January 1 of a year is comparing years:
      a valid time is before January 1 of `year` exactly when its own year
      is earlier. */
  lemma BeforeYearStart(t: CivilTime, year: int)
    requires ValidTime(t) && year >= 1
    ensures Ticks(t) < StartOfYear(year) <==> t.year < year
  {
    TicksWithinYear(t);
    if t.year < year {
      StartOfYearMonotone(t.year + 1, year);
    } else {
      StartOfYearMonotone(year, t.year);
    }
  }
}
