/**
 * Proleptic Gregorian calendar arithmetic behind the pandas `.dt` accessors:
 * dates, day numbers counted from 1970-01-01, and timestamps counted in whole
 * hours from 1970-01-01T00:00.
 */
module Calendar {

  datatype CivilDate = CivilDate(year: int, month: int, day: int)

  predicate IsLeapYear(y: int) {
    y % 4 == 0 && (y % 100 != 0 || y % 400 == 0)
  }

  function DaysInYear(y: int): int {
    if IsLeapYear(y) then 366 else 365
  }

  function DaysInMonth(y: int, m: int): int
    requires 1 <= m <= 12
  {
    if m == 2 then (if IsLeapYear(y) then 29 else 28)
    else if m == 4 || m == 6 || m == 9 || m == 11 then 30
    else 31
  }

  predicate IsValidDate(d: CivilDate) {
    1 <= d.month <= 12 && 1 <= d.day <= DaysInMonth(d.year, d.month)
  }

  /** A calendar date as `pd.to_datetime` yields it: always a real day. */
  type Date = d: CivilDate | IsValidDate(d) witness CivilDate(1970, 1, 1)

  /** Number of leap years among 1..y (a difference of two of these counts them in any range). */
  function LeapYearsThrough(y: int): int {
    y / 4 - y / 100 + y / 400
  }

  /** Days from 1970-01-01 to January 1 of year y (negative before 1970). */
  function DaysBeforeYear(y: int): int {
    365 * (y - 1970) + LeapYearsThrough(y - 1) - LeapYearsThrough(1969)
  }

  /** Days of year y that come before the first of month m. */
  function DaysBeforeMonth(y: int, m: int): int
    requires 1 <= m <= 12
  {
    var common :=
      if m == 1 then 0 else if m == 2 then 31 else if m == 3 then 59
      else if m == 4 then 90 else if m == 5 then 120 else if m == 6 then 151
      else if m == 7 then 181 else if m == 8 then 212 else if m == 9 then 243
      else if m == 10 then 273 else if m == 11 then 304 else 334;
    common + (if m > 2 && IsLeapYear(y) then 1 else 0)
  }

  lemma LeapYearsStep(y: int)
    ensures LeapYearsThrough(y) - LeapYearsThrough(y - 1) == if IsLeapYear(y) then 1 else 0
  {
    assert y / 4 - (y - 1) / 4 == if y % 4 == 0 then 1 else 0;
    assert y / 100 - (y - 1) / 100 == if y % 100 == 0 then 1 else 0;
    assert y / 400 - (y - 1) / 400 == if y % 400 == 0 then 1 else 0;
    assert y % 100 == 0 ==> y % 4 == 0;
    assert y % 400 == 0 ==> y % 100 == 0;
  }

  /** Consecutive years are DaysInYear apart. */
  lemma DaysBeforeNextYear(y: int)
    ensures DaysBeforeYear(y + 1) == DaysBeforeYear(y) + DaysInYear(y)
  {
    LeapYearsStep(y);
  }

  /** Later years start strictly after the end of earlier ones. */
  lemma {:induction false} DaysBeforeYearGrows(a: int, b: int)
    requires a < b
    ensures DaysBeforeYear(a) + DaysInYear(a) <= DaysBeforeYear(b)
    decreases b - a
  {
    DaysBeforeNextYear(a);
    if a + 1 < b {
      DaysBeforeYearGrows(a + 1, b);
    }
  }

  /** The twelve months tile the year. */
  lemma DaysBeforeMonthStep(y: int, m: int)
    requires 1 <= m <= 12
    ensures m < 12 ==> DaysBeforeMonth(y, m + 1) == DaysBeforeMonth(y, m) + DaysInMonth(y, m)
    ensures m == 12 ==> DaysBeforeMonth(y, m) + DaysInMonth(y, m) == DaysInYear(y)
  {
  }

  /** Every month ends within its year. */
  lemma MonthWithinYear(y: int, m: int)
    requires 1 <= m <= 12
    ensures DaysBeforeMonth(y, m) + DaysInMonth(y, m) <= DaysInYear(y)
  {
  }

  lemma {:induction false} DaysBeforeMonthGrows(y: int, a: int, b: int)
    requires 1 <= a < b <= 12
    ensures DaysBeforeMonth(y, a) + DaysInMonth(y, a) <= DaysBeforeMonth(y, b)
    decreases b - a
  {
    DaysBeforeMonthStep(y, a);
    if a + 1 < b {
      DaysBeforeMonthGrows(y, a + 1, b);
    }
  }

  /** The year that holds day number n, searched outwards from year y. */
  function YearFrom(n: int, y: int): (r: int)
    ensures DaysBeforeYear(r) <= n < DaysBeforeYear(r + 1)
    decreases (if n < DaysBeforeYear(y) then 1 else 0),
              (if n < DaysBeforeYear(y) then DaysBeforeYear(y) - n else n - DaysBeforeYear(y))
  {
    DaysBeforeNextYear(y - 1);
    DaysBeforeNextYear(y);
    if n < DaysBeforeYear(y) then YearFrom(n, y - 1)
    else if n >= DaysBeforeYear(y + 1) then YearFrom(n, y + 1)
    else y
  }

  /** The month of year y that holds the zero-based day-of-year `offset`, searched from month m. */
  function MonthFrom(y: int, offset: int, m: int): (r: int)
    requires 0 <= offset < DaysInYear(y)
    requires 1 <= m <= 12 && DaysBeforeMonth(y, m) <= offset
    ensures m <= r <= 12
    ensures DaysBeforeMonth(y, r) <= offset < DaysBeforeMonth(y, r) + DaysInMonth(y, r)
    decreases 12 - m
  {
    DaysBeforeMonthStep(y, m);
    if offset < DaysBeforeMonth(y, m) + DaysInMonth(y, m) then m
    else MonthFrom(y, offset, m + 1)
  }

  /** Days from 1970-01-01 to d: within d's year, and within d's month of it. */
  function DayNumber(d: Date): (n: int)
    ensures DaysBeforeYear(d.year) <= n < DaysBeforeYear(d.year) + DaysInYear(d.year)
    ensures DaysBeforeMonth(d.year, d.month) <= n - DaysBeforeYear(d.year) < DaysBeforeMonth(d.year, d.month) + DaysInMonth(d.year, d.month)
  {
    MonthWithinYear(d.year, d.month);
    DaysBeforeYear(d.year) + DaysBeforeMonth(d.year, d.month) + d.day - 1
  }

  /** The calendar day after d: the next day of the month, else the 1st of the next month, else January 1 of the next year. */
  function NextDay(d: Date): Date {
    if d.day < DaysInMonth(d.year, d.month) then CivilDate(d.year, d.month, d.day + 1)
    else if d.month < 12 then CivilDate(d.year, d.month + 1, 1)
    else CivilDate(d.year + 1, 1, 1)
  }

  /** Day numbers count days: 1970-01-01 is day 0 ... */
  lemma EpochIsDayZero()
    ensures DayNumber(CivilDate(1970, 1, 1)) == 0
  {
  }

  /** ... and each calendar day is numbered one more than the day before it. */
  lemma DayNumberOfNextDay(d: Date)
    ensures DayNumber(NextDay(d)) == DayNumber(d) + 1
  {
    DaysBeforeMonthStep(d.year, d.month);
    DaysBeforeNextYear(d.year);
  }

  /** The date of day number n (the inverse of DayNumber). */
  function DateOfDayNumber(n: int): (d: Date)
    ensures DayNumber(d) == n
  {
    var y := YearFrom(n, 1970);
    DaysBeforeNextYear(y);
    var offset := n - DaysBeforeYear(y);
    var m := MonthFrom(y, offset, 1);
    CivilDate(y, m, offset - DaysBeforeMonth(y, m) + 1)
  }

  /** Dates with the same day number are in the same year. */
  lemma SameDayNumberSameYear(d: Date, e: Date)
    requires DayNumber(d) == DayNumber(e)
    ensures d.year == e.year
  {
    if d.year < e.year {
      DaysBeforeYearGrows(d.year, e.year);
      assert false;
    } else if e.year < d.year {
      DaysBeforeYearGrows(e.year, d.year);
      assert false;
    }
  }

  /** Distinct dates have distinct day numbers. */
  lemma DayNumberInjective(d: Date, e: Date)
    requires DayNumber(d) == DayNumber(e)
    ensures d == e
  {
    SameDayNumberSameYear(d, e);
    var y := d.year;
    if d.month < e.month {
      DaysBeforeMonthGrows(y, d.month, e.month);
      assert false;
    } else if e.month < d.month {
      DaysBeforeMonthGrows(y, e.month, d.month);
      assert false;
    }
  }

  /** Converting a date to its day number and back gives the date. */
  lemma DateOfDayNumberRoundTrip(d: Date)
    ensures DateOfDayNumber(DayNumber(d)) == d
  {
    DayNumberInjective(DateOfDayNumber(DayNumber(d)), d);
  }

  /** The day of the year, January 1 being 1 (pandas `dayofyear`). */
  function DayOfYear(d: Date): (r: int)
    ensures 1 <= r <= DaysInYear(d.year)
    ensures r == 366 ==> IsLeapYear(d.year)
    ensures r == DayNumber(d) - DayNumber(CivilDate(d.year, 1, 1)) + 1
  {
    MonthWithinYear(d.year, d.month);
    DaysBeforeMonth(d.year, d.month) + d.day
  }

  /** Weekday of day number n, Monday = 0 through Sunday = 6; day 0, 1970-01-01, was a Thursday. */
  function DayOfWeek(n: int): (r: int)
    ensures 0 <= r < 7
  {
    (n + 3) % 7
  }

  /** Successive days step through the week, Sunday wrapping to Monday. */
  lemma DayOfWeekOfNextDay(n: int)
    ensures DayOfWeek(n + 1) == (DayOfWeek(n) + 1) % 7
  {
  }

  /** Hours since 1970-01-01T00:00; negative before. */
  type Timestamp = int

  /** Midnight at the start of d. */
  function StartOfDay(d: Date): Timestamp {
    DayNumber(d) * 24
  }

  /** The calendar date of t (pandas `.dt.date`). */
  function DateOf(t: Timestamp): Date {
    DateOfDayNumber(t / 24)
  }

  /** The hour of the day of t (pandas `.dt.hour`). */
  function HourOf(t: Timestamp): (h: int)
    ensures 0 <= h < 24
    ensures t == StartOfDay(DateOf(t)) + h
  {
    t % 24
  }

  /** An offset of 0..23 hours from midnight stays on that date, at that hour. */
  lemma OffsetWithinDay(d: Date, h: int)
    requires 0 <= h < 24
    ensures DateOf(StartOfDay(d) + h) == d
    ensures HourOf(StartOfDay(d) + h) == h
  {
    var n := DayNumber(d);
    assert (n * 24 + h) / 24 == n;
    assert (n * 24 + h) % 24 == h;
    DateOfDayNumberRoundTrip(d);
  }

  /** A whole-day offset from midnight is on that date exactly when it is 0..23 hours. */
  lemma TimestampOnDate(d: Date, h: int, t: Timestamp)
    requires t == StartOfDay(d) + h
    ensures 0 <= h < 24 ==> DateOf(t) == d && HourOf(t) == h
  {
    if 0 <= h < 24 {
      OffsetWithinDay(d, h);
    }
  }

  /** 2024-01-01 fell on a Monday. */
  lemma NewYear2024IsMonday()
    ensures DayOfWeek(DayNumber(CivilDate(2024, 1, 1))) == 0
  {
  }
}
