/** Proleptic Gregorian calendar dates, UTC days and instants.

    An instant is a whole number of seconds since 1970-01-01T00:00:00Z, and a
    day is identified by its number of days since 1970-01-01.  Python's
    `datetime` only represents years 1 through 9999; `Date` values outside that
    range are not valid. */
module Calendar {
  import opened Wrappers

  const SecondsPerDay: int := 86400
  const MinYear: int := 1
  const MaxYear: int := 9999

  datatype Date = Date(year: int, month: int, day: int)

  /** The last date Python's `datetime` can represent. */
  const MaxDate: Date := Date(MaxYear, 12, 31)

  predicate IsLeapYear(y: int) {
    y % 4 == 0 && (y % 100 != 0 || y % 400 == 0)
  }

  function DaysInYear(y: int): int {
    if IsLeapYear(y) then 366 else 365
  }

  function DaysInMonth(y: int, m: int): int {
    if m == 2 then (if IsLeapYear(y) then 29 else 28)
    else if m == 4 || m == 6 || m == 9 || m == 11 then 30
    else 31
  }

  predicate ValidDate(d: Date) {
    MinYear <= d.year <= MaxYear && 1 <= d.month <= 12 && 1 <= d.day <= DaysInMonth(d.year, d.month)
  }

  /** Number of leap years among years 1..n, for n >= 0. */
  function LeapYearsThrough(n: int): int {
    n / 4 - n / 100 + n / 400
  }

  /** Days from 1970-01-01 to January 1st of year y (negative before 1970). */
  function DaysBeforeYear(y: int): int {
    365 * (y - 1970) + LeapYearsThrough(y - 1) - LeapYearsThrough(1969)
  }

  /** Days from January 1st to the first of month m of year y. */
  function DaysBeforeMonth(y: int, m: int): int
    requires 1 <= m <= 12
  {
    var leap := if IsLeapYear(y) then 1 else 0;
    if m == 1 then 0
    else if m == 2 then 31
    else [59, 90, 120, 151, 181, 212, 243, 273, 304, 334][m - 3] + leap
  }

  /** Days from 1970-01-01 to d: the UTC day number of d. */
  function DayNumber(d: Date): int
    requires ValidDate(d)
  {
    DaysBeforeYear(d.year) + DaysBeforeMonth(d.year, d.month) + d.day - 1
  }

  /** The UTC day an instant falls on (its date truncated to midnight). */
  function DayOf(t: int): int {
    t / SecondsPerDay
  }

  /** The instant of midnight UTC at the start of day number n. */
  function Midnight(n: int): int {
    n * SecondsPerDay
  }

  /** Midnight at the start of t's UTC day (`t.replace(hour=0, minute=0, second=0)`). */
  function TruncateToDay(t: int): (m: int)
    ensures m <= t < m + SecondsPerDay
    ensures m == Midnight(DayOf(t))
  {
    Midnight(DayOf(t))
  }

  /** The calendar day after d (`d + timedelta(days=1)`); None past 9999-12-31,
      where Python raises OverflowError. */
  function NextDay(d: Date): Option<Date>
    requires ValidDate(d)
  {
    if d.day < DaysInMonth(d.year, d.month) then Some(Date(d.year, d.month, d.day + 1))
    else if d.month < 12 then Some(Date(d.year, d.month + 1, 1))
    else if d.year < MaxYear then Some(Date(d.year + 1, 1, 1))
    else None
  }

  lemma DivStep4(y: int)
    ensures y / 4 - (y - 1) / 4 == (if y % 4 == 0 then 1 else 0)
  {
  }

  lemma DivStep100(y: int)
    ensures y / 100 - (y - 1) / 100 == (if y % 100 == 0 then 1 else 0)
  {
  }

  lemma DivStep400(y: int)
    ensures y / 400 - (y - 1) / 400 == (if y % 400 == 0 then 1 else 0)
  {
  }

  lemma LeapYearsStep(y: int)
    ensures LeapYearsThrough(y) - LeapYearsThrough(y - 1) == (if IsLeapYear(y) then 1 else 0)
  {
    DivStep4(y);
    DivStep100(y);
    DivStep400(y);
    if y % 100 == 0 {
      assert y == 4 * (25 * (y / 100));
    }
    if y % 400 == 0 {
      assert y == 100 * (4 * (y / 400));
    }
  }

  lemma DaysBeforeYearStep(y: int)
    ensures DaysBeforeYear(y + 1) == DaysBeforeYear(y) + DaysInYear(y)
  {
    LeapYearsStep(y);
  }

  /** Moving one calendar day forward moves the day number forward by one,
      across month and year boundaries; only 9999-12-31 has no successor. */
  lemma NextDayIsSuccessor(d: Date)
    requires ValidDate(d)
    ensures NextDay(d).None? <==> d == MaxDate
    ensures NextDay(d).Some? ==> ValidDate(NextDay(d).value) && DayNumber(NextDay(d).value) == DayNumber(d) + 1
  {
    if d.day == DaysInMonth(d.year, d.month) && d.month == 12 && d.year < MaxYear {
      DaysBeforeYearStep(d.year);
    }
  }

  lemma {:induction false} DaysBeforeYearMonotone(a: int, b: int)
    requires a <= b
    ensures DaysBeforeYear(a) + 365 * (b - a) <= DaysBeforeYear(b)
    decreases b - a
  {
    if a < b {
      DaysBeforeYearMonotone(a + 1, b);
      DaysBeforeYearStep(a);
    }
  }

  /** Every valid date lies within a year's worth of days of January 1st, so
      no valid date has a day number beyond that of 9999-12-31. */
  lemma DayNumberBounds(d: Date)
    requires ValidDate(d)
    ensures DaysBeforeYear(d.year) <= DayNumber(d) < DaysBeforeYear(d.year) + DaysInYear(d.year)
    ensures DayNumber(d) <= DayNumber(MaxDate)
  {
    DaysBeforeYearStep(d.year);
    DaysBeforeYearMonotone(d.year + 1, MaxYear + 1);
    DaysBeforeYearStep(MaxYear);
  }

  lemma DaysBeforeMonthStep(y: int, m: int)
    requires 1 <= m < 12
    ensures DaysBeforeMonth(y, m + 1) == DaysBeforeMonth(y, m) + DaysInMonth(y, m)
  {
  }

  lemma {:induction false} DaysBeforeMonthMonotone(y: int, a: int, b: int)
    requires 1 <= a < b <= 12
    ensures DaysBeforeMonth(y, a) + DaysInMonth(y, a) <= DaysBeforeMonth(y, b)
    decreases b - a
  {
    DaysBeforeMonthStep(y, a);
    if a + 1 < b {
      DaysBeforeMonthMonotone(y, a + 1, b);
    }
  }

  /** A date in an earlier year has a smaller day number. */
  lemma EarlierYearEarlierDay(d: Date, e: Date)
    requires ValidDate(d) && ValidDate(e) && d.year < e.year
    ensures DayNumber(d) < DayNumber(e)
  {
    DayNumberBounds(d);
    DayNumberBounds(e);
    DaysBeforeYearStep(d.year);
    DaysBeforeYearMonotone(d.year + 1, e.year);
  }

  /** Within a year, a date in an earlier month has a smaller day number. */
  lemma EarlierMonthEarlierDay(d: Date, e: Date)
    requires ValidDate(d) && ValidDate(e) && d.year == e.year && d.month < e.month
    ensures DayNumber(d) < DayNumber(e)
  {
    DaysBeforeMonthMonotone(d.year, d.month, e.month);
  }

  /** Distinct valid dates have distinct day numbers. */
  lemma DayNumberInjective(d: Date, e: Date)
    requires ValidDate(d) && ValidDate(e)
    requires DayNumber(d) == DayNumber(e)
    ensures d == e
  {
    if d.year < e.year {
      EarlierYearEarlierDay(d, e);
    } else if e.year < d.year {
      EarlierYearEarlierDay(e, d);
    } else if d.month < e.month {
      EarlierMonthEarlierDay(d, e);
    } else if e.month < d.month {
      EarlierMonthEarlierDay(e, d);
    }
  }
}
