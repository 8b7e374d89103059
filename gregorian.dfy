/** Proleptic Gregorian calendar arithmetic: the leap-year rule, month lengths,
    a day count from 0001-01-01 and the day of the week derived from it.
    Months are numbered 0..11, as JavaScript's Date numbers them; days 1..31. */
module Gregorian {

  /** A calendar day. `month` is 0-based (0 = January). */
  datatype Date = Date(year: int, month: int, day: int)

  /** Leap years of the Gregorian calendar: divisible by 4, except centuries
      not divisible by 400. (Divisibility is sign-independent, so the rule
      holds for proleptic years <= 0 as well.) */
  predicate IsLeapYear(y: int)
  {
    y % 4 == 0 && (y % 100 != 0 || y % 400 == 0)
  }

  function YearLength(y: int): int
  {
    if IsLeapYear(y) then 366 else 365
  }

  /** The number of days of month `m` (0-based) of year `y`. */
  function DaysInMonth(y: int, m: int): (r: int)
    requires 0 <= m < 12
    ensures 28 <= r <= 31
    ensures r == 29 <==> m == 1 && IsLeapYear(y)
    ensures r == 28 <==> m == 1 && !IsLeapYear(y)
    ensures r == 30 <==> m == 3 || m == 5 || m == 8 || m == 10
  {
    [31, if IsLeapYear(y) then 29 else 28, 31, 30, 31, 30, 31, 31, 30, 31, 30, 31][m]
  }

  /** A date that exists: month 0..11 and day 1..length of that month. */
  predicate IsValidDate(d: Date)
  {
    0 <= d.month < 12 && 1 <= d.day <= DaysInMonth(d.year, d.month)
  }

  /** Days from 0001-01-01 to January 1 of year `y` (negative for earlier years).
      Dafny's `/` floors for a positive divisor, which is what makes this count
      the leap years in [1, y-1] correctly for every integer `y`. */
  function DaysBeforeYear(y: int): int
  {
    var p := y - 1;
    365 * p + p / 4 - p / 100 + p / 400
  }

  /** Days from January 1 to the first of month `m` (0..12), from the table of
      cumulative month lengths plus the leap day after February. */
  function DaysBeforeMonth(y: int, m: int): (r: int)
    requires 0 <= m <= 12
  {
    [0, 31, 59, 90, 120, 151, 181, 212, 243, 273, 304, 334, 365][m]
      + (if m >= 2 && IsLeapYear(y) then 1 else 0)
  }

  /** Days from 0001-01-01 (day 0) to the given day. */
  function DayNumber(y: int, m: int, d: int): int
    requires 0 <= m < 12
  {
    DaysBeforeYear(y) + DaysBeforeMonth(y, m) + d - 1
  }

  function DateNumber(d: Date): int
    requires 0 <= d.month < 12
  {
    DayNumber(d.year, d.month, d.day)
  }

  /** Day of the week, 0 = Sunday .. 6 = Saturday, as JavaScript's getDay
      numbers them. 0001-01-01 of the proleptic Gregorian calendar was a Monday. */
  function DayOfWeek(y: int, m: int, d: int): (r: int)
    requires 0 <= m < 12
    ensures 0 <= r < 7
  {
    (DayNumber(y, m, d) + 1) % 7
  }

  /** Chronological order on dates, stated field by field. */
  predicate Precedes(a: Date, b: Date)
  {
    a.year < b.year
    || (a.year == b.year && a.month < b.month)
    || (a.year == b.year && a.month == b.month && a.day < b.day)
  }

  // ---------------------------------------------------------------------------
  // Arithmetic helpers

  /** Flooring division by 4, 100 and 400 advances by one exactly at multiples. */
  lemma DivStep(x: int)
    ensures (x + 1) / 4 - x / 4 == if (x + 1) % 4 == 0 then 1 else 0
    ensures (x + 1) / 100 - x / 100 == if (x + 1) % 100 == 0 then 1 else 0
    ensures (x + 1) / 400 - x / 400 == if (x + 1) % 400 == 0 then 1 else 0
  {
  }

  /** Adding `n` days moves the weekday by `n` modulo 7. */
  lemma ShiftMod7(x: int, n: int)
    ensures (x + n) % 7 == (x % 7 + n) % 7
  {
    var q := x / 7;
    assert x == 7 * q + x % 7;
    assert (x + n) == 7 * q + (x % 7 + n);
  }

  // ---------------------------------------------------------------------------
  // Properties of the day count

  /** Consecutive years' first days are a year's length apart. */
  lemma YearLengthStep(y: int)
    ensures DaysBeforeYear(y + 1) - DaysBeforeYear(y) == YearLength(y)
  {
    var p := y - 1;
    DivStep(p);
    var d4 := if y % 4 == 0 then 1 else 0;
    var d100 := if y % 100 == 0 then 1 else 0;
    var d400 := if y % 400 == 0 then 1 else 0;
    assert DaysBeforeYear(y + 1) - DaysBeforeYear(y) == 365 + d4 - d100 + d400;
    Divisibility(y);
  }

  /** Multiples of 400 are multiples of 100, and those are multiples of 4. */
  lemma Divisibility(y: int)
    ensures y % 400 == 0 ==> y % 100 == 0
    ensures y % 100 == 0 ==> y % 4 == 0
  {
    if y % 400 == 0 {
      var q, d, r := y / 400, y / 100, y % 100;
      assert y == 400 * q && y == 100 * d + r && 0 <= r < 100;
      assert r == 100 * (4 * q - d);
    }
    if y % 100 == 0 {
      var q, d, r := y / 100, y / 4, y % 4;
      assert y == 100 * q && y == 4 * d + r && 0 <= r < 4;
      assert r == 4 * (25 * q - d);
    }
  }

  /** The cumulative table agrees with the month lengths: the first of month
      `m + 1` is `DaysInMonth(y, m)` days after the first of month `m`, and the
      twelve months together make the year. */
  lemma MonthStep(y: int, m: int)
    requires 0 <= m < 12
    ensures DaysBeforeMonth(y, m + 1) == DaysBeforeMonth(y, m) + DaysInMonth(y, m)
    ensures DaysBeforeMonth(y, 12) == YearLength(y)
  {
  }

  /** The first day of the following month (December wrapping to January of the
      next year) is exactly the month's length later. */
  lemma FirstOfFollowingMonth(y: int, m: int)
    requires 0 <= m < 12
    ensures m < 11 ==> DayNumber(y, m + 1, 1) == DayNumber(y, m, 1) + DaysInMonth(y, m)
    ensures m == 11 ==> DayNumber(y + 1, 0, 1) == DayNumber(y, m, 1) + DaysInMonth(y, m)
  {
    MonthStep(y, m);
    if m == 11 {
      YearLengthStep(y);
    }
  }

  /** Successive days of a month fall on successive weekdays. */
  lemma WeekdayOfDay(y: int, m: int, d: int)
    requires 0 <= m < 12
    ensures DayOfWeek(y, m, d) == (DayOfWeek(y, m, 1) + d - 1) % 7
  {
    ShiftMod7(DayNumber(y, m, 1) + 1, d - 1);
  }

  /** Weekday of the first of the following month. */
  lemma WeekdayOfFollowingMonth(y: int, m: int)
    requires 0 <= m < 12
    ensures m < 11 ==> DayOfWeek(y, m + 1, 1) == (DayOfWeek(y, m, 1) + DaysInMonth(y, m)) % 7
    ensures m == 11 ==> DayOfWeek(y + 1, 0, 1) == (DayOfWeek(y, m, 1) + DaysInMonth(y, m)) % 7
  {
    FirstOfFollowingMonth(y, m);
    ShiftMod7(DayNumber(y, m, 1) + 1, DaysInMonth(y, m));
  }

  /** Every year's days come after all of the previous years' days. */
  lemma {:induction false} DaysBeforeYearMonotone(a: int, b: int)
    requires a <= b
    ensures DaysBeforeYear(a) + 365 * (b - a) <= DaysBeforeYear(b)
    decreases b - a
  {
    if a < b {
      DaysBeforeYearMonotone(a, b - 1);
      YearLengthStep(b - 1);
    }
  }

  /** A valid date lies within its own year's span of the day count. */
  lemma WithinYear(d: Date)
    requires IsValidDate(d)
    ensures DaysBeforeYear(d.year) <= DateNumber(d) < DaysBeforeYear(d.year + 1)
  {
    MonthStep(d.year, d.month);
    YearLengthStep(d.year);
    assert DaysBeforeMonth(d.year, d.month + 1) <= DaysBeforeMonth(d.year, 12);
  }

  /** Within a year, a valid date lies within its own month's span. */
  lemma WithinMonth(d: Date)
    requires IsValidDate(d)
    ensures DaysBeforeMonth(d.year, d.month) <= DateNumber(d) - DaysBeforeYear(d.year)
              < DaysBeforeMonth(d.year, d.month + 1)
  {
    MonthStep(d.year, d.month);
  }

  /** A date of an earlier year has a smaller day number. */
  lemma EarlierYear(a: Date, b: Date)
    requires IsValidDate(a) && IsValidDate(b) && a.year < b.year
    ensures DateNumber(a) < DateNumber(b)
  {
    WithinYear(a);
    WithinYear(b);
    DaysBeforeYearMonotone(a.year + 1, b.year);
  }

  /** A date of an earlier month of the same year has a smaller day number. */
  lemma EarlierMonth(a: Date, b: Date)
    requires IsValidDate(a) && IsValidDate(b) && a.year == b.year && a.month < b.month
    ensures DateNumber(a) < DateNumber(b)
  {
    WithinMonth(a);
    WithinMonth(b);
    assert DaysBeforeMonth(a.year, a.month + 1) <= DaysBeforeMonth(a.year, b.month);
  }

  /** The day count orders valid dates chronologically: one date precedes
      another exactly when its day number is smaller. This is what comparing
      the two dates' midnight timestamps decides. */
  lemma PrecedesIffEarlier(a: Date, b: Date)
    requires IsValidDate(a) && IsValidDate(b)
    ensures Precedes(a, b) <==> DateNumber(a) < DateNumber(b)
  {
    if a.year < b.year {
      EarlierYear(a, b);
    } else if b.year < a.year {
      EarlierYear(b, a);
    } else if a.month < b.month {
      EarlierMonth(a, b);
    } else if b.month < a.month {
      EarlierMonth(b, a);
    }
  }

  /** Two known weekdays that pin the count to the calendar: 1970-01-01 was a
      Thursday, and so was 2024-02-01, the first day of a 29-day February. */
  lemma KnownWeekdays()
    ensures DayOfWeek(1970, 0, 1) == 4
    ensures DayOfWeek(2024, 1, 1) == 4 && DaysInMonth(2024, 1) == 29
    ensures DayOfWeek(2025, 2, 15) == 6
  {
  }
}
