/**
 * Proleptic Gregorian calendar dates, as Python's `datetime.date` knows them:
 * years 1 to 9999, leap years every fourth year except centuries not divisible
 * by 400, and day ordinals counted from 0001-01-01 (ordinal 1).
 */
module Calendar {

  datatype Date = Date(year: int, month: int, day: int)

  const MinYear: int := 1
  const MaxYear: int := 9999

  predicate IsLeapYear(y: int)
  {
    y % 4 == 0 && (y % 100 != 0 || y % 400 == 0)
  }

  function DaysInMonth(y: int, m: int): (n: int)
    requires 1 <= m <= 12
    ensures 28 <= n <= 31
    ensures m == 2 ==> (n == 29 <==> IsLeapYear(y))
  {
    if m == 2 then (if IsLeapYear(y) then 29 else 28)
    else if m == 4 || m == 6 || m == 9 || m == 11 then 30
    else 31
  }

  function DaysInYear(y: int): int
  {
    if IsLeapYear(y) then 366 else 365
  }

  /** A day that exists on the calendar. */
  predicate Valid(d: Date)
  {
    && MinYear <= d.year <= MaxYear
    && 1 <= d.month <= 12
    && 1 <= d.day <= DaysInMonth(d.year, d.month)
  }

  /** Stored dates and range bounds are always real calendar days. */
  type CalDate = d: Date | Valid(d) witness Date(1, 1, 1)

  /** Chronological order: year, then month, then day. */
  predicate Before(a: Date, b: Date)
  {
    || a.year < b.year
    || (a.year == b.year && a.month < b.month)
    || (a.year == b.year && a.month == b.month && a.day < b.day)
  }

  predicate AtOrBefore(a: Date, b: Date)
  {
    Before(a, b) || a == b
  }

  predicate IsMonthEnd(d: CalDate)
  {
    d.day == DaysInMonth(d.year, d.month)
  }

  function FirstOfMonth(d: CalDate): (r: CalDate)
    ensures r.year == d.year && r.month == d.month && r.day == 1
    ensures AtOrBefore(r, d)
  {
    Date(d.year, d.month, 1)
  }

  /** The day after `d` (the last day of year 9999 has none in Python). */
  function Successor(d: CalDate): (r: CalDate)
    requires d.year < MaxYear || d.month < 12 || d.day < 31
    ensures Before(d, r)
  {
    if d.day < DaysInMonth(d.year, d.month) then Date(d.year, d.month, d.day + 1)
    else if d.month < 12 then Date(d.year, d.month + 1, 1)
    else Date(d.year + 1, 1, 1)
  }

  /** Days in the years before `y` (Python's `_days_before_year`). */
  function DaysBeforeYear(y: int): int
    requires y >= 1
  {
    var p := y - 1;
    p * 365 + p / 4 - p / 100 + p / 400
  }

  /** Days in the months of year `y` before month `m` (Python's `_days_before_month`). */
  function DaysBeforeMonth(y: int, m: int): int
    requires 1 <= m <= 12
  {
    var common :=
      if m == 1 then 0 else if m == 2 then 31 else if m == 3 then 59
      else if m == 4 then 90 else if m == 5 then 120 else if m == 6 then 151
      else if m == 7 then 181 else if m == 8 then 212 else if m == 9 then 243
      else if m == 10 then 273 else if m == 11 then 304 else 334;
    common + (if m > 2 && IsLeapYear(y) then 1 else 0)
  }

  /** The proleptic Gregorian ordinal of a day (Python's `date.toordinal`). */
  function DayNumber(d: CalDate): int
  {
    DaysBeforeYear(d.year) + DaysBeforeMonth(d.year, d.month) + d.day
  }

  /** Whole days between two dates, ignoring direction: `abs(a - b).days`. */
  function DayDistance(a: CalDate, b: CalDate): (n: nat)
    ensures n == 0 <==> a == b
  {
    DayNumberInjective(a, b);
    if DayNumber(a) >= DayNumber(b) then DayNumber(a) - DayNumber(b)
    else DayNumber(b) - DayNumber(a)
  }

  /** Stepping from y - 1 to y adds one to y / k exactly when k divides y. */
  lemma DivStep(y: int, k: int)
    requires y >= 1 && (k == 4 || k == 100 || k == 400)
    ensures y / k - (y - 1) / k == (if y % k == 0 then 1 else 0)
  {
    var q := (y - 1) / k;
    var r := (y - 1) % k;
    if k == 4 {
      assert y - 1 == 4 * q + r && 0 <= r < 4;
    } else if k == 100 {
      assert y - 1 == 100 * q + r && 0 <= r < 100;
    } else {
      assert y - 1 == 400 * q + r && 0 <= r < 400;
    }
  }

  /** The ordinal step from year y to y + 1, in terms of the three leap counts. */
  lemma DaysBeforeYearStep(y: int)
    requires y >= 1
    ensures DaysBeforeYear(y + 1) - DaysBeforeYear(y)
         == 365 + (y / 4 - (y - 1) / 4) - (y / 100 - (y - 1) / 100) + (y / 400 - (y - 1) / 400)
  {
  }

  /** A year divisible by 400 is divisible by 100. */
  lemma Div400IsDiv100(y: int)
    requires y % 400 == 0
    ensures y % 100 == 0
  {
    var q := y / 400;
    assert y == 100 * (4 * q);
  }

  /** A year divisible by 100 is divisible by 4. */
  lemma Div100IsDiv4(y: int)
    requires y % 100 == 0
    ensures y % 4 == 0
  {
    var q := y / 100;
    assert y == 4 * (25 * q);
  }

  /** Each year contributes exactly its own length to the ordinals after it. */
  lemma DaysBeforeNextYear(y: int)
    requires y >= 1
    ensures DaysBeforeYear(y + 1) == DaysBeforeYear(y) + DaysInYear(y)
  {
    DaysBeforeYearStep(y);
    DivStep(y, 4);
    DivStep(y, 100);
    DivStep(y, 400);
    if y % 400 == 0 {
      Div400IsDiv100(y);
    }
    if y % 100 == 0 {
      Div100IsDiv4(y);
    }
  }

  lemma DaysBeforeYearIncreasing(a: int, b: int)
    requires 1 <= a < b
    ensures DaysBeforeYear(a) + DaysInYear(a) <= DaysBeforeYear(b)
    decreases b - a
  {
    DaysBeforeNextYear(a);
    if a + 1 < b {
      DaysBeforeYearIncreasing(a + 1, b);
    }
  }

  lemma DaysBeforeMonthIncreasing(y: int, m: int, n: int)
    requires 1 <= m < n <= 12
    ensures DaysBeforeMonth(y, m) + DaysInMonth(y, m) <= DaysBeforeMonth(y, n)
  {
  }

  lemma DayOfYearBound(y: int, m: int)
    requires 1 <= m <= 12
    ensures DaysBeforeMonth(y, m) + DaysInMonth(y, m) <= DaysInYear(y)
  {
  }

  /**
   * The ordinal counts days: the day after `d` has the next ordinal, and the
   * first calendar day has ordinal 1. Together these fix DayNumber uniquely.
   */
  lemma DayNumberSuccessor(d: CalDate)
    requires d.year < MaxYear || d.month < 12 || d.day < 31
    ensures DayNumber(Successor(d)) == DayNumber(d) + 1
    ensures DayNumber(Date(1, 1, 1)) == 1
  {
    if d.day == DaysInMonth(d.year, d.month) && d.month == 12 {
      DaysBeforeNextYear(d.year);
    }
  }

  /** Ordinals follow chronological order, in both directions. */
  lemma DayNumberOrder(a: CalDate, b: CalDate)
    ensures Before(a, b) <==> DayNumber(a) < DayNumber(b)
  {
    if a.year < b.year {
      DaysBeforeYearIncreasing(a.year, b.year);
      DayOfYearBound(a.year, a.month);
    } else if b.year < a.year {
      DaysBeforeYearIncreasing(b.year, a.year);
      DayOfYearBound(b.year, b.month);
    } else if a.month < b.month {
      DaysBeforeMonthIncreasing(a.year, a.month, b.month);
    } else if b.month < a.month {
      DaysBeforeMonthIncreasing(b.year, b.month, a.month);
    }
  }

  lemma DayNumberInjective(a: CalDate, b: CalDate)
    ensures DayNumber(a) == DayNumber(b) <==> a == b
  {
    DayNumberOrder(a, b);
    DayNumberOrder(b, a);
  }

  /** A day and the next are one day apart, whichever comes first in the call. */
  lemma DayDistanceSuccessor(d: CalDate)
    requires d.year < MaxYear || d.month < 12 || d.day < 31
    ensures DayDistance(d, Successor(d)) == 1 && DayDistance(Successor(d), d) == 1
  {
    assert DayNumber(Successor(d)) == DayNumber(d) + 1 by {
      DayNumberSuccessor(d);
    }
    DayDistanceOfNext(d, Successor(d));
  }

  lemma DayDistanceOfNext(a: CalDate, b: CalDate)
    requires DayNumber(b) == DayNumber(a) + 1
    ensures DayDistance(a, b) == 1 && DayDistance(b, a) == 1
  {
  }

  /** The distance ignores direction. */
  lemma DayDistanceSymmetric(a: CalDate, b: CalDate)
    ensures DayDistance(a, b) == DayDistance(b, a)
  {
  }

  /**
   * Distances add up along the calendar: from `a` to `c` through a day `b`
   * between them. With `DayDistanceSuccessor`, the distance is the number of
   * day steps from the earlier date to the later.
   */
  lemma DayDistanceAdds(a: CalDate, b: CalDate, c: CalDate)
    requires AtOrBefore(a, b) && AtOrBefore(b, c)
    ensures DayDistance(a, c) == DayDistance(a, b) + DayDistance(b, c)
  {
    DayNumberOrder(a, b);
    DayNumberOrder(b, c);
  }
}
