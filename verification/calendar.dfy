/**
 * The weekday test the schedule table uses to shade Sundays: the day of the
 * week of a date in the proleptic Gregorian calendar, numbered as
 * JavaScript's `Date.prototype.getDay` numbers it (0 is Sunday).
 */
module Calendar {

  const Sunday: int := 0

  /** Gregorian leap years: divisible by 4, except centuries not divisible by 400. */
  predicate IsLeapYear(y: int) {
    y % 4 == 0 && (y % 100 != 0 || y % 400 == 0)
  }

  function DaysInMonth(y: int, m: int): (n: int)
    requires 1 <= m <= 12
    ensures 28 <= n <= 31
    ensures m == 2 ==> (n == 29 <==> IsLeapYear(y))
  {
    if m == 2 then (if IsLeapYear(y) then 29 else 28)
    else if m == 4 || m == 6 || m == 9 || m == 11 then 30
    else 31
  }

  predicate ValidDate(y: int, m: int, d: int) {
    1 <= m <= 12 && 1 <= d <= DaysInMonth(y, m)
  }

  /** Days in the months of year `y` before month `m` (so `m == 13` gives the whole year). */
  function DaysBeforeMonth(y: int, m: int): (n: int)
    requires 1 <= m <= 13
    ensures 28 * (m - 1) <= n <= 31 * (m - 1)
    decreases m
  {
    if m == 1 then 0 else DaysBeforeMonth(y, m - 1) + DaysInMonth(y, m - 1)
  }

  /** Days from 1 January of year 1 to 1 January of year `y` (negative before year 1). */
  function DaysBeforeYear(y: int): int {
    365 * (y - 1) + (y - 1) / 4 - (y - 1) / 100 + (y - 1) / 400
  }

  /** Days elapsed since 1 January of year 1, which was a Monday. */
  function DayNumber(y: int, m: int, d: int): int
    requires ValidDate(y, m, d)
  {
    DaysBeforeYear(y) + DaysBeforeMonth(y, m) + d - 1
  }

  /** `new Date(year, month - 1, d).getDay()`: 0 for Sunday through 6 for Saturday. */
  function DayOfWeek(y: int, m: int, d: int): (w: int)
    requires ValidDate(y, m, d)
    ensures 0 <= w < 7
  {
    (DayNumber(y, m, d) + 1) % 7
  }

  /** The table's `isSunday(d)` for the selected month and year. */
  predicate IsSunday(y: int, m: int, d: int)
    requires ValidDate(y, m, d)
  {
    DayOfWeek(y, m, d) == Sunday
  }

  /** The calendar date after (y, m, d). */
  function NextDate(y: int, m: int, d: int): (r: (int, int, int))
    requires ValidDate(y, m, d)
    ensures ValidDate(r.0, r.1, r.2)
  {
    if d < DaysInMonth(y, m) then (y, m, d + 1)
    else if m < 12 then (y, m + 1, 1)
    else (y + 1, 1, 1)
  }

  /** Stepping over a multiple of `n` adds one to the quotient; any other step keeps it. */
  lemma DivStep(y: int, n: int)
    requires n == 4 || n == 100 || n == 400
    ensures y / n - (y - 1) / n == (if y % n == 0 then 1 else 0)
  {
  }

  lemma MultipleOf400(y: int)
    requires y % 400 == 0
    ensures y % 100 == 0
  {
    var k := y / 400;
    assert y == 100 * (4 * k);
  }

  lemma MultipleOf100(y: int)
    requires y % 100 == 0
    ensures y % 4 == 0
  {
    var k := y / 100;
    assert y == 4 * (25 * k);
  }

  /** Between the first days of consecutive years, the closed form counts one more leap day exactly for leap years. */
  lemma LeapDaysStep(y: int)
    ensures (y / 4 - y / 100 + y / 400) - ((y - 1) / 4 - (y - 1) / 100 + (y - 1) / 400)
            == (if IsLeapYear(y) then 1 else 0)
  {
    DivStep(y, 4);
    DivStep(y, 100);
    DivStep(y, 400);
    if y % 400 == 0 {
      MultipleOf400(y);
      MultipleOf100(y);
    } else if y % 100 == 0 {
      MultipleOf100(y);
    } else if y % 4 != 0 {
      assert y % 100 != 0 by {
        if y % 100 == 0 { MultipleOf100(y); }
      }
    }
  }

  /** A year has 366 days when it is a leap year and 365 otherwise. */
  lemma YearLength(y: int)
    ensures DaysBeforeYear(y + 1) - DaysBeforeYear(y) == (if IsLeapYear(y) then 366 else 365)
    ensures DaysBeforeMonth(y, 13) == (if IsLeapYear(y) then 366 else 365)
  {
    LeapDaysStep(y);
    assert DaysBeforeYear(y + 1) == 365 * y + y / 4 - y / 100 + y / 400;
    MonthsMakeYear(y);
  }

  /** The twelve month lengths add up to 366 days in leap years and 365 in the others. */
  lemma MonthsMakeYear(y: int)
    ensures DaysBeforeMonth(y, 13) == (if IsLeapYear(y) then 366 else 365)
  {
    assert DaysBeforeMonth(y, 7) == 181 + (if IsLeapYear(y) then 1 else 0);
  }

  /**
   * The day count advances by exactly one from each date to the next, across
   * month ends, year ends and leap days alike, so the weekday steps through
   * 0..6 cyclically.
   */
  lemma NextDateIsNextDay(y: int, m: int, d: int)
    requires ValidDate(y, m, d)
    ensures var n := NextDate(y, m, d);
            DayNumber(n.0, n.1, n.2) == DayNumber(y, m, d) + 1
            && DayOfWeek(n.0, n.1, n.2) == (DayOfWeek(y, m, d) + 1) % 7
  {
    var n := NextDate(y, m, d);
    var before := DayNumber(y, m, d);
    if d < DaysInMonth(y, m) {
      assert n == (y, m, d + 1);
    } else if m < 12 {
      assert n == (y, m + 1, 1);
      assert DaysBeforeMonth(y, m + 1) == DaysBeforeMonth(y, m) + DaysInMonth(y, m);
    } else {
      assert n == (y + 1, 1, 1);
      YearLength(y);
      assert DaysBeforeMonth(y, 13) == DaysBeforeMonth(y, 12) + DaysInMonth(y, 12);
    }
    ModStep(before + 1);
  }

  lemma ModStep(a: int)
    ensures (a + 1) % 7 == (a % 7 + 1) % 7
  {
  }

  /** Sundays are exactly the dates a whole number of weeks before or after 6 October 2024. */
  lemma SundaysAreWeeksFromOctober6th2024(y: int, m: int, d: int)
    requires ValidDate(y, m, d)
    ensures IsSunday(y, m, d) <==> (DayNumber(y, m, d) - DayNumber(2024, 10, 6)) % 7 == 0
  {
    AnchorDayNumber();
    var n := DayNumber(y, m, d);
    WholeWeeks(n - 739164, 105595);
    assert n + 1 == (n - 739164) + 7 * 105595;
  }

  lemma AnchorDayNumber()
    ensures DayNumber(2024, 10, 6) == 739164
  {
    assert DaysBeforeMonth(2024, 10) == 274;
  }

  lemma WholeWeeks(a: int, k: int)
    ensures (a + 7 * k) % 7 == a % 7
  {
  }

  /** 6 October 2024 was a Sunday; 7 October 2024 was a Monday. */
  lemma October2024()
    ensures IsSunday(2024, 10, 6)
    ensures !IsSunday(2024, 10, 7)
    ensures DayOfWeek(2024, 10, 7) == 1
  {
  }
}
