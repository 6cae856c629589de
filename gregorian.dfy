/**
  The proleptic Gregorian calendar the way .NET's `DateTime` counts it: years 1 to 9999,
  days numbered from 0 on 1 January of year 1. This is the calendar behind the strict
  parse of a birth date and behind `DateTime.AddYears`.
 */
module Gregorian {
  import opened Wrappers

  const MinYear := 1
  const MaxYear := 9999

  /** The Gregorian leap-year rule: every fourth year, except centuries not divisible by 400. */
  predicate IsLeapYear(y: int)
    ensures y % 400 == 0 ==> IsLeapYear(y)
    ensures y % 4 != 0 ==> !IsLeapYear(y)
    ensures y % 100 == 0 && y % 400 != 0 ==> !IsLeapYear(y)
  {
    Divisibility(y);
    y % 4 == 0 && (y % 100 != 0 || y % 400 == 0)
  }

  function DaysInYear(y: int): int {
    if IsLeapYear(y) then 366 else 365
  }

  function DaysInMonth(y: int, m: int): (n: int)
    requires 1 <= m <= 12
    ensures 28 <= n <= 31
  {
    if m == 2 then (if IsLeapYear(y) then 29 else 28)
    else if m == 4 || m == 6 || m == 9 || m == 11 then 30
    else 31
  }

  datatype Date = Date(year: int, month: int, day: int)

  /** A date `DateTime` can represent: the day exists in that month of that year. */
  predicate IsValid(d: Date) {
    MinYear <= d.year <= MaxYear && 1 <= d.month <= 12 && 1 <= d.day <= DaysInMonth(d.year, d.month)
  }

  /** Calendar order of dates: by year, then month, then day. */
  predicate Before(a: Date, b: Date) {
    a.year < b.year
    || (a.year == b.year && a.month < b.month)
    || (a.year == b.year && a.month == b.month && a.day < b.day)
  }

  /** Days before the first of each month, in a common and in a leap year. */
  const DaysToMonth365: seq<int> := [0, 31, 59, 90, 120, 151, 181, 212, 243, 273, 304, 334, 365]
  const DaysToMonth366: seq<int> := [0, 31, 60, 91, 121, 152, 182, 213, 244, 274, 305, 335, 366]

  function DaysBeforeMonth(y: int, m: int): int
    requires 1 <= m <= 13
  {
    if IsLeapYear(y) then DaysToMonth366[m - 1] else DaysToMonth365[m - 1]
  }

  /** Days from 1 January of year 1 to 1 January of year `y`. */
  function DaysBeforeYear(y: int): int
    requires y >= 1
  {
    var k := y - 1;
    k * 365 + k / 4 - k / 100 + k / 400
  }

  /** The number of the day `d` counted from 1 January of year 1 (which is day 0). */
  function DayNumber(d: Date): (n: int)
    requires IsValid(d)
    ensures DaysBeforeYear(d.year) <= n < DaysBeforeYear(d.year) + DaysInYear(d.year)
  {
    MonthTable(d.year, d.month);
    MonthsMonotone(d.year, d.month + 1, 13);
    DaysBeforeYear(d.year) + DaysBeforeMonth(d.year, d.month) + d.day - 1
  }

  /** The number of 31 December 9999, the last day `DateTime` can hold. */
  const LastDayNumber := 3652058

  /** The month tables agree with the month lengths. */
  lemma MonthTable(y: int, m: int)
    requires 1 <= m <= 12
    ensures DaysBeforeMonth(y, m + 1) == DaysBeforeMonth(y, m) + DaysInMonth(y, m)
    ensures DaysBeforeMonth(y, 1) == 0 && DaysBeforeMonth(y, 13) == DaysInYear(y)
  {
  }

  lemma FourStep(y: int)
    ensures y / 4 == (y - 1) / 4 + (if y % 4 == 0 then 1 else 0)
  {
  }

  lemma HundredStep(y: int)
    ensures y / 100 == (y - 1) / 100 + (if y % 100 == 0 then 1 else 0)
  {
  }

  lemma FourHundredStep(y: int)
    ensures y / 400 == (y - 1) / 400 + (if y % 400 == 0 then 1 else 0)
  {
  }

  /** A year contributes exactly its length to the day count. */
  lemma YearStep(y: int)
    requires y >= 1
    ensures DaysBeforeYear(y + 1) == DaysBeforeYear(y) + DaysInYear(y)
  {
    FourStep(y);
    HundredStep(y);
    FourHundredStep(y);
    Divisibility(y);
    var k := y - 1;
    assert DaysBeforeYear(y + 1) - DaysBeforeYear(y)
        == 365 + (y / 4 - k / 4) - (y / 100 - k / 100) + (y / 400 - k / 400);
  }

  /** A multiple of 400 is a multiple of 100, and a multiple of 100 is a multiple of 4. */
  lemma Divisibility(y: int)
    ensures y % 400 == 0 ==> y % 100 == 0
    ensures y % 100 == 0 ==> y % 4 == 0
  {
    if y % 400 == 0 {
      var q := y / 400;
      assert y == 400 * q;
      assert y == 100 * (4 * q) + 0;
    }
    if y % 100 == 0 {
      var q := y / 100;
      assert y == 100 * q;
      assert y == 4 * (25 * q) + 0;
    }
  }

  /** Every year in between adds at least 365 days. */
  lemma {:induction false} YearsMonotone(a: int, b: int)
    requires 1 <= a <= b
    ensures DaysBeforeYear(a) + 365 * (b - a) <= DaysBeforeYear(b)
    decreases b - a
  {
    if a < b {
      YearsMonotone(a, b - 1);
      YearStep(b - 1);
    }
  }

  lemma MonthsMonotone(y: int, a: int, b: int)
    requires 1 <= a <= b <= 13
    ensures DaysBeforeMonth(y, a) <= DaysBeforeMonth(y, b)
  {
  }

  /** A valid date's number lies inside its year. */
  lemma DayNumberInYear(d: Date)
    requires IsValid(d)
    ensures DaysBeforeYear(d.year) <= DayNumber(d) < DaysBeforeYear(d.year + 1)
  {
    YearStep(d.year);
  }

  /** Every valid date has a number between 1 January 1 and 31 December 9999. */
  lemma DayNumberRange(d: Date)
    requires IsValid(d)
    ensures 0 <= DayNumber(d) <= LastDayNumber
  {
    DayNumberInYear(d);
    YearsMonotone(1, d.year);
    DayNumberInYear(Date(MaxYear, 12, 31));
    if d.year < MaxYear {
      YearsMonotone(d.year + 1, MaxYear);
    }
  }

  /** Day numbering follows calendar order, in both directions. */
  lemma DayNumberOrder(a: Date, b: Date)
    requires IsValid(a) && IsValid(b)
    ensures Before(a, b) <==> DayNumber(a) < DayNumber(b)
    ensures a == b <==> DayNumber(a) == DayNumber(b)
  {
    if a.year < b.year {
      DayNumberInYear(a);
      DayNumberInYear(b);
      YearsMonotone(a.year + 1, b.year);
    } else if b.year < a.year {
      DayNumberInYear(a);
      DayNumberInYear(b);
      YearsMonotone(b.year + 1, a.year);
    } else if a.month < b.month {
      MonthTable(a.year, a.month);
      MonthsMonotone(a.year, a.month + 1, b.month);
    } else if b.month < a.month {
      MonthTable(b.year, b.month);
      MonthsMonotone(b.year, b.month + 1, a.month);
    }
  }

  /**
    `DateTime.AddYears(n)`: the year moves by `n`, month and day stay, except that
    29 February becomes 28 February when the new year is not a leap year. `None` is
    the `ArgumentOutOfRangeException` thrown when the new year leaves 1..9999.
   */
  function AddYears(d: Date, n: int): (r: Option<Date>)
    ensures r.Some? <==> MinYear <= d.year + n <= MaxYear
    ensures r.Some? && IsValid(d) ==> IsValid(r.value)
  {
    var y := d.year + n;
    if y < MinYear || y > MaxYear then None
    else if d.month == 2 && d.day == 29 && !IsLeapYear(y) then Some(Date(y, 2, 28))
    else Some(Date(y, d.month, d.day))
  }

  function Min(a: int, b: int): int {
    if a <= b then a else b
  }

  /** The new date keeps the month and clamps the day to the length of that month in the new year. */
  lemma AddYearsClamps(d: Date, n: int)
    requires IsValid(d) && AddYears(d, n).Some?
    ensures AddYears(d, n).value
         == Date(d.year + n, d.month, Min(d.day, DaysInMonth(d.year + n, d.month)))
  {
  }

  /** 70 years after a leap year is never a leap year, so a 29 February birthday always moves to 28 February. */
  lemma LeapDayClampedAfterSeventy(y: int)
    requires MinYear <= y <= MaxYear - 70 && IsLeapYear(y)
    ensures !IsLeapYear(y + 70)
    ensures AddYears(Date(y, 2, 29), 70) == Some(Date(y + 70, 2, 28))
  {
    assert (y + 70) % 4 == 2;
  }

  /**
    Adding the same number of years keeps calendar order, except that 28 and 29 February
    of a leap year land on the same day when the new year is not a leap year.
   */
  lemma AddYearsMonotone(a: Date, b: Date, n: int)
    requires IsValid(a) && IsValid(b) && Before(a, b)
    requires AddYears(a, n).Some? && AddYears(b, n).Some?
    ensures var ta, tb := AddYears(a, n).value, AddYears(b, n).value;
      (ta == tb <==> a.month == 2 && a.day == 28 && b == Date(a.year, 2, 29) && !IsLeapYear(a.year + n))
      && (ta != tb ==> Before(ta, tb))
  {
  }
}
