/** The proleptic Gregorian calendar behind `compute_next_run`: months are numbered from January of year 1, days
    from 1 January of year 1. */
module Calendar {

  predicate IsLeap(year: int) {
    year % 4 == 0 && (year % 100 != 0 || year % 400 == 0)
  }

  function YearOf(m: nat): int { m / 12 + 1 }

  function MonthInYear(m: nat): (month: int)
    ensures 1 <= month <= 12
  {
    m % 12 + 1
  }

  /** The number of days of a month of a year. */
  function DaysIn(year: int, month: int): (days: nat)
    ensures 28 <= days <= 31
  {
    if month == 2 then (if IsLeap(year) then 29 else 28)
    else if month == 4 || month == 6 || month == 9 || month == 11 then 30
    else 31
  }

  function MonthLength(m: nat): nat { DaysIn(YearOf(m), MonthInYear(m)) }

  /** The day number of the first day of month m. */
  function MonthStart(m: nat): nat {
    if m == 0 then 0 else MonthStart(m - 1) + MonthLength(m - 1)
  }

  lemma {:induction false} MonthStartsSpread(m: nat, n: nat)
    requires m <= n
    ensures MonthStart(n) >= MonthStart(m) + 28 * (n - m)
  {
    hide DaysIn;
    if m < n {
      MonthStartsSpread(m, n - 1);
    }
  }

  lemma {:induction false} MonthStartsNear(m: nat, n: nat)
    requires m <= n
    ensures MonthStart(n) <= MonthStart(m) + 31 * (n - m)
  {
    hide DaysIn, YearOf, MonthInYear;
    if m < n {
      MonthStartsNear(m, n - 1);
    }
  }

  /** The month a day falls in, searched upwards from month m. */
  function MonthFrom(day: nat, m: nat): (r: nat)
    requires MonthStart(m) <= day
    ensures MonthStart(r) <= day < MonthStart(r + 1)
    decreases day - MonthStart(m)
  {
    if day < MonthStart(m + 1) then m else MonthFrom(day, m + 1)
  }

  function MonthOfDay(day: nat): (r: nat)
    ensures MonthStart(r) <= day < MonthStart(r + 1)
  {
    MonthFrom(day, 0)
  }

  lemma {:induction false} MonthOfDayUnique(day: nat, m: nat)
    requires MonthStart(m) <= day < MonthStart(m + 1)
    ensures MonthOfDay(day) == m
  {
    hide MonthFrom, MonthLength;
    var r := MonthOfDay(day);
    if r < m {
      MonthStartsSpread(r + 1, m);
    } else if m < r {
      MonthStartsSpread(m + 1, r);
    }
  }

  /** The days of a year before its month k + 1. */
  function DaysBefore(year: int, k: nat): nat
    requires k <= 12
  {
    if k == 0 then 0 else DaysBefore(year, k - 1) + DaysIn(year, k)
  }

  lemma MonthPosition(y: nat, k: nat)
    requires k < 12
    ensures YearOf(12 * y + k) == y + 1 && MonthInYear(12 * y + k) == k + 1
  {
  }

  lemma {:induction false} MonthWithinYear(y: nat, k: nat)
    requires k <= 12
    ensures MonthStart(12 * y + k) == MonthStart(12 * y) + DaysBefore(y + 1, k)
  {
    hide DaysIn, YearOf, MonthInYear;
    if k > 0 {
      MonthWithinYear(y, k - 1);
      var m := 12 * y + (k - 1);
      MonthPosition(y, k - 1);
      assert MonthStart(m + 1) == MonthStart(m) + MonthLength(m);
    }
  }

  /** The days of a year before its month k, counting from 1: months of 30.58 days rounded down, less what February is
      short of 30 days. */
  lemma DaysBeforeClosedForm(year: int, k: nat)
    requires 1 <= k <= 13
    ensures DaysBefore(year, k - 1) == (367 * k - 362) / 12 - (if k <= 2 then 0 else if IsLeap(year) then 1 else 2)
  {
    hide IsLeap;
    if k > 1 {
      DaysBeforeClosedForm(year, k - 1);
    }
  }

  lemma DaysOfYear(year: int)
    ensures DaysBefore(year, 12) == if IsLeap(year) then 366 else 365
  {
    DaysBeforeClosedForm(year, 13);
  }

  /** Year y brings the leap-day count y/4 - y/100 + y/400 up by one exactly when it is a leap year. */
  lemma LeapDayCount(y: int)
    ensures y / 4 - y / 100 + y / 400
            == (y - 1) / 4 - (y - 1) / 100 + (y - 1) / 400 + (if IsLeap(y) then 1 else 0)
  {
    MultiplesUpTo(y, 4);
    MultiplesUpTo(y, 100);
    MultiplesUpTo(y, 400);
    CenturiesAreMultiplesOfFour(y);
  }

  lemma CenturiesAreMultiplesOfFour(y: int)
    ensures y % 100 == 0 ==> y % 4 == 0
    ensures y % 400 == 0 ==> y % 100 == 0
  {
    if y % 100 == 0 {
      assert y == 4 * (25 * (y / 100));
    }
    if y % 400 == 0 {
      assert y == 100 * (4 * (y / 400));
    }
  }

  lemma MultiplesUpTo(y: int, d: int)
    requires d == 4 || d == 100 || d == 400
    ensures y / d == (y - 1) / d + (if y % d == 0 then 1 else 0)
  {
  }

  /** Adding up month lengths gives the closed form of the calendar: 365 days a year, a leap day every fourth year
      except in centuries not divisible by 400. */
  lemma {:induction false} YearStartClosedForm(y: nat)
    ensures MonthStart(12 * y) == 365 * y + y / 4 - y / 100 + y / 400
  {
    hide IsLeap, DaysIn;
    if y > 0 {
      YearStartClosedForm(y - 1);
      MonthWithinYear(y - 1, 12);
      DaysOfYear(y);
      assert 12 * (y - 1) + 12 == 12 * y;
      LeapDayCount(y);
    }
  }

  /** Every month starts on its day of the Gregorian calendar: the closed form for month k of year y + 1. */
  lemma MonthStartClosedForm(y: nat, k: nat)
    requires 1 <= k <= 12
    ensures MonthStart(12 * y + k - 1)
            == 365 * y + y / 4 - y / 100 + y / 400
             + (367 * k - 362) / 12 - (if k <= 2 then 0 else if IsLeap(y + 1) then 1 else 2)
  {
    hide IsLeap, DaysIn;
    YearStartClosedForm(y);
    MonthWithinYear(y, k - 1);
    DaysBeforeClosedForm(y + 1, k);
  }
}
