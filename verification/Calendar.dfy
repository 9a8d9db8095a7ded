/** Civil dates and their day numbers, sections 15.9.1.3 to 15.9.1.12 of ECMA-262 5.1. */
module Calendar {

  /* ---------- day numbers ---------- */

  predicate Leap(y: int) { y % 4 == 0 && (y % 100 != 0 || y % 400 == 0) }

  function YearLength(y: int): int { if Leap(y) then 366 else 365 }

  /** Number of the first day of year `y`, year by year from day 0, which is 1 January 1970. */
  function DayFromYear(y: int): int
    decreases if y < 1970 then 1970 - y else y - 1970
  {
    if y == 1970 then 0
    else if y > 1970 then DayFromYear(y - 1) + YearLength(y - 1)
    else DayFromYear(y + 1) - YearLength(y)
  }

  lemma YearSpan(y: int)
    ensures DayFromYear(y + 1) == DayFromYear(y) + YearLength(y)
  {
    if y < 1970 {
      assert DayFromYear(y) == DayFromYear(y + 1) - YearLength(y);
    } else {
      assert DayFromYear(y + 1) == DayFromYear(y + 1 - 1) + YearLength(y + 1 - 1);
    }
  }

  /** DayFromYear in closed form, as section 15.9.1.3 gives it. */
  function DayFromYearFormula(y: int): int {
    365 * (y - 1970) + (y - 1969) / 4 - (y - 1901) / 100 + (y - 1601) / 400
  }

  lemma FourthYears(y: int)
    ensures (y + 1 - 1969) / 4 == (y - 1969) / 4 + (if y % 4 == 0 then 1 else 0)
  {
  }

  lemma HundredthYears(y: int)
    ensures (y + 1 - 1901) / 100 == (y - 1901) / 100 + (if y % 100 == 0 then 1 else 0)
    ensures y % 100 == 0 ==> y % 4 == 0
  {
  }

  lemma FourHundredthYears(y: int)
    ensures (y + 1 - 1601) / 400 == (y - 1601) / 400 + (if y % 400 == 0 then 1 else 0)
    ensures y % 400 == 0 ==> y % 100 == 0
  {
  }

  lemma FormulaSpan(y: int)
    ensures DayFromYearFormula(y + 1) == DayFromYearFormula(y) + YearLength(y)
  {
    FourthYears(y);
    HundredthYears(y);
    FourHundredthYears(y);
  }

  /** The closed form counts the leap years right, for every year. */
  lemma {:induction false} FormulaIsDayFromYear(y: int)
    ensures DayFromYear(y) == DayFromYearFormula(y)
    decreases if y < 1970 then 1970 - y else y - 1970
  {
    if y > 1970 {
      FormulaIsDayFromYear(y - 1);
      FormulaSpan(y - 1);
    } else if y < 1970 {
      FormulaIsDayFromYear(y + 1);
      FormulaSpan(y);
    }
  }

  lemma {:induction false} YearsGrow(y: int, z: int)
    requires y <= z
    ensures DayFromYear(y) + 365 * (z - y) <= DayFromYear(z)
    decreases z - y
  {
    if y < z {
      YearsGrow(y, z - 1);
      YearSpan(z - 1);
    }
  }

  /** Days of the year before month `m`, counted from 0; month 12 stands for the end of the year. */
  function MonthStart(y: int, m: int): int
    requires 0 <= m <= 12
  {
    var leap := if Leap(y) then 1 else 0;
    if m == 0 then 0
    else if m == 1 then 31
    else if m == 2 then 59 + leap
    else if m == 3 then 90 + leap
    else if m == 4 then 120 + leap
    else if m == 5 then 151 + leap
    else if m == 6 then 181 + leap
    else if m == 7 then 212 + leap
    else if m == 8 then 243 + leap
    else if m == 9 then 273 + leap
    else if m == 10 then 304 + leap
    else if m == 11 then 334 + leap
    else 365 + leap
  }

  /** The lengths of the months. */
  lemma MonthLengths(y: int, m: int)
    requires 1 <= m <= 12
    ensures MonthStart(y, m) - MonthStart(y, m - 1)
            == if m == 4 || m == 6 || m == 9 || m == 11 then 30
               else if m == 2 then (if y % 4 == 0 && (y % 100 != 0 || y % 400 == 0) then 29 else 28)
               else 31
    ensures MonthStart(y, 0) == 0 && MonthStart(y, 12) == YearLength(y)
  {
  }

  /** MakeDay: months and days out of range carry over. */
  function MakeDay(year: int, month: int, date: int): int {
    var ym := year + month / 12;
    DayFromYear(ym) + MonthStart(ym, month % 12) + date - 1
  }

  datatype Civil = Civil(year: int, month: int, day: int)
  {
    predicate Valid() {
      1 <= month <= 12 && 1 <= day <= MonthStart(year, month) - MonthStart(year, month - 1)
    }

    /** Day number of a valid date. */
    function Number(): int
      requires 1 <= month <= 13
    {
      DayFromYear(year) + MonthStart(year, month - 1) + day - 1
    }

    predicate Before(o: Civil) {
      year < o.year || (year == o.year && (month < o.month || (month == o.month && day < o.day)))
    }
  }

  /** A date's day number is its MakeDay; a day more or less moves it by one. */
  lemma MakeDayOf(c: Civil, delta: int)
    requires c.Valid()
    ensures MakeDay(c.year, c.month - 1, c.day + delta) == c.Number() + delta
  {
    var m := c.month - 1;
    assert m / 12 == 0 && m % 12 == m;
  }

  /** The month, from `m` down, that contains the `k`-th day of year `y`. */
  function MonthDown(y: int, k: int, m: int): (r: int)
    requires 0 <= m <= 11 && 0 <= k < MonthStart(y, m + 1)
    ensures 0 <= r <= m && MonthStart(y, r) <= k < MonthStart(y, r + 1)
  {
    if k < MonthStart(y, m) then MonthDown(y, k, m - 1) else m
  }

  /** The civil date of day `n`, searching the years from `y` on. */
  function FromDayNear(n: int, y: int): Civil
    decreases if n < DayFromYear(y) then DayFromYear(y) - n else if n >= DayFromYear(y + 1)
        then n - DayFromYear(y + 1) + 1 else 0
  {
    YearSpan(y);
    YearSpan(y - 1);
    if n < DayFromYear(y) then FromDayNear(n, y - 1)
    else if n >= DayFromYear(y + 1) then FromDayNear(n, y + 1)
    else
      var k := n - DayFromYear(y);
      var m := MonthDown(y, k, 11);
      Civil(y, m + 1, k - MonthStart(y, m) + 1)
  }

  function FromDay(n: int): Civil { FromDayNear(n, 1970) }

  lemma {:induction false} FromDayNearIs(n: int, y: int)
    ensures FromDayNear(n, y).Valid() && FromDayNear(n, y).Number() == n
    decreases if n < DayFromYear(y) then DayFromYear(y) - n else if n >= DayFromYear(y + 1)
        then n - DayFromYear(y + 1) + 1 else 0
  {
    YearSpan(y);
    YearSpan(y - 1);
    if n < DayFromYear(y) { FromDayNearIs(n, y - 1); }
    else if n >= DayFromYear(y + 1) { FromDayNearIs(n, y + 1); }
  }

  /** The date found is valid, and has the day number searched for. */
  lemma FromDayIs(n: int)
    ensures FromDay(n).Valid() && FromDay(n).Number() == n
  {
    FromDayNearIs(n, 1970);
  }

  /** Dates are ordered as their day numbers. */
  lemma DatesOrdered(c: Civil, o: Civil)
    requires c.Valid() && o.Valid() && c.Before(o)
    ensures c.Number() < o.Number()
  {
    NumberInYear(c);
    NumberInYear(o);
    if c.year < o.year {
      YearsGrow(c.year + 1, o.year);
    } else if c.month < o.month {
      MonthsGrow(c.year, c.month, o.month - 1);
    }
  }

  lemma NumberInYear(c: Civil)
    requires c.Valid()
    ensures DayFromYear(c.year) <= c.Number() < DayFromYear(c.year + 1)
  {
    YearSpan(c.year);
    MonthsGrow(c.year, c.month, 12);
    MonthsGrow(c.year, 0, c.month - 1);
  }

  lemma MonthsGrow(y: int, m: int, n: int)
    requires 0 <= m <= n <= 12
    ensures MonthStart(y, m) <= MonthStart(y, n)
  {
  }

  lemma FromDayOfNumber(c: Civil)
    requires c.Valid()
    ensures FromDay(c.Number()) == c
  {
    var d := FromDay(c.Number());
    FromDayIs(c.Number());
    if c.Before(d) { DatesOrdered(c, d); }
    if d.Before(c) { DatesOrdered(d, c); }
  }
}
