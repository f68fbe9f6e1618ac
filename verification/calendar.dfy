/** The proleptic Gregorian calendar the browser's `Date` works in, and the
    day numbers the statistics engine uses instead of `Date` objects.

    The engine keys completions by a whole local calendar day. Here a day is
    an integer, 0001-01-01 being day 0; `DayNumber` and `CivilFromDay` convert
    between the two views and are proved mutually inverse and order
    preserving, so "one day earlier" (`setDate(getDate() - 1)`) is `d - 1`. */
module Calendar {

  /** A local calendar day, counted in whole days from 0001-01-01. */
  type Day = int

  /** Milliseconds in a day; every day is taken to be 24 hours long. */
  const MsPerDay: int := 86_400_000

  /** A calendar date as the `Date` getters report it: full year, 1-based
      month and day of month. */
  datatype CivilDate = CivilDate(year: int, month: int, day: int)

  predicate IsLeapYear(y: int) {
    (y % 4 == 0 && y % 100 != 0) || y % 400 == 0
  }

  function DaysInYear(y: int): (n: int)
    ensures n == 365 || n == 366
  {
    if IsLeapYear(y) then 366 else 365
  }

  function DaysInMonth(y: int, m: int): (n: int)
    requires 1 <= m <= 12
    ensures 28 <= n <= 31
  {
    if m == 2 then (if IsLeapYear(y) then 29 else 28)
    else if m == 4 || m == 6 || m == 9 || m == 11 then 30
    else 31
  }

  /** A date that exists: month 1..12 and a day within that month. */
  predicate ValidDate(d: CivilDate) {
    1 <= d.month <= 12 && 1 <= d.day <= DaysInMonth(d.year, d.month)
  }

  /** Chronological order of dates: by year, then month, then day. */
  predicate DateBefore(a: CivilDate, b: CivilDate) {
    a.year < b.year
    || (a.year == b.year && (a.month < b.month || (a.month == b.month && a.day < b.day)))
  }

  /** Days in the months of year `y` before month `m` (`m == 13` gives the whole year). */
  function DaysBeforeMonth(y: int, m: int): (n: nat)
    requires 1 <= m <= 13
    decreases m
  {
    if m == 1 then 0 else DaysBeforeMonth(y, m - 1) + DaysInMonth(y, m - 1)
  }

  /** Days from 0001-01-01 to the first day of year `y`; negative before year 1. */
  function DaysBeforeYear(y: int): int
    decreases if y >= 1 then y else 2 - y
  {
    if y == 1 then 0
    else if y > 1 then DaysBeforeYear(y - 1) + DaysInYear(y - 1)
    else DaysBeforeYear(y + 1) - DaysInYear(y)
  }

  /** The day number of a date. */
  function DayNumber(d: CivilDate): Day
    requires ValidDate(d)
  {
    DaysBeforeYear(d.year) + DaysBeforeMonth(d.year, d.month) + d.day - 1
  }

  lemma DaysBeforeYearStep(y: int)
    ensures DaysBeforeYear(y + 1) == DaysBeforeYear(y) + DaysInYear(y)
  {
  }

  lemma {:induction false} DaysBeforeYearMonotone(y: int, y': int)
    requires y < y'
    ensures DaysBeforeYear(y) + DaysInYear(y) <= DaysBeforeYear(y')
    decreases y' - y
  {
    DaysBeforeYearStep(y);
    if y + 1 < y' {
      DaysBeforeYearMonotone(y + 1, y');
    }
  }

  /** Days before year `y`, counted in closed form: 365 a year plus one for
      each leap year, by the Gregorian rule. */
  lemma {:induction false} DaysBeforeYearClosed(y: int)
    requires y >= 1
    ensures DaysBeforeYear(y) == 365 * (y - 1) + (y - 1) / 4 - (y - 1) / 100 + (y - 1) / 400
    decreases y
  {
    if y > 1 {
      DaysBeforeYearClosed(y - 1);
      LeapCountStep(y - 2);
      LeapYearDays(y - 1);
      assert DaysBeforeYear(y) == DaysBeforeYear(y - 1) + DaysInYear(y - 1);
    }
  }

  /** A year has 365 days, plus one in a leap year. */
  lemma LeapYearDays(y: int)
    ensures DaysInYear(y) == 365 + (if y % 4 == 0 then 1 else 0)
      - (if y % 100 == 0 then 1 else 0) + (if y % 400 == 0 then 1 else 0)
  {
  }

  /** Counting multiples of 4, 100 and 400 one year further on adds one
      exactly when the next year is such a multiple. */
  lemma LeapCountStep(x: int)
    ensures (x + 1) / 4 == x / 4 + (if (x + 1) % 4 == 0 then 1 else 0)
    ensures (x + 1) / 100 == x / 100 + (if (x + 1) % 100 == 0 then 1 else 0)
    ensures (x + 1) / 400 == x / 400 + (if (x + 1) % 400 == 0 then 1 else 0)
  {
  }

  /** The twelve months fill the year exactly. */
  lemma MonthsFillYear(y: int)
    ensures DaysBeforeMonth(y, 13) == DaysInYear(y)
  {
    assert DaysBeforeMonth(y, 2) == 31;
    assert DaysBeforeMonth(y, 3) == 31 + DaysInMonth(y, 2);
    assert DaysBeforeMonth(y, 4) == 62 + DaysInMonth(y, 2);
    assert DaysBeforeMonth(y, 5) == 92 + DaysInMonth(y, 2);
    assert DaysBeforeMonth(y, 6) == 123 + DaysInMonth(y, 2);
    assert DaysBeforeMonth(y, 7) == 153 + DaysInMonth(y, 2);
    assert DaysBeforeMonth(y, 8) == 184 + DaysInMonth(y, 2);
    assert DaysBeforeMonth(y, 9) == 215 + DaysInMonth(y, 2);
    assert DaysBeforeMonth(y, 10) == 245 + DaysInMonth(y, 2);
    assert DaysBeforeMonth(y, 11) == 276 + DaysInMonth(y, 2);
    assert DaysBeforeMonth(y, 12) == 306 + DaysInMonth(y, 2);
  }

  lemma {:induction false} DaysBeforeMonthMonotone(y: int, m: int, m': int)
    requires 1 <= m < m' <= 13
    ensures DaysBeforeMonth(y, m) + DaysInMonth(y, m) <= DaysBeforeMonth(y, m')
    decreases m' - m
  {
    if m + 1 < m' {
      DaysBeforeMonthMonotone(y, m + 1, m');
    }
  }

  /** A date's offset inside its year is below the length of the year. */
  lemma DayOfYearBound(d: CivilDate)
    requires ValidDate(d)
    ensures DaysBeforeMonth(d.year, d.month) + d.day - 1 < DaysInYear(d.year)
  {
    MonthsFillYear(d.year);
    if d.month < 12 {
      DaysBeforeMonthMonotone(d.year, d.month, 13);
    }
  }

  /** Day numbers follow chronological order, in both directions. */
  lemma DayNumberOrder(a: CivilDate, b: CivilDate)
    requires ValidDate(a) && ValidDate(b)
    ensures DateBefore(a, b) <==> DayNumber(a) < DayNumber(b)
  {
    if DateBefore(a, b) {
      DayNumberBefore(a, b);
    } else if DateBefore(b, a) {
      DayNumberBefore(b, a);
    } else {
      assert a == b;
    }
  }

  lemma DayNumberBefore(a: CivilDate, b: CivilDate)
    requires ValidDate(a) && ValidDate(b) && DateBefore(a, b)
    ensures DayNumber(a) < DayNumber(b)
  {
    if a.year < b.year {
      DayOfYearBound(a);
      DaysBeforeYearMonotone(a.year, b.year);
    } else if a.month < b.month {
      DaysBeforeMonthMonotone(a.year, a.month, b.month);
    }
  }

  /** Distinct dates have distinct day numbers. */
  lemma DayNumberInjective(a: CivilDate, b: CivilDate)
    requires ValidDate(a) && ValidDate(b) && DayNumber(a) == DayNumber(b)
    ensures a == b
  {
    DayNumberOrder(a, b);
    DayNumberOrder(b, a);
  }

  /** The calendar successor of a date: what `setDate(getDate() + 1)` yields. */
  function NextDate(d: CivilDate): (r: CivilDate)
    requires ValidDate(d)
    ensures ValidDate(r) && DateBefore(d, r)
    ensures DayNumber(r) == DayNumber(d) + 1
  {
    if d.day < DaysInMonth(d.year, d.month) then
      CivilDate(d.year, d.month, d.day + 1)
    else if d.month < 12 then
      CivilDate(d.year, d.month + 1, 1)
    else
      MonthsFillYear(d.year);
      DaysBeforeYearStep(d.year);
      CivilDate(d.year + 1, 1, 1)
  }

  /** The date `n` days after the first day of month `m` of year `y`. */
  function DateInMonths(y: int, m: int, n: int): (r: CivilDate)
    requires 1 <= m <= 12 && 0 <= n < DaysBeforeMonth(y, 13) - DaysBeforeMonth(y, m)
    ensures ValidDate(r) && r.year == y
    ensures DaysBeforeMonth(y, r.month) + r.day - 1 == DaysBeforeMonth(y, m) + n
    decreases 12 - m
  {
    if n < DaysInMonth(y, m) then CivilDate(y, m, n + 1)
    else DateInMonths(y, m + 1, n - DaysInMonth(y, m))
  }

  /** The date `n` days after the first day of year `y` (`n` may be negative). */
  function DateFromYear(y: int, n: int): (r: CivilDate)
    ensures ValidDate(r)
    ensures DayNumber(r) == DaysBeforeYear(y) + n
    decreases if n < 0 then 1000 - n else n
  {
    if n < 0 then
      DaysBeforeYearStep(y - 1);
      DateFromYear(y - 1, n + DaysInYear(y - 1))
    else if n < DaysInYear(y) then
      MonthsFillYear(y);
      DateInMonths(y, 1, n)
    else
      DaysBeforeYearStep(y);
      DateFromYear(y + 1, n - DaysInYear(y))
  }

  /** The calendar date of a day number: the inverse of `DayNumber`. */
  function CivilFromDay(d: Day): (r: CivilDate)
    ensures ValidDate(r) && DayNumber(r) == d
  {
    DateFromYear(1, d)
  }

  /** Converting a date to its day number and back gives the same date. */
  lemma CivilFromDayNumber(c: CivilDate)
    requires ValidDate(c)
    ensures CivilFromDay(DayNumber(c)) == c
  {
    DayNumberInjective(CivilFromDay(DayNumber(c)), c);
  }

  /** Day `d + 1` is the calendar successor of day `d`. */
  lemma NextDayIsNextDate(d: Day)
    ensures CivilFromDay(d + 1) == NextDate(CivilFromDay(d))
  {
    DayNumberInjective(CivilFromDay(d + 1), NextDate(CivilFromDay(d)));
  }

  /** Smaller day numbers are exactly the chronologically earlier dates. */
  lemma CivilFromDayOrder(a: Day, b: Day)
    ensures a < b <==> DateBefore(CivilFromDay(a), CivilFromDay(b))
  {
    DayNumberOrder(CivilFromDay(a), CivilFromDay(b));
  }

  /** First day of the year 1000 and first day of the year 10000. */
  const FirstFourDigitDay: Day := 364877
  const FourDigitDaysEnd: Day := 3652059

  /** The day falls in a year written with four digits. */
  predicate InFourDigitYear(d: Day) {
    FirstFourDigitDay <= d < FourDigitDaysEnd
  }

  /** Exactly the days in this range fall in a year written with four
      digits. */
  lemma FourDigitYearDays(d: Day)
    ensures 1000 <= CivilFromDay(d).year <= 9999 <==> InFourDigitYear(d)
  {
    var c := CivilFromDay(d);
    DayOfYearBound(c);
    YearBetween(c.year, d, 1000, 10000);
    FourDigitBounds();
  }

  /** A day lies in the years `lo` to `hi - 1` exactly when it lies between
      their first days. */
  lemma YearBetween(y: int, d: Day, lo: int, hi: int)
    requires lo < hi
    requires DaysBeforeYear(y) <= d < DaysBeforeYear(y) + DaysInYear(y)
    ensures lo <= y < hi <==> DaysBeforeYear(lo) <= d < DaysBeforeYear(hi)
  {
    if y < lo {
      DaysBeforeYearMonotone(y, lo);
    } else if y > hi {
      DaysBeforeYearMonotone(hi, y);
    } else if y < hi {
      if lo < y {
        DaysBeforeYearMonotone(lo, y);
      }
      DaysBeforeYearMonotone(y, hi);
    }
  }

  /** The range's ends are the first days of the years 1000 and 10000. */
  lemma FourDigitBounds()
    ensures DaysBeforeYear(1000) == FirstFourDigitDay
    ensures DaysBeforeYear(10000) == FourDigitDaysEnd
  {
    DaysBeforeYearClosed(1000);
    DaysBeforeYearClosed(10000);
  }
}
