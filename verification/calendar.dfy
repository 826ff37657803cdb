/** The proleptic Gregorian calendar counted in days from 1970-01-01, the
    calendar in which `Date.prototype.toISOString` prints a time value. */
module Calendar {

  const EpochYear := 1970

  predicate IsLeapYear(y: int)
  {
    y % 4 == 0 && (y % 100 != 0 || y % 400 == 0)
  }

  function DaysInYear(y: int): (n: nat)
    ensures 365 <= n <= 366
  {
    if IsLeapYear(y) then 366 else 365
  }

  function DaysInMonth(y: int, m: int): (n: nat)
    requires 1 <= m <= 12
    ensures 28 <= n <= 31
  {
    if m == 2 then (if IsLeapYear(y) then 29 else 28)
    else if m == 4 || m == 6 || m == 9 || m == 11 then 30
    else 31
  }

  /** Days of year `y` before the first of month `m` (`m == 13`: the whole year). */
  function DaysBeforeMonth(y: int, m: int): nat
    requires 1 <= m <= 13
    decreases m
  {
    if m == 1 then 0 else DaysBeforeMonth(y, m - 1) + DaysInMonth(y, m - 1)
  }

  /** The twelve months make up the year. */
  lemma TwelveMonths(y: int)
    ensures DaysBeforeMonth(y, 13) == DaysInYear(y)
  {
    var feb := DaysInMonth(y, 2);
    assert DaysBeforeMonth(y, 3) == 31 + feb;
    assert DaysBeforeMonth(y, 5) == 92 + feb;
    assert DaysBeforeMonth(y, 7) == 153 + feb;
    assert DaysBeforeMonth(y, 9) == 215 + feb;
    assert DaysBeforeMonth(y, 11) == 276 + feb;
    assert DaysBeforeMonth(y, 13) == 337 + feb;
  }

  /** Months start later in the year as their number grows. */
  lemma {:induction false} DaysBeforeMonthMonotone(y: int, m1: int, m2: int)
    requires 1 <= m1 <= m2 <= 13
    ensures DaysBeforeMonth(y, m1) <= DaysBeforeMonth(y, m2)
    decreases m2 - m1
  {
    if m1 < m2 {
      DaysBeforeMonthMonotone(y, m1, m2 - 1);
    }
  }

  /** Days from 1970-01-01 to the first of January of year `y`. */
  function DaysBeforeYear(y: int): nat
    requires y >= EpochYear
    decreases y - EpochYear
  {
    if y == EpochYear then 0 else DaysBeforeYear(y - 1) + DaysInYear(y - 1)
  }

  /** A later year starts at least one whole year later. */
  lemma {:induction false} DaysBeforeYearGrows(y1: int, y2: int)
    requires EpochYear <= y1 < y2
    ensures DaysBeforeYear(y1) + DaysInYear(y1) <= DaysBeforeYear(y2)
    decreases y2 - y1
  {
    if y1 + 1 < y2 {
      DaysBeforeYearGrows(y1, y2 - 1);
    }
  }

  datatype Date = Date(year: nat, month: nat, day: nat)

  predicate ValidDate(d: Date)
  {
    d.year >= EpochYear && 1 <= d.month <= 12 && 1 <= d.day <= DaysInMonth(d.year, d.month)
  }

  /** The number of days from 1970-01-01 to `d`. */
  function DaysFromCivil(d: Date): nat
    requires ValidDate(d)
  {
    DaysBeforeYear(d.year) + DaysBeforeMonth(d.year, d.month) + d.day - 1
  }

  /** The year holding day `days` after the first of January of year `y`,
      and the day's offset inside that year. */
  function YearOf(y: int, days: nat): (r: (int, nat))
    requires y >= EpochYear
    ensures r.0 >= y && r.1 < DaysInYear(r.0)
    ensures DaysBeforeYear(r.0) + r.1 == DaysBeforeYear(y) + days
    decreases days
  {
    if days < DaysInYear(y) then (y, days) else YearOf(y + 1, days - DaysInYear(y))
  }

  /** The month, from `m` on, that holds day `doy` of year `y`. */
  function MonthOf(y: int, m: int, doy: nat): (r: int)
    requires 1 <= m <= 12 && DaysBeforeMonth(y, m) <= doy < DaysInYear(y)
    ensures m <= r <= 12 && DaysBeforeMonth(y, r) <= doy < DaysBeforeMonth(y, r + 1)
    decreases 12 - m
  {
    TwelveMonths(y);
    if doy < DaysBeforeMonth(y, m + 1) then m else MonthOf(y, m + 1, doy)
  }

  /** The calendar date `days` days after 1970-01-01: a valid date that
      counts back to `days`. */
  function CivilFromDays(days: nat): (d: Date)
    ensures ValidDate(d) && DaysFromCivil(d) == days
  {
    var (y, doy) := YearOf(EpochYear, days);
    var m := MonthOf(y, 1, doy);
    Date(y, m, doy - DaysBeforeMonth(y, m) + 1)
  }

  /** Two valid dates with the same day count are the same date. */
  lemma DaysFromCivilInjective(d1: Date, d2: Date)
    requires ValidDate(d1) && ValidDate(d2)
    requires DaysFromCivil(d1) == DaysFromCivil(d2)
    ensures d1 == d2
  {
    SameDayCountSameYear(d1, d2);
    SameDayCountSameMonth(d1, d2);
  }

  /** Two valid dates with the same day count lie in the same year. */
  lemma SameDayCountSameYear(d1: Date, d2: Date)
    requires ValidDate(d1) && ValidDate(d2)
    requires DaysFromCivil(d1) == DaysFromCivil(d2)
    ensures d1.year == d2.year
  {
    if d1.year < d2.year {
      LaterYearLaterDay(d1, d2);
    } else if d2.year < d1.year {
      LaterYearLaterDay(d2, d1);
    }
  }

  /** A date in a later year has a larger day count. */
  lemma LaterYearLaterDay(d1: Date, d2: Date)
    requires ValidDate(d1) && ValidDate(d2) && d1.year < d2.year
    ensures DaysFromCivil(d1) < DaysFromCivil(d2)
  {
    DayCountWindow(d1);
    DayCountWindow(d2);
    DaysBeforeYearGrows(d1.year, d2.year);
  }

  /** Two valid dates of one year with the same day count lie in the same month. */
  lemma SameDayCountSameMonth(d1: Date, d2: Date)
    requires ValidDate(d1) && ValidDate(d2) && d1.year == d2.year
    requires DaysFromCivil(d1) == DaysFromCivil(d2)
    ensures d1.month == d2.month
  {
    if d1.month < d2.month {
      LaterMonthLaterDay(d1, d2);
    } else if d2.month < d1.month {
      LaterMonthLaterDay(d2, d1);
    }
  }

  /** A date in a later month of the same year has a larger day count. */
  lemma LaterMonthLaterDay(d1: Date, d2: Date)
    requires ValidDate(d1) && ValidDate(d2) && d1.year == d2.year && d1.month < d2.month
    ensures DaysFromCivil(d1) < DaysFromCivil(d2)
  {
    DayCountWindow(d1);
    DayCountWindow(d2);
    DaysBeforeMonthMonotone(d1.year, d1.month + 1, d2.month);
  }

  /** The day count of a valid date lies inside its month, and its month
      inside its year. */
  lemma DayCountWindow(d: Date)
    requires ValidDate(d)
    ensures DaysBeforeYear(d.year) + DaysBeforeMonth(d.year, d.month) <= DaysFromCivil(d)
    ensures DaysFromCivil(d) < DaysBeforeYear(d.year) + DaysBeforeMonth(d.year, d.month + 1)
    ensures DaysBeforeMonth(d.year, d.month + 1) <= DaysInYear(d.year)
  {
    TwelveMonths(d.year);
    DaysBeforeMonthMonotone(d.year, d.month + 1, 13);
  }

  /** The plain bounds of a valid date, free of the leap-year rule. */
  lemma ValidDateBounds(d: Date)
    requires ValidDate(d)
    ensures EpochYear <= d.year && 1 <= d.month <= 12 && 1 <= d.day <= 31
  {
  }

  /** Every valid date from 1970 on is reached from its own day count. */
  lemma CivilFromDaysOfCivil(d: Date)
    requires ValidDate(d)
    ensures CivilFromDays(DaysFromCivil(d)) == d
  {
    DaysFromCivilInjective(CivilFromDays(DaysFromCivil(d)), d);
  }
}
