/**
 * Gregorian civil dates in the range of Python's `datetime.date` (years 1 to 9999)
 * and the operations the date-range parser performs on them: stepping back a number
 * of days (`date - timedelta(days=n)`), moving to the first day of the month
 * (`replace(day=1)`) and building 1 January and 31 December of a year.
 *
 * Python computes `date - timedelta(days=n)` through the proleptic Gregorian ordinal
 * (0001-01-01 is day 1) and raises OverflowError when the result falls outside the
 * range.  `Ordinal` is that numbering; the day-by-day model `SubDays` is proved to
 * land exactly on "ordinal minus n", and to fail exactly when that is below 1.
 */
module CivilDate {
  import opened Wrappers

  const MinYear := 1
  const MaxYear := 9999

  datatype Date = Date(year: int, month: int, day: int)

  predicate IsLeapYear(y: int) {
    y % 4 == 0 && (y % 100 != 0 || y % 400 == 0)
  }

  function DaysInMonth(y: int, m: int): int
    requires 1 <= m <= 12
  {
    if m == 2 then (if IsLeapYear(y) then 29 else 28)
    else if m == 4 || m == 6 || m == 9 || m == 11 then 30
    else 31
  }

  function DaysInYear(y: int): int {
    if IsLeapYear(y) then 366 else 365
  }

  /** A date Python's `datetime.date` can represent. */
  predicate Valid(d: Date) {
    MinYear <= d.year <= MaxYear && 1 <= d.month <= 12 && 1 <= d.day <= DaysInMonth(d.year, d.month)
  }

  /** Chronological order: lexicographic on (year, month, day). */
  predicate Before(a: Date, b: Date) {
    a.year < b.year || (a.year == b.year && (a.month < b.month || (a.month == b.month && a.day < b.day)))
  }

  predicate NotAfter(a: Date, b: Date) {
    Before(a, b) || a == b
  }

  /** Days in the years before year `y`, counted from year 1. */
  function DaysBeforeYear(y: int): nat
    requires y >= 1
  {
    if y == 1 then 0 else DaysBeforeYear(y - 1) + DaysInYear(y - 1)
  }

  /** Days in the months of year `y` before month `m`. */
  function DaysBeforeMonth(y: int, m: int): nat
    requires 1 <= m <= 12
  {
    if m == 1 then 0 else DaysBeforeMonth(y, m - 1) + DaysInMonth(y, m - 1)
  }

  /** Proleptic Gregorian ordinal: 0001-01-01 is day 1 (Python's `date.toordinal`). */
  function Ordinal(d: Date): int
    requires Valid(d)
  {
    DaysBeforeYear(d.year) + DaysBeforeMonth(d.year, d.month) + d.day
  }

  /** Python's table of days before each month in a common year. */
  function CommonDaysBeforeMonth(m: int): int
    requires 1 <= m <= 12
  {
    [0, 31, 59, 90, 120, 151, 181, 212, 243, 273, 304, 334][m - 1]
  }

  // ---------------------------------------------------------------------------
  // The ordinal agrees with the closed formulas and is an order isomorphism.
  // ---------------------------------------------------------------------------

  /** The month offsets are Python's table, plus one after February in a leap year. */
  lemma {:induction false} DaysBeforeMonthTable(y: int, m: int)
    requires 1 <= m <= 12
    ensures DaysBeforeMonth(y, m) == CommonDaysBeforeMonth(m) + (if m > 2 && IsLeapYear(y) then 1 else 0)
  {
    if m > 1 {
      DaysBeforeMonthTable(y, m - 1);
    }
  }

  lemma YearIsItsMonths(y: int)
    ensures DaysBeforeMonth(y, 12) + DaysInMonth(y, 12) == DaysInYear(y)
  {
    DaysBeforeMonthTable(y, 12);
  }

  /** The year offsets are Python's closed formula `365*k + k//4 - k//100 + k//400`, k = y - 1. */
  lemma {:induction false} DaysBeforeYearClosedForm(y: int)
    requires y >= 1
    ensures DaysBeforeYear(y) == 365 * (y - 1) + (y - 1) / 4 - (y - 1) / 100 + (y - 1) / 400
  {
    if y > 1 {
      DaysBeforeYearClosedForm(y - 1);
      QuotientStep(y - 1);
      assert DaysInYear(y - 1) == 365 + (if (y - 1) % 4 == 0 then 1 else 0)
        - (if (y - 1) % 100 == 0 then 1 else 0) + (if (y - 1) % 400 == 0 then 1 else 0);
    }
  }

  lemma QuotientStep(k: int)
    requires k >= 1
    ensures k / 4 == (k - 1) / 4 + (if k % 4 == 0 then 1 else 0)
    ensures k / 100 == (k - 1) / 100 + (if k % 100 == 0 then 1 else 0)
    ensures k / 400 == (k - 1) / 400 + (if k % 400 == 0 then 1 else 0)
    ensures (k % 400 == 0 ==> k % 100 == 0) && (k % 100 == 0 ==> k % 4 == 0)
  {
  }

  lemma {:induction false} MonthEndNotAfterLaterMonth(y: int, m1: int, m2: int)
    requires 1 <= m1 < m2 <= 12
    ensures DaysBeforeMonth(y, m1) + DaysInMonth(y, m1) <= DaysBeforeMonth(y, m2)
  {
    if m2 > m1 + 1 {
      MonthEndNotAfterLaterMonth(y, m1, m2 - 1);
    }
  }

  lemma {:induction false} YearEndNotAfterLaterYear(y1: int, y2: int)
    requires 1 <= y1 < y2
    ensures DaysBeforeYear(y1) + DaysInYear(y1) <= DaysBeforeYear(y2)
  {
    if y2 > y1 + 1 {
      YearEndNotAfterLaterYear(y1, y2 - 1);
    }
  }

  /** A valid date's day of the year stays within the year. */
  lemma DayOfYearWithinYear(d: Date)
    requires Valid(d)
    ensures 1 <= DaysBeforeMonth(d.year, d.month) + d.day <= DaysInYear(d.year)
  {
    if d.month < 12 {
      MonthEndNotAfterLaterMonth(d.year, d.month, 12);
    }
    YearIsItsMonths(d.year);
  }

  lemma OrdinalStrictlyMonotone(a: Date, b: Date)
    requires Valid(a) && Valid(b) && Before(a, b)
    ensures Ordinal(a) < Ordinal(b)
  {
    if a.year < b.year {
      DayOfYearWithinYear(a);
      YearEndNotAfterLaterYear(a.year, b.year);
    } else if a.month < b.month {
      MonthEndNotAfterLaterMonth(a.year, a.month, b.month);
    }
  }

  /** The ordinal orders dates chronologically, in both directions. */
  lemma OrdinalOrder(a: Date, b: Date)
    requires Valid(a) && Valid(b)
    ensures NotAfter(a, b) <==> Ordinal(a) <= Ordinal(b)
    ensures Before(a, b) <==> Ordinal(a) < Ordinal(b)
  {
    if Before(a, b) {
      OrdinalStrictlyMonotone(a, b);
    } else if Before(b, a) {
      OrdinalStrictlyMonotone(b, a);
    }
  }

  /** Two valid dates with the same ordinal are the same date. */
  lemma OrdinalInjective(a: Date, b: Date)
    requires Valid(a) && Valid(b) && Ordinal(a) == Ordinal(b)
    ensures a == b
  {
    OrdinalOrder(a, b);
  }

  // ---------------------------------------------------------------------------
  // Operations
  // ---------------------------------------------------------------------------

  /** One day back; None below 0001-01-01, where Python raises OverflowError. */
  function PrevDay(d: Date): (r: Option<Date>)
    requires Valid(d)
    ensures r.None? <==> d == Date(MinYear, 1, 1)
    ensures r.Some? ==> Valid(r.value) && Ordinal(r.value) + 1 == Ordinal(d) && Before(r.value, d)
  {
    if d.day > 1 then
      EarlierInMonth(d);
      Some(Date(d.year, d.month, d.day - 1))
    else if d.month > 1 then
      EndOfPreviousMonth(d);
      Some(Date(d.year, d.month - 1, DaysInMonth(d.year, d.month - 1)))
    else if d.year > MinYear then
      EndOfPreviousYear(d);
      Some(Date(d.year - 1, 12, 31))
    else None
  }

  /** Within a month, the day before is the previous day number. */
  lemma EarlierInMonth(d: Date)
    requires Valid(d) && d.day > 1
    ensures var e := Date(d.year, d.month, d.day - 1);
      Valid(e) && Ordinal(e) + 1 == Ordinal(d) && Before(e, d)
  {
  }

  /** The last day of the previous month is the day before the first of a month. */
  lemma EndOfPreviousMonth(d: Date)
    requires Valid(d) && d.day == 1 && d.month > 1
    ensures var e := Date(d.year, d.month - 1, DaysInMonth(d.year, d.month - 1));
      Valid(e) && Ordinal(e) + 1 == Ordinal(d) && Before(e, d)
  {
  }

  /** 31 December of the previous year is the day before 1 January. */
  lemma EndOfPreviousYear(d: Date)
    requires Valid(d) && d.day == 1 && d.month == 1 && d.year > MinYear
    ensures var e := Date(d.year - 1, 12, 31);
      Valid(e) && Ordinal(e) + 1 == Ordinal(d) && Before(e, d)
  {
    YearIsItsMonths(d.year - 1);
  }

  /** `d - timedelta(days=n)`: None exactly when Python raises OverflowError. */
  function SubDays(d: Date, n: nat): (r: Option<Date>)
    requires Valid(d)
    ensures r.None? <==> n >= Ordinal(d)
    ensures r.Some? ==> Valid(r.value) && Ordinal(r.value) == Ordinal(d) - n && NotAfter(r.value, d)
    decreases n
  {
    if n == 0 then Some(d)
    else match PrevDay(d)
      case None => None
      case Some(p) => SubDays(p, n - 1)
  }

  /** `d - timedelta(days=1)` is the day before. */
  lemma SubOneDay(d: Date)
    requires Valid(d)
    ensures SubDays(d, 1) == PrevDay(d)
  {
    match PrevDay(d)
    case None =>
    case Some(p) => assert SubDays(p, 0) == Some(p);
  }

  /** The date `SubDays` lands on is the only valid date n days before `d`. */
  lemma SubDaysExact(d: Date, n: nat, e: Date)
    requires Valid(d) && Valid(e)
    ensures SubDays(d, n) == Some(e) <==> Ordinal(e) == Ordinal(d) - n
  {
    var r := SubDays(d, n);
    if Ordinal(e) == Ordinal(d) - n {
      OrdinalInjective(r.value, e);
    }
  }

  /** `d.replace(day=1)`. */
  function FirstOfMonth(d: Date): (r: Date)
    requires Valid(d)
    ensures Valid(r) && NotAfter(r, d)
    ensures r.year == d.year && r.month == d.month && r.day == 1
    ensures Ordinal(d) - Ordinal(r) == d.day - 1
  {
    Date(d.year, d.month, 1)
  }

  /** `datetime(y, 1, 1)` and `datetime(y, 12, 31)`; None where Python raises ValueError. */
  function YearBounds(y: int): (r: Option<(Date, Date)>)
    ensures r.Some? <==> MinYear <= y <= MaxYear
    ensures r.Some? ==> r.value == (Date(y, 1, 1), Date(y, 12, 31))
    ensures r.Some? ==> Valid(r.value.0) && Valid(r.value.1) && Before(r.value.0, r.value.1)
    ensures r.Some? ==> Ordinal(r.value.1) - Ordinal(r.value.0) + 1 == DaysInYear(y)
  {
    if MinYear <= y <= MaxYear then
      YearIsItsMonths(y);
      Some((Date(y, 1, 1), Date(y, 12, 31)))
    else None
  }

  /** A valid date lies between 1 January and 31 December of year y exactly when it is in year y. */
  lemma YearBoundsContain(y: int, d: Date)
    requires MinYear <= y <= MaxYear && Valid(d)
    ensures var b := YearBounds(y).value;
      NotAfter(b.0, d) && NotAfter(d, b.1) <==> d.year == y
  {
  }
}
