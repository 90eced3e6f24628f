/** The proleptic Gregorian calendar of Python's datetime, and the month arithmetic built on it. */
module Calendar {
  import opened Collections
  import opened Progression

  const MAX_YEAR: int := 9999
  /** Microseconds in a day, and the last instant a datetime can hold, counted from year one. */
  const DAY: int := 86_400_000_000
  const MAX_INSTANT: int := 3_652_059 * DAY - 1

  datatype Date = Date(year: int, month: int, day: int)

  predicate IsLeap(year: int) {
    year % 4 == 0 && (year % 100 != 0 || year % 400 == 0)
  }

  /** `monthrange(year, month)[1]` */
  function LastDay(year: int, month: int): (n: int)
    ensures 28 <= n <= 31
  {
    if month == 2 then if IsLeap(year) then 29 else 28
    else if month == 4 || month == 6 || month == 9 || month == 11 then 30
    else 31
  }

  predicate IsDate(d: Date) {
    1 <= d.year <= MAX_YEAR && 1 <= d.month <= 12 && 1 <= d.day <= LastDay(d.year, d.month)
  }

  type CalendarDate = d: Date | IsDate(d) witness Date(1, 1, 1)

  /** `date(year, month, day)`; None is the ValueError. */
  function MakeDate(year: int, month: int, day: int): (r: Option<Date>)
    ensures r.Some? ==> IsDate(r.value)
  {
    if IsDate(Date(year, month, day)) then Some(Date(year, month, day)) else None
  }

  function MonthIndex(d: Date): int { d.year * 12 + (d.month - 1) }

  predicate IsMonthEnd(d: Date) { d.day == LastDay(d.year, d.month) }

  /** The date in this month with this day, or the month's last day when it is shorter or the convention says so. */
  function InMonth(index: int, day: int, endOfMonth: bool): (r: Option<Date>)
    ensures r.Some? ==> IsDate(r.value)
  {
    var last := LastDay(index / 12, index % 12 + 1);
    MakeDate(index / 12, index % 12 + 1, if endOfMonth || day > last then last else day)
  }

  /** `_add_calendar_months` */
  function AddMonths(d: Date, months: int, endOfMonth: bool): Option<Date> {
    InMonth(MonthIndex(d) + months, d.day, endOfMonth)
  }

  /** `_add_calendar_years` */
  function AddYears(d: Date, years: int): Option<Date> {
    MakeDate(d.year + years, d.month, d.day)
  }

  // --- laws of month arithmetic --------------------------------------------------------

  lemma SplitIndex(year: int, month: int)
    requires 1 <= month <= 12
    ensures (year * 12 + (month - 1)) / 12 == year && (year * 12 + (month - 1)) % 12 == month - 1
  {
  }

  /** Adding n months moves the month index by exactly n, and fails only outside the years 1 to 9999. */
  lemma AddMonthsAdvances(d: CalendarDate, n: int, endOfMonth: bool)
    ensures AddMonths(d, n, endOfMonth).Some? <==> 12 <= MonthIndex(d) + n < 12 * (MAX_YEAR + 1)
    ensures AddMonths(d, n, endOfMonth).Some? ==>
      var r := AddMonths(d, n, endOfMonth).value;
      && MonthIndex(r) == MonthIndex(d) + n
      && (endOfMonth ==> IsMonthEnd(r))
      && (!endOfMonth ==> r.day <= d.day && (r.day == d.day || IsMonthEnd(r)))
  {
    var total := MonthIndex(d) + n;
    assert total == (total / 12) * 12 + total % 12;
  }

  /**
    Month addition is additive exactly when the first step clamps no day the second would have kept:
    always at a month's end by convention, and always for days up to 28.
  */
  lemma AddMonthsAdditive(d: CalendarDate, a: int, b: int, endOfMonth: bool)
    requires AddMonths(d, a, endOfMonth).Some? && AddMonths(d, a + b, endOfMonth).Some?
    ensures var mid, direct := AddMonths(d, a, endOfMonth).value, AddMonths(d, a + b, endOfMonth);
      AddMonths(mid, b, endOfMonth) == direct <==>
        endOfMonth || d.day <= LastDay(mid.year, mid.month)
        || LastDay(direct.value.year, direct.value.month) <= LastDay(mid.year, mid.month)
    ensures d.day <= 28 || endOfMonth ==>
      AddMonths(AddMonths(d, a, endOfMonth).value, b, endOfMonth) == AddMonths(d, a + b, endOfMonth)
  {
    AddMonthsAdvances(d, a, endOfMonth);
    AddMonthsAdvances(d, a + b, endOfMonth);
    var mid, direct := AddMonths(d, a, endOfMonth).value, AddMonths(d, a + b, endOfMonth).value;
    assert MonthIndex(mid) + b == MonthIndex(d) + (a + b);
    hide IsLeap;
  }

  /** January 31 plus a month plus a month is March 28. */
  lemma MonthEndsAreLostOnTheWay()
    ensures AddMonths(AddMonths(Date(2023, 1, 31), 1, false).value, 1, false) == Some(Date(2023, 3, 28))
    ensures AddMonths(Date(2023, 1, 31), 2, false) == Some(Date(2023, 3, 31))
  {
  }

  /** Going back undoes going forward exactly when the day was not clamped. */
  lemma AddMonthsUndone(d: CalendarDate, n: int)
    requires AddMonths(d, n, false).Some?
    ensures var mid := AddMonths(d, n, false).value;
      AddMonths(mid, -n, false) == Some(d) <==> d.day <= LastDay(mid.year, mid.month)
  {
    SplitIndex(d.year, d.month);
    assert AddMonths(d, n + -n, false) == Some(d);
    AddMonthsAdditive(d, n, -n, false);
  }

  /** A year is twelve months, except from a leap day to a common year, where the year addition declines. */
  lemma YearsAreTwelveMonths(d: CalendarDate, years: int)
    ensures AddYears(d, years) == AddMonths(d, 12 * years, false) <==>
      !(d.month == 2 && d.day == 29 && 1 <= d.year + years <= MAX_YEAR && !IsLeap(d.year + years))
  {
    SplitIndex(d.year + years, d.month);
    assert MonthIndex(d) + 12 * years == (d.year + years) * 12 + (d.month - 1);
  }

  // --- the day count --------------------------------------------------------------------

  function DaysBeforeYear(year: int): int {
    (year - 1) * 365 + (year - 1) / 4 - (year - 1) / 100 + (year - 1) / 400
  }

  function DaysBeforeMonth(year: int, month: int): int
    requires month >= 1
    decreases month
  {
    if month == 1 then 0 else DaysBeforeMonth(year, month - 1) + LastDay(year, month - 1)
  }

  /** `date.toordinal()`: January 1 of year one is day one. */
  function Ordinal(d: CalendarDate): int {
    DaysBeforeYear(d.year) + DaysBeforeMonth(d.year, d.month) + d.day
  }

  lemma YearLength(year: int)
    ensures DaysBeforeYear(year + 1) == DaysBeforeYear(year) + if IsLeap(year) then 366 else 365
  {
    FloorStep(year, 4);
    FloorStep(year, 100);
    FloorStep(year, 400);
    if year % 100 == 0 { assert year % 4 == 0; }
    if year % 400 == 0 { assert year % 100 == 0; }
  }

  lemma FloorStep(year: int, n: int)
    requires n > 1
    ensures year / n == (year - 1) / n + if year % n == 0 then 1 else 0
  {
    var q, r := (year - 1) / n, (year - 1) % n;
    assert year - 1 == q * n + r;
    if r == n - 1 {
      assert year == (q + 1) * n by { assert (q + 1) * n == q * n + n; }
      DivideWithin(q + 1, 0, n);
    } else {
      DivideWithin(q, r + 1, n);
    }
  }

  lemma {:induction false} YearsIncrease(a: int, b: int)
    requires a <= b
    ensures DaysBeforeYear(a) + 365 * (b - a) <= DaysBeforeYear(b)
    decreases b - a
  {
    if a < b {
      YearsIncrease(a, b - 1);
      YearLength(b - 1);
    }
  }

  lemma {:induction false} MonthsIncrease(year: int, a: int, b: int)
    requires 1 <= a <= b
    ensures DaysBeforeMonth(year, a) <= DaysBeforeMonth(year, b)
    ensures a < b ==> DaysBeforeMonth(year, a) + LastDay(year, a) <= DaysBeforeMonth(year, b)
    decreases b - a
  {
    if a < b { MonthsIncrease(year, a, b - 1); }
  }

  lemma WithinTheYear(d: CalendarDate)
    ensures 1 <= DaysBeforeMonth(d.year, d.month) + d.day <= if IsLeap(d.year) then 366 else 365
  {
    MonthsIncrease(d.year, 1, d.month);
    MonthsIncrease(d.year, d.month, 12);
    DecemberStart(d.year);
  }

  lemma DecemberStart(y: int)
    ensures DaysBeforeMonth(y, 12) == if IsLeap(y) then 335 else 334
  {
    hide IsLeap;
    assert DaysBeforeMonth(y, 4) == LastDay(y, 2) + 62;
    assert DaysBeforeMonth(y, 8) == DaysBeforeMonth(y, 4) + 122;
    assert DaysBeforeMonth(y, 12) == DaysBeforeMonth(y, 8) + 122;
  }

  predicate Before(d: Date, e: Date) {
    d.year < e.year || (d.year == e.year && (d.month < e.month || (d.month == e.month && d.day < e.day)))
  }

  /** Later dates have greater day numbers, and the last date is day 3652059. */
  lemma OrdinalIsMonotone(d: CalendarDate, e: CalendarDate)
    requires Before(d, e)
    ensures Ordinal(d) < Ordinal(e)
  {
    WithinTheYear(d);
    WithinTheYear(e);
    hide DaysBeforeYear;
    if d.year < e.year {
      YearLength(d.year);
      YearsIncrease(d.year + 1, e.year);
    } else {
      MonthsIncrease(d.year, d.month, e.month);
    }
  }

  lemma OrdinalIsInjective(d: CalendarDate, e: CalendarDate)
    requires Ordinal(d) == Ordinal(e)
    ensures d == e
  {
    hide Ordinal, LastDay;
    if Before(d, e) { OrdinalIsMonotone(d, e); }
    if Before(e, d) { OrdinalIsMonotone(e, d); }
  }

  lemma OrdinalRange(d: CalendarDate)
    ensures 1 <= Ordinal(d) <= 3_652_059
  {
    WithinTheYear(d);
    hide DaysBeforeMonth;
    YearLength(d.year);
    YearsIncrease(1, d.year);
    YearsIncrease(d.year + 1, MAX_YEAR + 1);
  }

  /** The instant of a date and a time of day. */
  function Instant(d: CalendarDate, time: int): int {
    (Ordinal(d) - 1) * DAY + time
  }

  lemma InstantFits(d: CalendarDate, time: int)
    requires 0 <= time < DAY
    ensures 0 <= Instant(d, time) <= MAX_INSTANT
  {
    OrdinalRange(d);
    hide Ordinal;
  }

  // --- sorted dates -------------------------------------------------------------------------

  /** Dates as numbers in calendar order. */
  function Code(d: Date): int { MonthIndex(d) * 31 + (d.day - 1) }

  function FromCode(code: int): Date {
    Date(code / 31 / 12, code / 31 % 12 + 1, code % 31 + 1)
  }

  lemma CodeRoundTrip(d: CalendarDate)
    ensures FromCode(Code(d)) == d
  {
    hide LastDay;
    assert d.day <= 31;
    DivideWithin(MonthIndex(d), d.day - 1, 31);
    SplitIndex(d.year, d.month);
  }

  lemma CodeIsCalendarOrder(d: CalendarDate, e: CalendarDate)
    ensures Code(d) < Code(e) <==> Before(d, e)
  {
    hide LastDay;
    assert d.day <= 31 && e.day <= 31;
  }
}
