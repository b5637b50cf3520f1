/** The calendar arithmetic the calculator performs with JavaScript `Date`
    objects: whole dates (no time of day, no time zone), the time-value order
    that `<` on two dates compares, and the day-overflow rollover that
    `setMonth` and `setFullYear` perform. */
module Calendar {

  datatype Option<T> = None | Some(value: T)

  /** A date as the `Date` getters report it: the full year, the month
      counted from 0 (January) to 11 (December), and the day of the month. */
  datatype Date = Date(year: int, month: int, day: int)

  predicate IsLeapYear(y: int) {
    y % 4 == 0 && (y % 100 != 0 || y % 400 == 0)
  }

  function DaysInMonth(y: int, m: int): (n: int)
    requires 0 <= m < 12
    ensures 28 <= n <= 31
    ensures n == 31 <==> m in {0, 2, 4, 6, 7, 9, 11}
  {
    if m == 1 then (if IsLeapYear(y) then 29 else 28)
    else if m == 3 || m == 5 || m == 8 || m == 10 then 30
    else 31
  }

  predicate ValidDate(d: Date) {
    0 <= d.month < 12 && 1 <= d.day <= DaysInMonth(d.year, d.month)
  }

  /** A date that exists in the proleptic Gregorian calendar. */
  type CalDate = d: Date | ValidDate(d) witness Date(1970, 0, 1)

  /** What `new Date(null)` denotes: time value 0. */
  const Epoch: CalDate := Date(1970, 0, 1)

  function YearLength(y: int): int {
    if IsLeapYear(y) then 366 else 365
  }

  /** Days from 1 January of year 0 to 1 January of year `y`. */
  function DaysBeforeYear(y: int): int {
    365 * y + (y + 3) / 4 - (y + 99) / 100 + (y + 399) / 400
  }

  /** Days from 1 January of year `y` to the first of month `m`. */
  function DaysBeforeMonth(y: int, m: int): int
    requires 0 <= m < 12
  {
    [0, 31, 59, 90, 120, 151, 181, 212, 243, 273, 304, 334][m]
      + (if m >= 2 && IsLeapYear(y) then 1 else 0)
  }

  /** The number of the day a date falls on. Under UTC, the JavaScript time
      value of a date is this number times 86 400 000, plus a constant. */
  function DayNumber(d: CalDate): int {
    DaysBeforeYear(d.year) + DaysBeforeMonth(d.year, d.month) + d.day - 1
  }

  /** `a < b` on two `Date` objects. */
  predicate Before(a: CalDate, b: CalDate) {
    DayNumber(a) < DayNumber(b)
  }

  /** `a <= b` on two `Date` objects. */
  predicate NotAfter(a: CalDate, b: CalDate) {
    DayNumber(a) <= DayNumber(b)
  }

  /** Calendar order, read off the (year, month, day) fields. */
  predicate LexBefore(a: Date, b: Date) {
    a.year < b.year
    || (a.year == b.year && (a.month < b.month || (a.month == b.month && a.day < b.day)))
  }

  /** Months counted from month 0 of year 0: `year * 12 + month`. */
  function MonthIndex(d: Date): int {
    d.year * 12 + d.month
  }

  /** The first day of the month with index `y * 12 + m`, for any `m`:
      the month overflow carries into the year, as in `new Date(y, m, 1)`. */
  function MonthStart(y: int, m: int): (r: CalDate)
    ensures MonthIndex(r) == y * 12 + m && r.day == 1
  {
    Date(y + m / 12, m % 12, 1)
  }

  /** JavaScript's MakeDay for a day of month between 1 and 31: the date
      `d - 1` days after the first of the month with index `y * 12 + m`, so
      that a day past the end of that month rolls into the next one. */
  function MakeDate(y: int, m: int, d: int): (r: CalDate)
    requires 1 <= d <= 31
    ensures DayNumber(r) == DayNumber(MonthStart(y, m)) + d - 1
    ensures d <= DaysInMonth(y + m / 12, m % 12) ==> r == Date(y + m / 12, m % 12, d)
    ensures d > DaysInMonth(y + m / 12, m % 12) ==> MonthIndex(r) == y * 12 + m + 1 && r.day <= 3
  {
    var y', m' := y + m / 12, m % 12;
    if d <= DaysInMonth(y', m') then Date(y', m', d)
    else
      MonthLengthStep(y', m');
      Date(y', m' + 1, d - DaysInMonth(y', m'))
  }

  /** `date.setFullYear(y)` on a copy of `date`. */
  function SetFullYear(date: CalDate, y: int): (r: CalDate)
    ensures r.year == y
    ensures date.month != 1 || date.day != 29 || IsLeapYear(y) ==> r == Date(y, date.month, date.day)
    ensures date.month == 1 && date.day == 29 && !IsLeapYear(y) ==> r == Date(y, 2, 1)
  {
    MakeDate(y, date.month, date.day)
  }

  /** `date.setMonth(date.getMonth() + k)` on a copy of `date`. */
  function AddMonths(date: CalDate, k: int): (r: CalDate)
    ensures MonthIndex(date) + k <= MonthIndex(r) <= MonthIndex(date) + k + 1
    ensures MonthIndex(r) == MonthIndex(date) + k <==> r.day == date.day
    ensures date.day <= 28 ==> MonthIndex(r) == MonthIndex(date) + k && r.day == date.day
  {
    MakeDate(date.year, date.month + k, date.day)
  }

  /** `date.setDate(1)` on a copy of `date`. */
  function FirstOfMonth(date: CalDate): (r: CalDate)
    ensures MonthIndex(r) == MonthIndex(date) && r.day == 1
  {
    Date(date.year, date.month, 1)
  }

  // ---------------------------------------------------------------------
  // The day number agrees with the calendar order.

  lemma MonthLengthStep(y: int, m: int)
    requires 0 <= m < 12
    ensures m < 11 ==> DaysBeforeMonth(y, m) + DaysInMonth(y, m) == DaysBeforeMonth(y, m + 1)
    ensures m == 11 ==> DaysBeforeMonth(y, m) + DaysInMonth(y, m) == YearLength(y)
  {
  }

  lemma {:induction false} MonthsOrdered(y: int, m1: int, m2: int)
    requires 0 <= m1 < m2 < 12
    ensures DaysBeforeMonth(y, m1) + DaysInMonth(y, m1) <= DaysBeforeMonth(y, m2)
    decreases m2 - m1
  {
    MonthLengthStep(y, m1);
    if m1 + 1 < m2 {
      MonthsOrdered(y, m1 + 1, m2);
    }
  }

  /** One more multiple of `4`, `100` or `400` is counted exactly when `y`
      is such a multiple. */
  lemma MultiplesStep(y: int)
    ensures (y + 4) / 4 - (y + 3) / 4 == (if y % 4 == 0 then 1 else 0)
    ensures (y + 100) / 100 - (y + 99) / 100 == (if y % 100 == 0 then 1 else 0)
    ensures (y + 400) / 400 - (y + 399) / 400 == (if y % 400 == 0 then 1 else 0)
  {
    DivStep4(y);
    DivStep100(y);
    DivStep400(y);
  }

  lemma DivStep4(y: int)
    ensures (y + 4) / 4 - (y + 3) / 4 == (if y % 4 == 0 then 1 else 0)
  {
    var q, r := y / 4, y % 4;
    assert y + 4 == 4 * (q + 1) + r;
    assert r == 0 ==> y + 3 == 4 * q + 3;
    assert r > 0 ==> y + 3 == 4 * (q + 1) + (r - 1);
  }

  lemma DivStep100(y: int)
    ensures (y + 100) / 100 - (y + 99) / 100 == (if y % 100 == 0 then 1 else 0)
  {
    var q, r := y / 100, y % 100;
    assert y + 100 == 100 * (q + 1) + r;
    assert r == 0 ==> y + 99 == 100 * q + 99;
    assert r > 0 ==> y + 99 == 100 * (q + 1) + (r - 1);
  }

  lemma DivStep400(y: int)
    ensures (y + 400) / 400 - (y + 399) / 400 == (if y % 400 == 0 then 1 else 0)
  {
    var q, r := y / 400, y % 400;
    assert y + 400 == 400 * (q + 1) + r;
    assert r == 0 ==> y + 399 == 400 * q + 399;
    assert r > 0 ==> y + 399 == 400 * (q + 1) + (r - 1);
  }

  lemma YearStep(y: int)
    ensures DaysBeforeYear(y + 1) == DaysBeforeYear(y) + YearLength(y)
  {
    MultiplesStep(y);
  }

  lemma {:induction false} YearsOrdered(y1: int, y2: int)
    requires y1 < y2
    ensures DaysBeforeYear(y1 + 1) <= DaysBeforeYear(y2)
    decreases y2 - y1
  {
    if y1 + 1 < y2 {
      YearStep(y1 + 1);
      YearsOrdered(y1 + 1, y2);
    }
  }

  lemma DayNumberWithinYear(d: CalDate)
    ensures DaysBeforeYear(d.year) <= DayNumber(d) < DaysBeforeYear(d.year + 1)
  {
    YearStep(d.year);
    if d.month < 11 {
      MonthsOrdered(d.year, d.month, 11);
    }
    MonthLengthStep(d.year, 11);
  }

  /** Comparing two dates by time value is comparing them field by field. */
  lemma BeforeIsLexicographic(a: CalDate, b: CalDate)
    ensures Before(a, b) <==> LexBefore(a, b)
    ensures DayNumber(a) == DayNumber(b) <==> a == b
  {
    LexBeforeImpliesBefore(a, b);
    LexBeforeImpliesBefore(b, a);
  }

  lemma LexBeforeImpliesBefore(a: CalDate, b: CalDate)
    ensures LexBefore(a, b) ==> Before(a, b)
  {
    if a.year < b.year {
      DayNumberWithinYear(a);
      DayNumberWithinYear(b);
      YearsOrdered(a.year, b.year);
    } else if a.year == b.year && a.month < b.month {
      MonthsOrdered(a.year, a.month, b.month);
    }
  }

  /** Two dates whose month index and day agree are the same date. */
  lemma SameMonthAndDay(a: Date, b: Date)
    requires 0 <= a.month < 12 && 0 <= b.month < 12
    requires MonthIndex(a) == MonthIndex(b) && a.day == b.day
    ensures a == b
  {
  }

  /** Without rollover, two `setMonth` shifts make one. */
  lemma AddMonthsCompose(date: CalDate, j: int, k: int)
    requires date.day <= 28
    ensures AddMonths(AddMonths(date, j), k) == AddMonths(date, j + k)
  {
    SameMonthAndDay(AddMonths(AddMonths(date, j), k), AddMonths(date, j + k));
  }
}
