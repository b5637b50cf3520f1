/** The period calendar under the calculator: a grid of the first days of
    the months from the start year to the year after the check, and the
    shading of each month as part of the current period, the next period,
    or neither, with markers on the start month and the expiration month. */
module PeriodCalendar {
  import opened Calendar
  import opened Amounts
  import opened Entitlement

  /** One row of the grid: a year and the first day of each of its months. */
  datatype YearRow = YearRow(year: int, months: seq<CalDate>)

  /** What the calendar receives: the two dates of the form (missing while
      empty), the current expiration date (missing before a calculation),
      the next expiration date (missing, 'N/A' or a date), and the mode. */
  datatype CalendarProps = CalendarProps(
    startDate: Option<CalDate>,
    checkingDate: Option<CalDate>,
    currentExpiration: Option<CalDate>,
    nextExpiration: Option<Field<CalDate>>,
    isAccrual: bool)

  /** The three styles `getPeriodStyle` hands out. */
  datatype PeriodStyle = Plain | CurrentPeriod | NextPeriod

  // ---------------------------------------------------------------------
  // The grid

  /** `generateYearRows`: nothing while a date is missing; otherwise one row
      per year from the start year to the year after the check, each with
      the first of January to the first of December. */
  method GenerateYearRows(startDate: Option<CalDate>, checkingDate: Option<CalDate>) returns (rows: seq<YearRow>)
    ensures startDate.None? || checkingDate.None? ==> rows == []
    ensures startDate.Some? && checkingDate.Some? ==>
              |rows| == Max(0, checkingDate.value.year + 2 - startDate.value.year)
    ensures forall i :: 0 <= i < |rows| ==>
              && rows[i].year == startDate.value.year + i
              && |rows[i].months| == 12
              && forall j :: 0 <= j < 12 ==> rows[i].months[j] == Date(startDate.value.year + i, j, 1)
  {
    if startDate.None? || checkingDate.None? {
      return [];
    }
    var startYear := startDate.value.year;
    var endYear := checkingDate.value.year + 1;
    rows := [];
    var year := startYear;
    while year <= endYear
      invariant startYear <= year <= Max(startYear, endYear + 1)
      invariant |rows| == year - startYear
      invariant forall i :: 0 <= i < |rows| ==>
                  && rows[i].year == startYear + i
                  && |rows[i].months| == 12
                  && forall j :: 0 <= j < 12 ==> rows[i].months[j] == Date(startYear + i, j, 1)
    {
      var monthsInYear: seq<CalDate> := [];
      var month := 0;
      while month < 12
        invariant 0 <= month <= 12
        invariant |monthsInYear| == month
        invariant forall j :: 0 <= j < month ==> monthsInYear[j] == Date(year, j, 1)
      {
        monthsInYear := monthsInYear + [Date(year, month, 1)];
        month := month + 1;
      }
      rows := rows + [YearRow(year, monthsInYear)];
      year := year + 1;
    }
  }

  /** Read in row order, the grid runs through consecutive months with no
      gap, and the start month and the check month both have a cell. */
  lemma GridRunsThroughConsecutiveMonths(rows: seq<YearRow>, start: CalDate, check: CalDate)
    requires NotAfter(start, check)
    requires |rows| == Max(0, check.year + 2 - start.year)
    requires forall i :: 0 <= i < |rows| ==>
               && rows[i].year == start.year + i
               && |rows[i].months| == 12
               && forall j :: 0 <= j < 12 ==> rows[i].months[j] == Date(start.year + i, j, 1)
    ensures forall i, j :: 0 <= i < |rows| && 0 <= j < 12 ==>
              MonthIndex(rows[i].months[j]) == 12 * start.year + 12 * i + j
    ensures |rows| >= 2
    ensures rows[0].months[start.month] == FirstOfMonth(start)
    ensures rows[check.year - start.year].months[check.month] == FirstOfMonth(check)
  {
    BeforeIsLexicographic(check, start);
  }

  // ---------------------------------------------------------------------
  // First year

  /** `isFirstYear` in the calendar: fewer than twelve months between the
      month of the start and the month of the check, days of the month not
      taken into account. A missing date makes the source's month count
      `NaN`, for which the test is false. */
  predicate IsFirstYear(startDate: Option<CalDate>, checkingDate: Option<CalDate>)
    ensures IsFirstYear(startDate, checkingDate) ==> startDate.Some? && checkingDate.Some?
  {
    startDate.Some? && checkingDate.Some?
    && MonthIndex(checkingDate.value) - MonthIndex(startDate.value) < 12
  }

  /** The calendar's first year ends no later than the calculator's: when
      the calendar says first year, fewer than twelve months of service have
      passed. They disagree exactly in the anniversary month before the
      anniversary day. */
  lemma CalendarFirstYearWithinServiceFirstYear(start: CalDate, check: CalDate)
    ensures IsFirstYear(Some(start), Some(check)) ==> MonthsOfService(start, check) < 12
    ensures MonthsOfService(start, check) < 12 && !IsFirstYear(Some(start), Some(check))
            <==> MonthIndex(check) == MonthIndex(start) + 12 && check.day < start.day
  {
  }

  /** 15 January 2020 to 14 January 2021: still the first year of service
      for the calculator, no longer for the calendar. */
  lemma FirstYearDisagreementExample()
    ensures MonthsOfService(Date(2020, 0, 15), Date(2021, 0, 14)) == 11
    ensures !IsFirstYear(Some(Date(2020, 0, 15)), Some(Date(2021, 0, 14)))
  {
  }

  // ---------------------------------------------------------------------
  // The two windows

  /** The window of the current period: from eighteen months before the
      expiration date, twelve months long, each end moved with `setMonth`. */
  function CurrentWindowStart(expiration: CalDate): CalDate {
    AddMonths(expiration, -18)
  }

  function CurrentWindowEnd(expiration: CalDate): CalDate {
    AddMonths(CurrentWindowStart(expiration), 12)
  }

  /** The window of the next period: five months and then one more month
      before the current expiration date, twelve months long. */
  function NextWindowStart(expiration: CalDate): CalDate {
    AddMonths(AddMonths(expiration, -5), -1)
  }

  function NextWindowEnd(expiration: CalDate): CalDate {
    AddMonths(NextWindowStart(expiration), 12)
  }

  /** The month of `date` is in the window `[lo, hi]` when its first day is. */
  predicate InWindow(date: CalDate, lo: CalDate, hi: CalDate) {
    var first := FirstOfMonth(date);
    NotAfter(lo, first) && NotAfter(first, hi)
  }

  /** Comparing a first of the month with any date is comparing months. */
  lemma MonthStartOrder(first: CalDate, x: CalDate)
    requires first.day == 1
    ensures NotAfter(first, x) <==> MonthIndex(first) <= MonthIndex(x)
    ensures Before(x, first) <==> MonthIndex(x) < MonthIndex(first)
    ensures NotAfter(x, first) <==> MonthIndex(x) < MonthIndex(first) || (MonthIndex(x) == MonthIndex(first) && x.day == 1)
  {
    BeforeIsLexicographic(first, x);
    BeforeIsLexicographic(x, first);
  }

  /** A window holds the months from the one of `lo` (only when `lo` is a
      first of the month, otherwise from the month after) to the one of `hi`. */
  lemma InWindowByMonth(date: CalDate, lo: CalDate, hi: CalDate)
    ensures InWindow(date, lo, hi)
            <==> MonthIndex(lo) + (if lo.day == 1 then 0 else 1) <= MonthIndex(date) <= MonthIndex(hi)
  {
    MonthStartOrder(FirstOfMonth(date), lo);
    MonthStartOrder(FirstOfMonth(date), hi);
  }

  /** Without day overflow, the current window runs from eighteen to six
      months before the expiration, the next one from six months before to
      six months after it: the next window starts where the current one ends. */
  lemma WindowEnds(expiration: CalDate)
    requires expiration.day <= 28
    ensures MonthIndex(CurrentWindowStart(expiration)) == MonthIndex(expiration) - 18
    ensures MonthIndex(CurrentWindowEnd(expiration)) == MonthIndex(expiration) - 6
    ensures MonthIndex(NextWindowEnd(expiration)) == MonthIndex(expiration) + 6
    ensures NextWindowStart(expiration) == CurrentWindowEnd(expiration)
    ensures CurrentWindowStart(expiration).day == CurrentWindowEnd(expiration).day == expiration.day
    ensures NextWindowStart(expiration).day == expiration.day
  {
    AddMonthsCompose(expiration, -18, 12);
    AddMonthsCompose(expiration, -5, -1);
  }

  // ---------------------------------------------------------------------
  // Shading

  /** `isInCurrentPeriod`. In the first year: after the start date and not
      after the check date. Otherwise: within the current window. */
  predicate IsInCurrentPeriod(p: CalendarProps, date: CalDate)
    ensures IsInCurrentPeriod(p, date) ==> p.currentExpiration.Some?
  {
    if p.currentExpiration.None? then false
    else if IsFirstYear(p.startDate, p.checkingDate) then
      Before(p.startDate.value, date) && NotAfter(date, p.checkingDate.value)
    else
      var expiration := p.currentExpiration.value;
      InWindow(date, CurrentWindowStart(expiration), CurrentWindowEnd(expiration))
  }

  /** `isInNextPeriod`: never in the first year, in front-loaded mode, or
      without a next expiration date; otherwise within the next window,
      which is taken from the current expiration date (a missing one reads
      as the epoch, as `new Date(null)` does). */
  predicate IsInNextPeriod(p: CalendarProps, date: CalDate)
    ensures IsInNextPeriod(p, date) ==>
              && !IsFirstYear(p.startDate, p.checkingDate) && p.isAccrual
              && p.nextExpiration.Some? && p.nextExpiration.value.Value?
  {
    if IsFirstYear(p.startDate, p.checkingDate) || !p.isAccrual
       || p.nextExpiration.None? || p.nextExpiration.value.NotApplicable? then false
    else
      var expiration := if p.currentExpiration.Some? then p.currentExpiration.value else Epoch;
      InWindow(date, NextWindowStart(expiration), NextWindowEnd(expiration))
  }

  /** `getPeriodStyle`. */
  function Style(p: CalendarProps, date: CalDate): (style: PeriodStyle)
    ensures p.startDate.None? || p.checkingDate.None? ==> style == Plain
    ensures IsFirstYear(p.startDate, p.checkingDate) || !p.isAccrual ==> style != NextPeriod
  {
    if p.startDate.None? || p.checkingDate.None? then Plain
    else if IsInCurrentPeriod(p, date) then CurrentPeriod
    else if !IsFirstYear(p.startDate, p.checkingDate) && p.isAccrual && IsInNextPeriod(p, date) then NextPeriod
    else Plain
  }

  /** The current window wins over the next one, and the next window only
      counts where the current one does not. */
  lemma StyleLaws(p: CalendarProps, date: CalDate)
    ensures Style(p, date) == CurrentPeriod
            <==> p.startDate.Some? && p.checkingDate.Some? && IsInCurrentPeriod(p, date)
    ensures Style(p, date) == NextPeriod
            <==> p.startDate.Some? && p.checkingDate.Some? && !IsInCurrentPeriod(p, date) && IsInNextPeriod(p, date)
  {
  }

  /** In the first year the shaded months are those after the start month
      up to the check month: the start month itself is never shaded. */
  lemma FirstYearShading(p: CalendarProps, date: CalDate)
    requires p.currentExpiration.Some? && IsFirstYear(p.startDate, p.checkingDate)
    requires date.day == 1
    ensures Style(p, date) == CurrentPeriod
            <==> MonthIndex(p.startDate.value) < MonthIndex(date) <= MonthIndex(p.checkingDate.value)
    ensures Style(p, date) != NextPeriod
  {
    MonthStartOrder(date, p.startDate.value);
    MonthStartOrder(date, p.checkingDate.value);
  }

  /** After the first year, with an expiration day that does not overflow a
      month: the current period shades the twelve months up to six months
      before the expiration (thirteen when it falls on the 1st), and in
      accrual mode the next period shades the twelve months after those.
      Every month from the first shaded one to the last is shaded. */
  lemma ShadingByMonth(p: CalendarProps, date: CalDate)
    requires p.startDate.Some? && p.checkingDate.Some? && !IsFirstYear(p.startDate, p.checkingDate)
    requires p.currentExpiration.Some? && p.currentExpiration.value.day <= 28
    ensures var e := MonthIndex(p.currentExpiration.value);
            var from := e - 18 + (if p.currentExpiration.value.day == 1 then 0 else 1);
            && (Style(p, date) == CurrentPeriod <==> from <= MonthIndex(date) <= e - 6)
            && (Style(p, date) == NextPeriod
                <==> p.isAccrual && p.nextExpiration.Some? && p.nextExpiration.value.Value?
                     && e - 6 < MonthIndex(date) <= e + 6)
  {
    CurrentShadingByMonth(p, date);
    NextWindowByMonth(p, date);
  }

  lemma CurrentShadingByMonth(p: CalendarProps, date: CalDate)
    requires !IsFirstYear(p.startDate, p.checkingDate)
    requires p.currentExpiration.Some? && p.currentExpiration.value.day <= 28
    ensures var e := MonthIndex(p.currentExpiration.value);
            var from := e - 18 + (if p.currentExpiration.value.day == 1 then 0 else 1);
            IsInCurrentPeriod(p, date) <==> from <= MonthIndex(date) <= e - 6
  {
    var expiration := p.currentExpiration.value;
    WindowEnds(expiration);
    InWindowByMonth(date, CurrentWindowStart(expiration), CurrentWindowEnd(expiration));
  }

  lemma NextWindowByMonth(p: CalendarProps, date: CalDate)
    requires !IsFirstYear(p.startDate, p.checkingDate)
    requires p.currentExpiration.Some? && p.currentExpiration.value.day <= 28
    ensures var e := MonthIndex(p.currentExpiration.value);
            IsInNextPeriod(p, date)
            <==> p.isAccrual && p.nextExpiration.Some? && p.nextExpiration.value.Value?
                 && e - 6 + (if p.currentExpiration.value.day == 1 then 0 else 1) <= MonthIndex(date) <= e + 6
  {
    var expiration := p.currentExpiration.value;
    WindowEnds(expiration);
    InWindowByMonth(date, NextWindowStart(expiration), NextWindowEnd(expiration));
  }

  /** With the expiration the calculator shows, six months after the
      anniversary: the current period shades the twelve months up to the
      anniversary month, that month included (thirteen when the anniversary
      is on the 1st), and the next period the twelve months after the
      anniversary month. */
  lemma ShadingAroundAnniversary(p: CalendarProps, date: CalDate)
    requires p.startDate.Some? && p.checkingDate.Some? && !IsFirstYear(p.startDate, p.checkingDate)
    requires p.isAccrual && p.nextExpiration.Some? && p.nextExpiration.value.Value?
    requires Anniversary(p.startDate.value, p.checkingDate.value).day <= 28
    requires p.currentExpiration == Some(ExpirationDate(Anniversary(p.startDate.value, p.checkingDate.value)))
    ensures var anniversary := Anniversary(p.startDate.value, p.checkingDate.value);
            var a := MonthIndex(anniversary);
            && (Style(p, date) == CurrentPeriod
                <==> a - 12 + (if anniversary.day == 1 then 0 else 1) <= MonthIndex(date) <= a)
            && (Style(p, date) == NextPeriod <==> a < MonthIndex(date) <= a + 12)
  {
    ShadingByMonth(p, date);
  }

  /** An expiration on the 31st leaves a month shaded by neither window:
      for a start on 31 January 2023 checked on 1 March 2024, the
      expiration is 31 July 2024, the current window ends on 31 January
      2024, the next one starts on 2 February 2024 (31 February rolls over),
      and February 2024 is plain. */
  lemma MonthEndExpirationLeavesGap()
    ensures ExpirationDate(Anniversary(GapStart, GapCheck)) == GapExpiration
    ensures CurrentWindowEnd(GapExpiration) == Date(2024, 0, 31)
    ensures NextWindowStart(GapExpiration) == Date(2024, 1, 2)
    ensures Style(GapProps, GapMonth) == Plain
  {
    GapExpirationDate();
    GapCurrentWindowEnd();
    GapNextWindowStart();
    GapMonthPlain();
  }

  const GapStart: CalDate := Date(2023, 0, 31)
  const GapCheck: CalDate := Date(2024, 2, 1)
  const GapExpiration: CalDate := Date(2024, 6, 31)
  const GapMonth: CalDate := Date(2024, 1, 1)

  /** The calendar of that example, after an accrual calculation. */
  const GapProps := CalendarProps(Some(GapStart), Some(GapCheck), Some(GapExpiration), Some(Value(Date(2025, 6, 31))), true)

  lemma GapExpirationDate()
    ensures ExpirationDate(Anniversary(GapStart, GapCheck)) == GapExpiration
  {
    var anniversary: CalDate := Date(2024, 0, 31);
    assert SetFullYear(GapStart, 2024) == anniversary;
    BeforeIsLexicographic(GapCheck, anniversary);
    assert Anniversary(GapStart, GapCheck) == anniversary;
  }

  lemma GapCurrentWindowStart()
    ensures CurrentWindowStart(GapExpiration) == Date(2023, 0, 31)
  {
    assert (6 - 18) / 12 == -1 && (6 - 18) % 12 == 0;
  }

  lemma GapCurrentWindowEnd()
    ensures CurrentWindowEnd(GapExpiration) == Date(2024, 0, 31)
  {
    GapCurrentWindowStart();
    assert 12 / 12 == 1 && 12 % 12 == 0;
  }

  lemma GapShiftBackFive()
    ensures AddMonths(GapExpiration, -5) == Date(2024, 2, 2)
  {
    assert 1 / 12 == 0 && 1 % 12 == 1;
    assert DaysInMonth(2024, 1) == 29;
  }

  lemma GapNextWindowStart()
    ensures NextWindowStart(GapExpiration) == Date(2024, 1, 2)
  {
    GapShiftBackFive();
  }

  lemma GapMonthPlain()
    ensures Style(GapProps, GapMonth) == Plain
  {
    GapCurrentWindowStart();
    GapCurrentWindowEnd();
    GapNextWindowStart();
    assert !IsFirstYear(GapProps.startDate, GapProps.checkingDate);
    InWindowByMonth(GapMonth, CurrentWindowStart(GapExpiration), CurrentWindowEnd(GapExpiration));
    assert !IsInCurrentPeriod(GapProps, GapMonth);
    InWindowByMonth(GapMonth, NextWindowStart(GapExpiration), NextWindowEnd(GapExpiration));
    assert !IsInNextPeriod(GapProps, GapMonth);
  }

  // ---------------------------------------------------------------------
  // Markers

  /** `isExpirationMonth`: same month and year as the current expiration. */
  predicate IsExpirationMonth(p: CalendarProps, date: CalDate)
    ensures IsExpirationMonth(p, date) ==> p.currentExpiration.Some?
  {
    p.currentExpiration.Some?
    && date.month == p.currentExpiration.value.month
    && date.year == p.currentExpiration.value.year
  }

  /** `isStartMonth`: same month and year as the start date. */
  predicate IsStartMonth(p: CalendarProps, date: CalDate)
    ensures IsStartMonth(p, date) ==> p.startDate.Some?
  {
    p.startDate.Some?
    && date.month == p.startDate.value.month
    && date.year == p.startDate.value.year
  }

  /** Each marker sits on exactly one month, the month of its date, and on
      no month while that date is missing. */
  lemma MarkersByMonth(p: CalendarProps, date: CalDate)
    ensures IsExpirationMonth(p, date)
            <==> p.currentExpiration.Some? && MonthIndex(date) == MonthIndex(p.currentExpiration.value)
    ensures IsStartMonth(p, date)
            <==> p.startDate.Some? && MonthIndex(date) == MonthIndex(p.startDate.value)
  {
  }
}
