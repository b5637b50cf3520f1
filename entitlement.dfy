/** The entitlement engine of the vacation calculator: service length,
    anniversary and expiration dates, prorated accrual, and the two balances
    that a calculation produces in accrual and in front-loaded mode. */
module Entitlement {
  import opened Calendar
  import opened Tiers
  import opened Amounts

  /** The accrual policy chosen on the form. */
  datatype Mode = Accrual | FrontLoaded

  /** What `calculateAccruedDays` returns; amounts are in units of `Scale`. */
  datatype AccrualResult = AccrualResult(current: int, next: int, currentTier: string, nextTier: string)

  /** A balance field that is either computed or the literal 'N/A'. */
  datatype Field<T> = Value(value: T) | NotApplicable

  /** The current-period balance a calculation shows; days in units of `Scale`. */
  datatype CurrentBalance = CurrentBalance(availableDays: int, expirationDate: CalDate, isExpired: bool, tier: string)

  /** The next-period balance a calculation shows; days in units of `Scale`. */
  datatype NextBalance = NextBalance(availableDays: Field<int>, expirationDate: Field<CalDate>, tier: string)

  /** The result of pressing Calculate: refused for a missing date, or the two balances. */
  datatype Outcome = IncompleteInput | Balances(current: CurrentBalance, next: NextBalance)

  // ---------------------------------------------------------------------
  // Length of service

  /** Whole calendar months from `start` to `check`, one less while the
      day of the month of `start` has not come round yet. */
  function MonthsOfService(start: CalDate, check: CalDate): (n: int)
    ensures MonthIndex(check) - MonthIndex(start) - 1 <= n <= MonthIndex(check) - MonthIndex(start)
    ensures n == MonthIndex(check) - MonthIndex(start) <==> start.day <= check.day
  {
    (check.year - start.year) * 12 + (check.month - start.month)
      + (if check.day >= start.day then 0 else -1)
  }

  /** At least `n` months of service have passed exactly when the check
      date is past the month `n` months after the start month, or is in that
      month on or after the start's day of the month. */
  lemma MonthsOfServiceReached(start: CalDate, check: CalDate, n: int)
    ensures MonthsOfService(start, check) >= n
            <==> MonthIndex(start) + n < MonthIndex(check)
                 || (MonthIndex(start) + n == MonthIndex(check) && start.day <= check.day)
  {
  }

  lemma MonthsOfServiceExamples()
    ensures forall d: CalDate :: MonthsOfService(d, d) == 0
    ensures MonthsOfService(Date(2020, 0, 15), Date(2021, 0, 14)) == 11
    ensures MonthsOfService(Date(2020, 0, 15), Date(2021, 0, 15)) == 12
  {
  }

  /** `k` full years of service have passed exactly when the check date is
      not before the start date moved forward `k` years with `setFullYear`:
      the month count is the "has the anniversary occurred" test. */
  lemma FullYearsIffAnniversaryReached(start: CalDate, check: CalDate, k: int)
    ensures MonthsOfService(start, check) >= 12 * k
            <==> NotAfter(SetFullYear(start, start.year + k), check)
  {
    var a := SetFullYear(start, start.year + k);
    BeforeIsLexicographic(check, a);
    MonthsOfServiceReached(start, check, 12 * k);
    if start.month == 1 && start.day == 29 && !IsLeapYear(start.year + k) {
      if MonthIndex(check) == MonthIndex(start) + 12 * k {
        assert check.year == start.year + k && check.month == 1;
        assert check.day <= 28;
      }
    }
  }

  /** `Math.floor((check - start) / (365.25 days))` for whole-day dates. */
  function FrontLoadedYears(start: CalDate, check: CalDate): (years: int)
    ensures 1461 * years <= 4 * (DayNumber(check) - DayNumber(start)) < 1461 * (years + 1)
  {
    (4 * (DayNumber(check) - DayNumber(start))) / 1461
  }

  /** The integer formula is the floor of the elapsed days over 365.25. */
  lemma FrontLoadedYearsIsFloor(start: CalDate, check: CalDate)
    ensures FrontLoadedYears(start, check) == ((DayNumber(check) - DayNumber(start)) as real / 365.25).Floor
  {
    var days := DayNumber(check) - DayNumber(start);
    var y := FrontLoadedYears(start, check);
    assert y * 1461 <= 4 * days < (y + 1) * 1461;
    assert (y as real) <= days as real / 365.25 < (y + 1) as real;
  }

  // ---------------------------------------------------------------------
  // Anniversary and expiration

  /** The anniversary that opened the period containing `check`: the start
      date moved to the check's year, moved back one year if that is after
      the check. */
  function Anniversary(start: CalDate, check: CalDate): (r: CalDate)
    ensures r.year == check.year || r.year == check.year - 1
    ensures r.year == check.year - 1 <==> Before(check, SetFullYear(start, check.year))
  {
    var a := SetFullYear(start, check.year);
    if Before(check, a) then SetFullYear(a, a.year - 1) else a
  }

  /** The anniversary one year after `anniversary`. */
  function NextAnniversary(anniversary: CalDate): (r: CalDate)
    ensures r.year == anniversary.year + 1
    ensures anniversary.month != 1 || anniversary.day != 29 ==> r == Date(anniversary.year + 1, anniversary.month, anniversary.day)
  {
    SetFullYear(anniversary, anniversary.year + 1)
  }

  /** `calculateExpirationDate`: six calendar months after `anniversary`. */
  function ExpirationDate(anniversary: CalDate): (r: CalDate)
    ensures Before(anniversary, r)
    ensures anniversary.day <= 28 ==> MonthIndex(r) == MonthIndex(anniversary) + 6 && r.day == anniversary.day
    ensures anniversary.day > 28 ==> MonthIndex(anniversary) + 6 <= MonthIndex(r) <= MonthIndex(anniversary) + 7
  {
    var r := AddMonths(anniversary, 6);
    BeforeIsLexicographic(anniversary, r);
    r
  }

  /** The check date lies in `[Anniversary, NextAnniversary)`, and the
      anniversary is in the check's year or the one before. */
  lemma AnniversaryBracketsCheck(start: CalDate, check: CalDate)
    ensures NotAfter(Anniversary(start, check), check)
    ensures Before(check, NextAnniversary(Anniversary(start, check)))
    ensures Anniversary(start, check).year in {check.year - 1, check.year}
  {
    var a := SetFullYear(start, check.year);
    var ann := Anniversary(start, check);
    var next := NextAnniversary(ann);
    BeforeIsLexicographic(ann, check);
    BeforeIsLexicographic(check, next);
    if Before(check, a) {
      BeforeIsLexicographic(a, next);
      assert NotAfter(a, next);
    }
  }

  /** For a check date on or after the start date, the anniversary is on or
      after the start date. */
  lemma AnniversaryNotBeforeStart(start: CalDate, check: CalDate)
    requires NotAfter(start, check)
    ensures NotAfter(start, Anniversary(start, check))
  {
    var a := SetFullYear(start, check.year);
    var ann := Anniversary(start, check);
    BeforeIsLexicographic(check, start);
    BeforeIsLexicographic(ann, start);
    if check.year == start.year {
      assert a == start;
    }
  }

  /** The first anniversary of `start`, as `setFullYear` gives it, is on or
      before `check`. */
  predicate FirstAnniversaryReached(start: CalDate, check: CalDate) {
    NotAfter(SetFullYear(start, start.year + 1), check)
  }

  /** The first anniversary is reached exactly when twelve months of
      service have passed. */
  lemma FirstAnniversaryIsFirstYearOfService(start: CalDate, check: CalDate)
    ensures FirstAnniversaryReached(start, check) <==> MonthsOfService(start, check) >= 12
  {
    FullYearsIffAnniversaryReached(start, check, 1);
  }

  /** `isDateExpired`, stated through dates only: expired exactly when the
      first anniversary of the start has been reached and the expiration
      date has passed. */
  function IsDateExpired(expiration: CalDate, check: CalDate, start: CalDate): (expired: bool)
    ensures expired <==> FirstAnniversaryReached(start, check) && Before(expiration, check)
  {
    FirstAnniversaryIsFirstYearOfService(start, check);
    if MonthsOfService(start, check) < 12 then false
    else Before(expiration, check)
  }

  // ---------------------------------------------------------------------
  // Proration

  /** Days from `a` to `b`, both counted. */
  function InclusiveDays(a: CalDate, b: CalDate): int {
    DayNumber(b) - DayNumber(a) + 1
  }

  /** `calculateFirstYearDays`: `tierDays / 365` per day over the inclusive
      day count, rounded to two decimals. */
  function FirstYearDays(start: CalDate, check: CalDate, tierDays: nat): (r: int)
    ensures r % 100 == 0
    ensures 2 * Abs(365 * r - tierDays * InclusiveDays(start, check) * Scale) <= 365 * 100
    ensures NotAfter(start, check) ==> r >= 0
  {
    var days := InclusiveDays(start, check);
    var exact := tierDays * days * 100;
    var q := RoundDiv(exact, 365);
    ProductSign(tierDays, days);
    HundredthsScale(tierDays, days, q);
    WholeHundredths(q);
    100 * q
  }

  lemma HundredthsScale(tierDays: nat, days: int, q: int)
    requires 2 * Abs(tierDays * days * 100 - q * 365) <= 365
    requires days >= 1 ==> q >= 0
    ensures 2 * Abs(365 * (100 * q) - tierDays * days * Scale) <= 365 * 100
  {
    var exact := tierDays * days * 100;
    assert tierDays * days * Scale == exact * 100;
    assert 365 * (100 * q) - exact * 100 == 100 * (q * 365 - exact);
  }

  /** `Number((tierDays / 365).toFixed(4))` in units of `Scale`. */
  function DailyFactor(tierDays: nat): (f: int)
    ensures f >= 0
    ensures 2 * Abs(365 * f - tierDays * Scale) <= 365
  {
    RoundDiv(tierDays * Scale, 365)
  }

  /** `calculateNextPeriodDays`: the four-decimal daily factor of the next
      tier over the inclusive days since the anniversary. */
  function NextPeriodDays(anniversary: CalDate, check: CalDate, nextTierDays: nat): (r: int)
    ensures 2 * Abs(365 * r - nextTierDays * Scale * InclusiveDays(anniversary, check))
            <= 365 * Abs(InclusiveDays(anniversary, check))
    ensures NotAfter(anniversary, check) ==> r >= DailyFactor(nextTierDays)
    ensures Before(check, anniversary) ==> r <= 0
  {
    var f := DailyFactor(nextTierDays);
    var days := InclusiveDays(anniversary, check);
    ProductSign(f, days);
    MulBound(f, nextTierDays * Scale, days);
    f * days
  }

  /** A factor within half a unit of `t / 365` gives, over `days` days, a
      product within half a unit per day of `t * days / 365`. */
  lemma MulBound(f: int, t: int, days: int)
    requires 2 * Abs(365 * f - t) <= 365
    ensures 2 * Abs(365 * (f * days) - t * days) <= 365 * Abs(days)
  {
    var e := 365 * f - t;
    assert 365 * (f * days) == (365 * f) * days;
    assert (365 * f) * days - t * days == e * days;
    AbsProduct(e, days);
    ProductNotAbove(2 * Abs(e), 365, Abs(days));
    assert 2 * (Abs(e) * Abs(days)) == (2 * Abs(e)) * Abs(days);
  }

  lemma AbsProduct(x: int, y: int)
    ensures Abs(x * y) == Abs(x) * Abs(y)
  {
    if x < 0 {
      assert x * y == -((-x) * y);
    }
    if y < 0 {
      assert x * y == -(x * -y);
    }
  }

  lemma ProductNotAbove(a: int, b: int, c: nat)
    requires a <= b
    ensures a * c <= b * c
  {
    assert b * c - a * c == (b - a) * c;
  }

  lemma ProductSign(f: int, days: int)
    requires f >= 0
    ensures days >= 1 ==> f * days >= f
    ensures days <= 0 ==> f * days <= 0
  {
  }

  /** `Math.floor(monthsDiff / 12)`: the completed years of service. */
  function CompletedYears(start: CalDate, check: CalDate): int {
    MonthsOfService(start, check) / 12
  }

  /** The anniversary the accrual counts the next period from: the start
      date moved forward by the completed years with `setFullYear`. */
  function AccrualAnniversary(start: CalDate, check: CalDate): CalDate {
    SetFullYear(start, start.year + CompletedYears(start, check))
  }

  /** `calculateAccruedDays`. During the first year: the first-year
      proration at 12 days a year under the first-year label, nothing for
      the next period. Afterwards: the full allotment of the completed
      years' tier, and for the next period the next tier's four-decimal
      daily factor over the inclusive days since the accrual anniversary,
      which is on or before the check date, so that at least one day's
      worth has accrued. */
  function AccruedDays(start: CalDate, check: CalDate): (r: AccrualResult)
    ensures MonthsOfService(start, check) < 12 ==>
              r == AccrualResult(FirstYearDays(start, check, 12), 0, Table(0).title, "N/A")
    ensures MonthsOfService(start, check) >= 12 ==>
              && CompletedYears(start, check) >= 1
              && NotAfter(AccrualAnniversary(start, check), check)
              && r.current == VacationDays(CompletedYears(start, check) as real) * Scale
              && r.next == NextPeriodDays(AccrualAnniversary(start, check), check,
                                          VacationDays((CompletedYears(start, check) + 1) as real))
              && r.next >= DailyFactor(VacationDays((CompletedYears(start, check) + 1) as real))
              && r.currentTier == TierLabel(CompletedYears(start, check) as real)
              && r.nextTier == TierLabel((CompletedYears(start, check) + 1) as real)
    ensures r.next >= 0
    ensures NotAfter(start, check) ==> r.current >= 0
  {
    var months := MonthsOfService(start, check);
    if months < 12 then
      FractionOfFirstYear(months);
      AccrualResult(FirstYearDays(start, check, VacationDays(0.0)), 0, TierLabel(months as real / 12.0), "N/A")
    else
      var years := CompletedYears(start, check);
      AccrualAnniversaryReached(start, check);
      AccrualResult(
        VacationDays(years as real) * Scale,
        NextPeriodDays(AccrualAnniversary(start, check), check, VacationDays((years + 1) as real)),
        TierLabel(years as real),
        TierLabel((years + 1) as real))
  }

  /** Fewer than twelve months is less than a year. */
  lemma FractionOfFirstYear(months: int)
    requires months < 12
    ensures months as real / 12.0 < 1.0
  {
  }

  /** The anniversary the accrual counts from is on or before the
      calculation date: the completed years never overshoot. */
  lemma AccrualAnniversaryReached(start: CalDate, check: CalDate)
    ensures NotAfter(AccrualAnniversary(start, check), check)
  {
    var a := AccrualAnniversary(start, check);
    BeforeIsLexicographic(check, a);
    var offset := (check.month - start.month) + (if check.day >= start.day then 0 else -1);
    assert MonthsOfService(start, check) == 12 * (check.year - start.year) + offset;
    if offset < 0 {
      assert CompletedYears(start, check) == check.year - start.year - 1;
    } else {
      assert CompletedYears(start, check) == check.year - start.year;
    }
  }


  /** Same-day calculation: one day's worth at 12 days a year, 0.03. */
  lemma AccruedDaysOnStartDay(start: CalDate)
    ensures AccruedDays(start, start).current == 300 && AccruedDays(start, start).next == 0
  {
  }

  /** The anniversary the accrual is prorated from, `start.year + years`,
      is the anniversary `handleCalculate` takes the expiration from, except
      for a start on 29 February: both move the start to the check's year,
      one year earlier exactly when the check's month and day come before
      the start's. */
  lemma AccrualAnniversaryAgrees(start: CalDate, check: CalDate)
    requires start.month != 1 || start.day != 29
    ensures AccrualAnniversary(start, check) == Anniversary(start, check)
  {
    var a := SetFullYear(start, check.year);
    BeforeIsLexicographic(check, a);
    var offset := (check.month - start.month) + (if check.day >= start.day then 0 else -1);
    assert MonthsOfService(start, check) == 12 * (check.year - start.year) + offset;
    if Before(check, a) {
      assert -12 <= offset < 0;
      assert CompletedYears(start, check) == check.year - start.year - 1;
    } else {
      assert 0 <= offset < 12;
      assert CompletedYears(start, check) == check.year - start.year;
    }
  }

  const LeapStart: CalDate := Date(2020, 1, 29)
  const LeapCheck: CalDate := Date(2025, 0, 10)

  /** For a start on 29 February 2020 checked on 10 January 2025, the
      accrual is prorated from 29 February 2024 while the period shown
      opens on 1 March 2024. */
  lemma LeapDayAnniversariesDiffer()
    ensures CompletedYears(LeapStart, LeapCheck) == 4
    ensures AccrualAnniversary(LeapStart, LeapCheck) == Date(2024, 1, 29)
    ensures Anniversary(LeapStart, LeapCheck) == Date(2024, 2, 1)
  {
    assert SetFullYear(LeapStart, 2025) == Date(2025, 2, 1);
    var march: CalDate := Date(2025, 2, 1);
    BeforeIsLexicographic(LeapCheck, march);
    assert SetFullYear(march, 2024) == Date(2024, 2, 1);
  }

  // ---------------------------------------------------------------------
  // Drawing the days taken from the balances

  /** Days taken come out of the current balance first; what the current
      balance cannot cover comes out of the next one, which stops at 0.
      Nothing goes below zero, days taken never vanish or appear while the
      balances last, and the next balance is untouched when the current one
      covers everything. */
  function DrawDown(available: int, next: int, taken: nat): (r: (int, int))
    ensures r.0 >= 0 && r.1 <= Max(0, next)
    ensures next >= 0 ==> r.1 >= 0 && r.0 + r.1 == Max(0, available + next - taken)
    ensures taken <= available ==> r == (available - taken, next)
  {
    var carried := Max(0, taken - available);
    (Max(0, available - taken), if carried > 0 then Max(0, next - carried) else next)
  }

  /** The balance step of `handleCalculate`, variable by variable. */
  method ConsumeTaken(available: int, next: int, taken: nat) returns (current: int, nextBalance: int)
    ensures (current, nextBalance) == DrawDown(available, next, taken)
  {
    var remaining := taken;
    current := available;
    if current >= remaining {
      current := current - remaining;
      remaining := 0;
    } else {
      remaining := remaining - current;
      current := 0;
    }
    nextBalance := next;
    if remaining > 0 {
      nextBalance := Max(0, nextBalance - remaining);
    }
  }

  /** The two balances, shown to two decimals, are never negative, and an
      empty current balance shows as 0. */
  lemma ShownAmounts(available: int, next: int, taken: nat)
    requires next >= 0
    ensures ToHundredths(DrawDown(available, next, taken).0) >= 0
    ensures ToHundredths(DrawDown(available, next, taken).1) >= 0
    ensures available == 0 ==> ToHundredths(DrawDown(available, next, taken).0) == 0
  {
    if available == 0 {
      assert DrawDown(available, next, taken).0 == 0;
    }
  }

  /** Five days in the current period and three in the next, seven taken. */
  lemma DrawDownExample()
    ensures DrawDown(5 * Scale, 3 * Scale, 7 * Scale) == (0, 1 * Scale)
  {
  }

  // ---------------------------------------------------------------------
  // A calculation

  /** What the current balance of a calculation holds in either mode: the
      expiration six months after the anniversary, expiry by
      `IsDateExpired`, and a balance that is never negative and is zero once
      expired. */
  predicate CurrentPeriodShown(start: CalDate, check: CalDate, current: CurrentBalance) {
    var expiration := ExpirationDate(Anniversary(start, check));
    && current.expirationDate == expiration
    && current.isExpired == IsDateExpired(expiration, check, start)
    && current.availableDays >= 0
    && (current.isExpired ==> current.availableDays == 0)
  }

  /** The accrual-mode balances: the accrued amounts, the current one
      dropped once expired, with the days taken drawn down and each shown to
      two decimals; the next period expires six months after the next
      anniversary. */
  predicate AccrualShown(start: CalDate, check: CalDate, taken: nat, current: CurrentBalance, next: NextBalance) {
    var accrued := AccruedDays(start, check);
    var balances := DrawDown(if current.isExpired then 0 else accrued.current, accrued.next, taken * Scale);
    && CurrentPeriodShown(start, check, current)
    && current.availableDays == ToHundredths(balances.0)
    && current.tier == accrued.currentTier
    && next.availableDays == Value(ToHundredths(balances.1))
    && next.expirationDate == Value(ExpirationDate(NextAnniversary(Anniversary(start, check))))
    && next.tier == accrued.nextTier
    && next.availableDays.value >= 0
  }

  /** The front-loaded balances: the full allotment for the elapsed years
      (365.25-day years) less the days taken, at least 0 and at most the
      allotment, 0 once expired; every next-period field is 'N/A'. */
  predicate FrontLoadedShown(start: CalDate, check: CalDate, taken: nat, current: CurrentBalance, next: NextBalance) {
    var years := FrontLoadedYears(start, check);
    var days := VacationDays(years as real);
    && CurrentPeriodShown(start, check, current)
    && current.availableDays == (if current.isExpired then 0 else Max(0, days - taken)) * Scale
    && current.availableDays <= days * Scale
    && current.tier == TierLabel(years as real)
    && next == NextBalance(NotApplicable, NotApplicable, "N/A")
  }

  /** The anniversary `handleCalculate` computes on a copy of the start
      date: moved to the check's year, then back a year if still ahead. */
  method LastAnniversary(start: CalDate, check: CalDate) returns (anniversary: CalDate)
    ensures anniversary == Anniversary(start, check)
    ensures NotAfter(anniversary, check) && Before(check, NextAnniversary(anniversary))
  {
    anniversary := SetFullYear(start, check.year);
    if Before(check, anniversary) {
      anniversary := SetFullYear(anniversary, anniversary.year - 1);
    }
    AnniversaryBracketsCheck(start, check);
  }

  /** The expiration date of the current period and whether it has passed,
      as both branches of `handleCalculate` compute them. */
  method CurrentExpiry(start: CalDate, check: CalDate) returns (expiration: CalDate, expired: bool)
    ensures expiration == ExpirationDate(Anniversary(start, check))
    ensures expired == IsDateExpired(expiration, check, start)
    ensures expired ==> MonthsOfService(start, check) >= 12 && Before(expiration, check)
  {
    var anniversary := LastAnniversary(start, check);
    expiration := ExpirationDate(anniversary);
    expired := IsDateExpired(expiration, check, start);
  }

  /** The accrual branch of `handleCalculate`, with its `Date` copies and
      running balances updated step by step. */
  method AccrualBalances(start: CalDate, check: CalDate, taken: nat) returns (current: CurrentBalance, next: NextBalance)
    ensures AccrualShown(start, check, taken, current, next)
  {
    var accrued := AccruedDays(start, check);
    var anniversary := LastAnniversary(start, check);
    var currentExpiration := ExpirationDate(anniversary);
    var expired := IsDateExpired(currentExpiration, check, start);
    var nextAnniversary := SetFullYear(anniversary, anniversary.year + 1);
    var nextExpiration := ExpirationDate(nextAnniversary);
    var available := if expired then 0 else accrued.current;
    var currentPeriodBalance, nextPeriodBalance := ConsumeTaken(available, accrued.next, taken * Scale);
    ShownAmounts(available, accrued.next, taken * Scale);
    current := CurrentBalance(ToHundredths(currentPeriodBalance), currentExpiration, expired, accrued.currentTier);
    next := NextBalance(Value(ToHundredths(nextPeriodBalance)), Value(nextExpiration), accrued.nextTier);
    assert CurrentPeriodShown(start, check, current);
  }

  /** The front-loaded branch of `handleCalculate`. */
  method FrontLoadedBalances(start: CalDate, check: CalDate, taken: nat) returns (current: CurrentBalance, next: NextBalance)
    ensures FrontLoadedShown(start, check, taken, current, next)
  {
    var years := FrontLoadedYears(start, check);
    var currentYearDays := VacationDays(years as real);
    var currentExpiration, expired := CurrentExpiry(start, check);
    var availableDays := 0;
    if !expired {
      availableDays := Max(0, currentYearDays - taken);
    }
    AllotmentBounds(availableDays, currentYearDays);
    current := CurrentBalance(availableDays * Scale, currentExpiration, expired, TierLabel(years as real));
    next := NextBalance(NotApplicable, NotApplicable, "N/A");
    assert CurrentPeriodShown(start, check, current);
  }

  lemma AllotmentBounds(available: int, days: nat)
    requires 0 <= available <= days
    ensures 0 <= available * Scale <= days * Scale
  {
  }

  /** `handleCalculate` without the state setters: refuses when a date is
      missing, otherwise yields the balances of the chosen mode. Days taken
      are whole days. */
  method Calculate(mode: Mode, startDate: Option<CalDate>, checkingDate: Option<CalDate>, taken: nat)
    returns (r: Outcome)
    ensures r.IncompleteInput? <==> startDate.None? || checkingDate.None?
    ensures r.Balances? && mode == Accrual ==>
              AccrualShown(startDate.value, checkingDate.value, taken, r.current, r.next)
    ensures r.Balances? && mode == FrontLoaded ==>
              FrontLoadedShown(startDate.value, checkingDate.value, taken, r.current, r.next)
  {
    if startDate.None? || checkingDate.None? {
      return IncompleteInput;
    }
    var current, next;
    if mode == Accrual {
      current, next := AccrualBalances(startDate.value, checkingDate.value, taken);
    } else {
      current, next := FrontLoadedBalances(startDate.value, checkingDate.value, taken);
    }
    r := Balances(current, next);
  }
}
