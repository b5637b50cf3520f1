/** The statutory tier table: years of service to annual vacation days and
    to the label the calculator shows. */
module Tiers {

  /** A row of the table. */
  datatype ServiceTier = ServiceTier(annualDays: nat, title: string)

  /** The lower bounds, in years of service, of every tier after the first;
      tier `i` covers `[Thresholds[i - 1], Thresholds[i])`. */
  const Thresholds: seq<real> := [1.0, 2.0, 3.0, 4.0, 5.0, 6.0, 11.0, 16.0, 21.0, 26.0]

  /** The number of tiers. */
  const TierCount: nat := 11

  /** Row `i` of the table. */
  function Table(i: nat): ServiceTier
    requires i < TierCount
  {
    match i
    case 0 => ServiceTier(12, "First Year (12 Days)")
    case 1 => ServiceTier(12, "1-2 Years (12 Days)")
    case 2 => ServiceTier(14, "2-3 Years (14 Days)")
    case 3 => ServiceTier(16, "3-4 Years (16 Days)")
    case 4 => ServiceTier(18, "4-5 Years (18 Days)")
    case 5 => ServiceTier(20, "5-6 Years (20 Days)")
    case 6 => ServiceTier(22, "6-10 Years (22 Days)")
    case 7 => ServiceTier(24, "11-15 Years (24 Days)")
    case 8 => ServiceTier(26, "16-20 Years (26 Days)")
    case 9 => ServiceTier(28, "20-25 Years (28 Days)")
    case _ => ServiceTier(30, "25-30 Years (30 Days)")
  }

  /** `calculateVacationDays`: annual days for (possibly fractional or
      negative) years of service. */
  function VacationDays(years: real): (days: nat)
    ensures 12 <= days <= 30 && days % 2 == 0
  {
    if years < 1.0 then 12
    else if years < 2.0 then 12
    else if years < 3.0 then 14
    else if years < 4.0 then 16
    else if years < 5.0 then 18
    else if years < 6.0 then 20
    else if years < 11.0 then 22
    else if years < 16.0 then 24
    else if years < 21.0 then 26
    else if years < 26.0 then 28
    else 30
  }

  /** `getTierLabel`: the first-year label for less than a year. */
  function TierLabel(years: real): (title: string)
    ensures years < 1.0 ==> title == Table(0).title
  {
    if years < 1.0 then "First Year (12 Days)"
    else if years < 2.0 then "1-2 Years (12 Days)"
    else if years < 3.0 then "2-3 Years (14 Days)"
    else if years < 4.0 then "3-4 Years (16 Days)"
    else if years < 5.0 then "4-5 Years (18 Days)"
    else if years < 6.0 then "5-6 Years (20 Days)"
    else if years < 11.0 then "6-10 Years (22 Days)"
    else if years < 16.0 then "11-15 Years (24 Days)"
    else if years < 21.0 then "16-20 Years (26 Days)"
    else if years < 26.0 then "20-25 Years (28 Days)"
    else "25-30 Years (30 Days)"
  }

  /** How many thresholds `years` has reached. */
  function CountReached(ts: seq<real>, years: real): (n: nat)
    ensures n <= |ts|
  {
    if ts == [] then 0
    else (if ts[0] <= years then 1 else 0) + CountReached(ts[1..], years)
  }

  /** The table row that applies to `years`: the half-open range lookup. */
  function TierIndex(years: real): (i: nat)
    ensures i < TierCount
  {
    CountReached(Thresholds, years)
  }

  predicate StrictlyIncreasing(ts: seq<real>) {
    forall i, j :: 0 <= i < j < |ts| ==> ts[i] < ts[j]
  }

  /** In an increasing list of thresholds, `years` has reached exactly the
      first `k` of them when it lies in `[ts[k - 1], ts[k])`. */
  lemma {:induction false} CountReachedIsRange(ts: seq<real>, years: real, k: nat)
    requires StrictlyIncreasing(ts) && k <= |ts|
    ensures CountReached(ts, years) == k
            <==> (k == 0 || ts[k - 1] <= years) && (k == |ts| || years < ts[k])
  {
    if ts != [] {
      assert StrictlyIncreasing(ts[1..]);
      if k > 0 {
        CountReachedIsRange(ts[1..], years, k - 1);
      }
      if ts[0] <= years {
        assert CountReached(ts, years) == 1 + CountReached(ts[1..], years);
        CountReachedIsRange(ts[1..], years, CountReached(ts[1..], years));
        CountReachedNotAbove(ts, years);
      } else {
        ZeroReached(ts, years);
      }
    }
  }

  lemma {:induction false} ZeroReached(ts: seq<real>, years: real)
    requires StrictlyIncreasing(ts) && ts != [] && years < ts[0]
    ensures CountReached(ts, years) == 0
    decreases |ts|
  {
    if |ts| > 1 {
      assert StrictlyIncreasing(ts[1..]);
      ZeroReached(ts[1..], years);
    }
  }

  lemma CountReachedNotAbove(ts: seq<real>, years: real)
    requires StrictlyIncreasing(ts) && ts != [] && ts[0] <= years
    ensures CountReached(ts, years) >= 1
  {
  }

  /** The threshold lookup, tier index `i`, holds exactly on `[Thresholds[i - 1], Thresholds[i])`. */
  lemma TierIndexRange(years: real, i: nat)
    requires i < TierCount
    ensures TierIndex(years) == i
            <==> (i == 0 || Thresholds[i - 1] <= years) && (i == |Thresholds| || years < Thresholds[i])
  {
    CountReachedIsRange(Thresholds, years, i);
  }

  /** Both if-chains of the source are the table lookup: the days and the
      label always come from the same row. */
  lemma IfChainsAreTableLookup(years: real)
    ensures VacationDays(years) == Table(TierIndex(years)).annualDays
    ensures TierLabel(years) == Table(TierIndex(years)).title
  {
    var i := TierIndex(years);
    TierIndexRange(years, i);
  }

  /** A value exactly on a threshold selects the higher tier. */
  lemma ThresholdSelectsUpperTier(k: nat)
    requires k < |Thresholds|
    ensures TierIndex(Thresholds[k]) == k + 1
    ensures VacationDays(Thresholds[k]) == Table(k + 1).annualDays
    ensures TierLabel(Thresholds[k]) == Table(k + 1).title
  {
    TierIndexRange(Thresholds[k], k + 1);
    IfChainsAreTableLookup(Thresholds[k]);
  }

  lemma {:induction false} CountReachedMonotone(ts: seq<real>, y1: real, y2: real)
    requires y1 <= y2
    ensures CountReached(ts, y1) <= CountReached(ts, y2)
  {
    if ts != [] {
      CountReachedMonotone(ts[1..], y1, y2);
    }
  }

  /** More service never means fewer days. */
  lemma VacationDaysMonotone(y1: real, y2: real)
    requires y1 <= y2
    ensures VacationDays(y1) <= VacationDays(y2)
  {
    CountReachedMonotone(Thresholds, y1, y2);
    IfChainsAreTableLookup(y1);
    IfChainsAreTableLookup(y2);
    var i, j := TierIndex(y1), TierIndex(y2);
    assert forall a, b :: 0 <= a <= b < TierCount ==> Table(a).annualDays <= Table(b).annualDays;
  }

  // ---------------------------------------------------------------------
  // The "(N Days)" at the end of each label.

  function DigitChar(d: nat): char
    requires d < 10
  {
    ['0', '1', '2', '3', '4', '5', '6', '7', '8', '9'][d]
  }

  /** The " (NN Days)" that closes a label, for a two-digit day count. */
  function DaysSuffix(days: nat): string
    requires 10 <= days < 100
  {
    " (" + [DigitChar(days / 10), DigitChar(days % 10)] + " Days)"
  }

  predicate EndsWith(s: string, suffix: string) {
    |suffix| <= |s| && s[|s| - |suffix|..] == suffix
  }

  /** `text` closes with " (NN Days)" for the two digits of `days`,
      checked character by character. */
  predicate ClosesWithDays(text: string, days: nat)
    requires 10 <= days < 100
  {
    var n := |text|;
    n >= 10 && text[n - 10] == ' ' && text[n - 9] == '(' && text[n - 8] == DigitChar(days / 10)
    && text[n - 7] == DigitChar(days % 10) && text[n - 6..] == " Days)"
  }

  lemma ClosesWithDaysEndsWith(text: string, days: nat)
    requires 10 <= days < 100 && ClosesWithDays(text, days)
    ensures EndsWith(text, DaysSuffix(days))
  {
    var n := |text|;
    assert text[n - 10..] == text[n - 10..n - 6] + text[n - 6..];
  }

  lemma RowsZeroToTwoStateDays(i: nat)
    requires 0 <= i < 3
    ensures ClosesWithDays(Table(i).title, Table(i).annualDays)
  {
  }

  lemma RowsThreeToFiveStateDays(i: nat)
    requires 3 <= i < 6
    ensures ClosesWithDays(Table(i).title, Table(i).annualDays)
  {
  }

  lemma RowsSixToEightStateDays(i: nat)
    requires 6 <= i < 9
    ensures ClosesWithDays(Table(i).title, Table(i).annualDays)
  {
  }

  lemma RowsNineAndTenStateDays(i: nat)
    requires 9 <= i < 11
    ensures ClosesWithDays(Table(i).title, Table(i).annualDays)
  {
  }

  /** Every label of the table ends with the row's own day count. */
  lemma TableLabelsStateDays(i: nat)
    requires i < TierCount
    ensures EndsWith(Table(i).title, DaysSuffix(Table(i).annualDays))
  {
    if i < 3 {
      RowsZeroToTwoStateDays(i);
    } else if i < 6 {
      RowsThreeToFiveStateDays(i);
    } else if i < 9 {
      RowsSixToEightStateDays(i);
    } else {
      RowsNineAndTenStateDays(i);
    }
    ClosesWithDaysEndsWith(Table(i).title, Table(i).annualDays);
  }

  /** The "(N Days)" that `getTierLabel` shows is `calculateVacationDays` of
      the same years. */
  lemma LabelStatesVacationDays(years: real)
    ensures EndsWith(TierLabel(years), DaysSuffix(VacationDays(years)))
  {
    IfChainsAreTableLookup(years);
    TableLabelsStateDays(TierIndex(years));
  }
}
