# Mexican statutory vacation calculator — a verified model of its engine

This project models the calculation engine of the MexicoVacations calculator
and its period calendar, and proves properties of them in Dafny.

The calculator takes a start date, a checking date, a count of vacation days
already taken, and a mode: accrual (prorated) or front-loaded (lump sum). It
works out the following:

- the months of service, with the day-of-month correction;
- the statutory tier and its label, from 12 days in the first years up to 30
  days after 26 years;
- the anniversary that opened the current period, and the expiration date
  six calendar months after it;
- whether the current period has expired;
- in accrual mode, a current balance and a prorated next-period balance,
  with the days taken drawn from the current balance first;
- in front-loaded mode, the full allotment of the elapsed 365.25-day years,
  less the days taken.

The period calendar lays out the first day of every month, from the start
year to the year after the check. It shades each month as current period,
next period or neither, and marks the start month and the expiration month.

Files, one module each:

- `calendar.dfy` (`Calendar`): whole dates and the `Date` operations the
  source uses.
  - The day number is a closed-form Gregorian count, so the time-value
    comparison `<` is an integer comparison.
  - `MakeDate` reproduces the day-of-month rollover of `setMonth` and
    `setFullYear`. 31 February becomes 2 or 3 March, and 29 February in a
    common year becomes 1 March.
- `tiers.dfy` (`Tiers`): the tier table, the two if-chains
  `calculateVacationDays` and `getTierLabel`, and the proof that both are
  one threshold lookup.
- `amounts.dfy` (`Amounts`): day amounts as exact integers in
  ten-thousandths of a day, and the `toFixed` rounding.
- `entitlement.dfy` (`Entitlement`): service length, anniversary, expiration,
  expiry, proration, the drawing down of the days taken, and
  `handleCalculate` for both modes.
- `period_calendar.dfy` (`PeriodCalendar`): the grid, the first-year test of
  the calendar, the two shading windows, the style of a month, and the two
  markers.

Properties of the source that the proofs make explicit:

- The calendar's `isFirstYear` ignores the day of the month, unlike the
  calculator's months-of-service count. Whenever the calendar says "first
  year", the calculator agrees. The converse fails in exactly one case: the
  anniversary month, before the anniversary day (for example 15 January
  2020 to 14 January 2021).
- The current window goes back 18 months from the expiration date. The
  comment beside the code says 17; the model follows the code.
- After the first year, when the anniversary day is at most 28:
  - the current window shades the twelve months up to the anniversary month,
    that month included (thirteen when the anniversary is on the 1st);
  - the next window shades the twelve months after the anniversary month.
- A later anniversary day does not give this picture, even when the
  expiration day is small. An anniversary on 31 October 2024 expires on
  1 May 2025, because 31 April rolls over. The current window then also
  shades November 2024.
- After the first year, when the expiration day is at most 28, no month
  between the current window and the next one is left unshaded.
- The accrual counts the next period from the start date moved forward by
  the completed years of service. `handleCalculate` instead moves the start
  date to the check's year and steps back a year if needed. The two
  anniversaries agree, except for a start on 29 February. The two
  computations apply `setFullYear` to different years: the start year plus
  the completed years, against the check's year. Only the copy that first
  lands on a common year rolls over to 1 March. For a start on 29 February
  2020 and a check on 10 January 2025, the accrual counts from 29 February
  2024. The expiration is computed from 1 March 2024.
- When the expiration falls on the 29th, 30th or 31st, the rollover of
  `setMonth` can open a gap. For a start on 31 January 2023 and a check on
  1 March 2024, February 2024 belongs to neither window.

## Model

| member | source | states |
|---|---|---|
| Calendar.MakeDate | MexicoVacations/src/components/VacationCalculator.jsx:151-155 | the date `d - 1` days after the first of the target month: the requested fields when the day fits the month, otherwise a day of at most 3 in the following month |
| Calendar.SetFullYear | MexicoVacations/src/components/VacationCalculator.jsx:169-173 | the year is replaced and month and day kept, except that 29 February in a common year becomes 1 March |
| Calendar.FirstOfMonth | MexicoVacations/src/components/VacationPeriodCalendar.jsx:82-83 | `setDate(1)`: same month, day 1 |
| Calendar.BeforeIsLexicographic | MexicoVacations/src/components/VacationCalculator.jsx:171 | comparing time values (`<`) is comparing dates year, then month, then day; equal time values mean equal dates |
| Calendar.AddMonths | MexicoVacations/src/components/VacationCalculator.jsx:153 | `setMonth(getMonth() + k)` lands `k` months on, or one month further exactly when the day does not fit and rolls over; with a day of at most 28 it moves exactly `k` months and keeps the day |
| Calendar.AddMonthsCompose | MexicoVacations/src/components/VacationPeriodCalendar.jsx:75-80 | with a day of at most 28, two `setMonth` shifts equal one shift by their sum |
| Tiers.VacationDays | MexicoVacations/src/components/VacationCalculator.jsx:54-66 | always an even number of days from 12 to 30 |
| Tiers.TierIndexRange | MexicoVacations/src/components/VacationCalculator.jsx:54-66 | tier `i` applies exactly on the half-open range between thresholds `i - 1` and `i` |
| Tiers.TierLabel | MexicoVacations/src/components/VacationCalculator.jsx:40-52 | less than one year of service gets the first-year label |
| Tiers.IfChainsAreTableLookup | MexicoVacations/src/components/VacationCalculator.jsx:40-66 | both if-chains return the days and the label of the same table row, the one the threshold lookup selects |
| Tiers.ThresholdSelectsUpperTier | MexicoVacations/src/components/VacationCalculator.jsx:54-66 | a value exactly on a threshold (1, 2, 3, 4, 5, 6, 11, 16, 21, 26) gets the higher tier |
| Tiers.VacationDaysMonotone | MexicoVacations/src/components/VacationCalculator.jsx:54-66 | more years of service never give fewer days |
| Tiers.LabelStatesVacationDays | MexicoVacations/src/components/VacationCalculator.jsx:40-66 | the "(N Days)" that closes the label is the day count for the same years |
| Amounts.RoundDiv | MexicoVacations/src/components/VacationCalculator.jsx:88-89 | the integer nearest to `n / d`, within half a unit, with the sign of `n` |
| Amounts.ToHundredths | MexicoVacations/src/components/VacationCalculator.jsx:198-208 | `toFixed(2)` of an amount: a whole number of hundredths, within half a hundredth, not negative for a non-negative amount |
| Entitlement.MonthsOfService | MexicoVacations/src/components/VacationCalculator.jsx:92-94 | the difference of the month indices, or one less; exactly that difference when the start's day of the month has come round |
| Entitlement.MonthsOfServiceReached | MexicoVacations/src/components/VacationCalculator.jsx:92-94 | at least `n` months of service exactly when the check is past the month `n` months after the start, or in it on or after the start's day |
| Entitlement.MonthsOfServiceExamples | MexicoVacations/src/components/VacationCalculator.jsx:92-94 | 0 months from a date to itself; 11 months from 2020-01-15 to 2021-01-14; 12 months to 2021-01-15 |
| Entitlement.FullYearsIffAnniversaryReached | MexicoVacations/src/components/VacationCalculator.jsx:92-97 | `k` full years of months of service exactly when the check is not before the start moved forward `k` years with `setFullYear` |
| Entitlement.FrontLoadedYears | MexicoVacations/src/components/VacationCalculator.jsx:219-221 | the whole number of 365.25-day years between the two dates: four times the elapsed days lies between 1461 × years and 1461 × (years + 1) |
| Entitlement.FrontLoadedYearsIsFloor | MexicoVacations/src/components/VacationCalculator.jsx:218-221 | the integer formula equals the floor of the elapsed days over 365.25 |
| Entitlement.Anniversary | MexicoVacations/src/components/VacationCalculator.jsx:169-173 | in the check's year, or the year before exactly when the start moved to the check's year is after the check |
| Entitlement.NextAnniversary | MexicoVacations/src/components/VacationCalculator.jsx:178-179 | one year later, same month and day except from 29 February |
| Entitlement.ExpirationDate | MexicoVacations/src/components/VacationCalculator.jsx:151-155 | after the anniversary; six months on with the same day when the day is at most 28, otherwise six or seven months on |
| Entitlement.AnniversaryBracketsCheck | MexicoVacations/src/components/VacationCalculator.jsx:169-173 | the anniversary is not after the check, the next one is after it, and the anniversary falls in the check's year or the year before |
| Entitlement.AnniversaryNotBeforeStart | MexicoVacations/src/components/VacationCalculator.jsx:169-173 | for a check not before the start, the anniversary is not before the start |
| Entitlement.IsDateExpired | MexicoVacations/src/components/VacationCalculator.jsx:136-149 | expired exactly when the start's first anniversary (`setFullYear` to the next year) is on or before the check and the expiration date is before the check |
| Entitlement.FirstAnniversaryIsFirstYearOfService | MexicoVacations/src/components/VacationCalculator.jsx:139-145 | the month count of at least 12 is exactly the first anniversary having been reached |
| Entitlement.FirstYearDays | MexicoVacations/src/components/VacationCalculator.jsx:67-82 | a whole number of hundredths within half a hundredth of tier days × inclusive days / 365; not negative when the check is not before the start |
| Entitlement.DailyFactor | MexicoVacations/src/components/VacationCalculator.jsx:88 | not negative, and within half a ten-thousandth of tier days / 365 |
| Entitlement.NextPeriodDays | MexicoVacations/src/components/VacationCalculator.jsx:84-90 | within half a ten-thousandth per day of next-tier days × inclusive days since the anniversary / 365; at least one day's factor when the check is on or after the anniversary; at most 0 when it is before |
| Entitlement.AccruedDays | MexicoVacations/src/components/VacationCalculator.jsx:91-134 | below 12 months: the first-year proration at 12 days, next 0, first-year label, next tier 'N/A'; otherwise at least one completed year, the full tier days of the completed years, and for next the next tier's `NextPeriodDays` from the start moved forward by the completed years, an anniversary not after the check, so at least one day's factor; labels of both tiers; next never negative |
| Entitlement.AccrualAnniversaryReached | MexicoVacations/src/components/VacationCalculator.jsx:117-119 | the start moved forward by the completed years of service is never after the check |
| Entitlement.AccrualAnniversaryAgrees | MexicoVacations/src/components/VacationCalculator.jsx:117-119 | except for a start on 29 February, the accrual's anniversary is the one `handleCalculate` computes at lines 169-173 |
| Entitlement.LeapDayAnniversariesDiffer | MexicoVacations/src/components/VacationCalculator.jsx:117-119 | start 29 February 2020, check 10 January 2025: four completed years, accrual anniversary 29 February 2024, `handleCalculate`'s anniversary 1 March 2024 |
| Entitlement.AccruedDaysOnStartDay | MexicoVacations/src/components/VacationCalculator.jsx:67-82 | on the start day itself the accrual is 0.03 days and nothing for the next period |
| Entitlement.ConsumeTaken | MexicoVacations/src/components/VacationCalculator.jsx:182-196 | the step-by-step updates of the two running balances compute `DrawDown` |
| Entitlement.DrawDown | MexicoVacations/src/components/VacationCalculator.jsx:182-196 | the current balance never goes negative and the next one never exceeds `max(0, next)`; for a non-negative next balance, both stay non-negative and their sum is `max(0, current + next - taken)`; days taken within the current balance leave the next untouched |
| Entitlement.DrawDownExample | MexicoVacations/src/components/VacationCalculator.jsx:182-196 | 5 current and 3 next days with 7 taken leave 0 and 1 |
| Entitlement.ShownAmounts | MexicoVacations/src/components/VacationCalculator.jsx:198-208 | both balances shown to two decimals are non-negative, and an emptied current balance shows 0 |
| Entitlement.LastAnniversary | MexicoVacations/src/components/VacationCalculator.jsx:169-173 | the in-place `setFullYear` steps give the anniversary, not after the check and less than a year before it |
| Entitlement.CurrentExpiry | MexicoVacations/src/components/VacationCalculator.jsx:169-176 | the expiration six months after the anniversary and its expiry by `IsDateExpired`; expired only after twelve months of service with the expiration before the check |
| Entitlement.AccrualBalances | MexicoVacations/src/components/VacationCalculator.jsx:166-209 | the expiration, expiry, rounded drawn-down balances, next expiration and both tiers of accrual mode; a balance of 0 once expired |
| Entitlement.FrontLoadedBalances | MexicoVacations/src/components/VacationCalculator.jsx:210-240 | the full allotment for the elapsed years less the days taken, between 0 and the allotment, 0 once expired; every next-period field 'N/A' |
| Entitlement.Calculate | MexicoVacations/src/components/VacationCalculator.jsx:157-241 | refused exactly when a date is missing; otherwise the balances of the chosen mode |
| PeriodCalendar.GenerateYearRows | MexicoVacations/src/components/VacationPeriodCalendar.jsx:26-47 | no rows while a date is missing; otherwise one row per year from the start year to the year after the check, each holding the first of January to the first of December |
| PeriodCalendar.GridRunsThroughConsecutiveMonths | MexicoVacations/src/components/VacationPeriodCalendar.jsx:26-47 | read row by row, the cells are consecutive months; the start month and the check month each have a cell |
| PeriodCalendar.IsFirstYear | MexicoVacations/src/components/VacationPeriodCalendar.jsx:17-24 | never the first year while a date is missing |
| PeriodCalendar.CalendarFirstYearWithinServiceFirstYear | MexicoVacations/src/components/VacationPeriodCalendar.jsx:17-24 | the calendar's first year implies fewer than 12 months of service; they disagree exactly in the anniversary month before the anniversary day |
| PeriodCalendar.FirstYearDisagreementExample | MexicoVacations/src/components/VacationPeriodCalendar.jsx:17-24 | 2020-01-15 to 2021-01-14: 11 months of service, yet no longer the calendar's first year |
| PeriodCalendar.MonthStartOrder | MexicoVacations/src/components/VacationPeriodCalendar.jsx:52-58 | comparing a first of the month with a date is comparing their months |
| PeriodCalendar.InWindowByMonth | MexicoVacations/src/components/VacationPeriodCalendar.jsx:66-68 | a month is in a window from the month of its lower end (the month after, unless that end is a 1st) to the month of its upper end |
| PeriodCalendar.WindowEnds | MexicoVacations/src/components/VacationPeriodCalendar.jsx:60-80 | for an expiration day of at most 28: the current window runs from 18 to 6 months before the expiration; the next one starts where it ends and runs to 6 months after |
| PeriodCalendar.IsInCurrentPeriod | MexicoVacations/src/components/VacationPeriodCalendar.jsx:49-70 | never without a current expiration |
| PeriodCalendar.IsInNextPeriod | MexicoVacations/src/components/VacationPeriodCalendar.jsx:72-85 | only after the first year, in accrual mode, with a next expiration date |
| PeriodCalendar.Style | MexicoVacations/src/components/VacationPeriodCalendar.jsx:87-101 | plain while a date is missing; never next in the first year or in front-loaded mode |
| PeriodCalendar.StyleLaws | MexicoVacations/src/components/VacationPeriodCalendar.jsx:87-101 | current exactly when both dates are given and the date is in the current period; next exactly when both dates are given and it is in the next period but not the current one |
| PeriodCalendar.FirstYearShading | MexicoVacations/src/components/VacationPeriodCalendar.jsx:49-58 | in the first year the shaded months run from the month after the start month to the check month |
| PeriodCalendar.CurrentShadingByMonth | MexicoVacations/src/components/VacationPeriodCalendar.jsx:60-69 | after the first year, with an expiration day of at most 28, the current period holds the months from 17 (18 when the expiration is on a 1st) to 6 before the expiration |
| PeriodCalendar.NextWindowByMonth | MexicoVacations/src/components/VacationPeriodCalendar.jsx:72-85 | after the first year, with an expiration day of at most 28, the next period holds the months from 5 (6 when on a 1st) before to 6 after the expiration, in accrual mode with a next expiration |
| PeriodCalendar.ShadingByMonth | MexicoVacations/src/components/VacationPeriodCalendar.jsx:87-101 | after the first year, with an expiration day of at most 28, the styled months are current, then next, with no month between them left plain |
| PeriodCalendar.ShadingAroundAnniversary | MexicoVacations/src/components/VacationPeriodCalendar.jsx:49-85 | with the calculator's expiration and an anniversary day of at most 28: current shades the twelve months up to the anniversary month (thirteen when the anniversary is on the 1st), next the twelve after it |
| PeriodCalendar.MonthEndExpirationLeavesGap | MexicoVacations/src/components/VacationPeriodCalendar.jsx:60-85 | an expiration on 31 July 2024 ends the current window on 31 January and starts the next on 2 February, leaving February 2024 plain |
| PeriodCalendar.IsExpirationMonth | MexicoVacations/src/components/VacationPeriodCalendar.jsx:103-109 | never marked without a current expiration |
| PeriodCalendar.IsStartMonth | MexicoVacations/src/components/VacationPeriodCalendar.jsx:110-116 | never marked without a start date |
| PeriodCalendar.MarkersByMonth | MexicoVacations/src/components/VacationPeriodCalendar.jsx:103-116 | each marker is on exactly the month of its date, and on none while that date is missing |

## Left out

- Time zones. ISO date strings are parsed as UTC but read back with local getters, so results can shift by a day. The model takes every date as a calendar day under UTC. It treats the `toISOString().split('T')[0]` round trip of an expiration date as the identity.
- Dates in the wrong order. A check date before the start is accepted and computed as the source computes it. That gives negative inclusive day counts, a negative first-year accrual that `DrawDown` then clamps to 0, and negative front-loaded years, which get the first tier's 12 days.
- IEEE-754 binary floating point. The model computes exact amounts in ten-thousandths of a day and rounds them with `toFixed`'s nearest-value rule. It does not model binary representation errors such as `1.005.toFixed(2)`.
- Entitlement.ConsumeTaken: takes a whole, non-negative count of days. The form's number input can also deliver fractions, `NaN` from text, and negative counts: `min="0"` does not stop a typed −3 (VacationCalculator.jsx:371-375). A negative count would be added to the current balance (lines 185-186) and to the front-loaded allotment (line 226). The model does not cover those inputs.
- Entitlement.FirstYearDays: states the rounding within half a hundredth instead of the exact double-precision result, for the floating-point reason above.
- The React rendering, the `useState` setters, `alert`, the help modal, and the commented-out December cut-off toggle. These are presentation and produce no values.
- `formatDate`, which relies on the locale formatting of `toLocaleDateString`, outside the visible code.
- `calculateSeniority`, a display-only figure that no calculation uses.
- The default checking date, today's date. It comes from the clock, so the model takes the checking date as a parameter.
- `new Date` of an invalid string, other than through the missing-date cases that the source guards against.
- Dates before year 0 are allowed by the model, and JavaScript's two-digit-year mapping in `new Date(year, …)` for years 0 to 99 is not reproduced.
