# Convertible-note valuation, verified

This project models the calculation at the heart of the Capital Raising
Toolkit, a small web form for startups that raise money on a convertible
note. From seven numbers — the amount raised from investors, the upper
limit of a matching government innovation grant, the note's annual
interest rate, the months until the next funding round, the capital that
round should raise, the fraction of equity it trades and the discount the
early investors get on conversion — the calculation derives the government
contribution, the total capital, the note's value after interest, the pre-
and post-money valuations, the investors' ownership after conversion and
the working capital the next round leaves over. The page then splits the
investors' growth into interest, discount gain and valuation gain.

Files:

- `valuation.dfy` (module `Valuation`): the input and result records, one
  function per formula step, and `CalculateValuation`, which returns
  `Success(figures)` or `Failure(site)` naming the first division whose
  denominator is zero (the source raises a division error there).
- `valuation_properties.dfy` (module `ValuationProperties`): monotonicity in
  interest, time and discount; the discount's bounds; the ranges on which
  the calculation succeeds; the inputs the form admits that make it fail.
- `growth.dfy` (module `Growth`): the growth decomposition and its additivity.
- `scenarios.dfy` (module `Scenarios`): the form's default inputs and two
  variants, evaluated exactly.

All amounts and rates are exact `real`s, not floating point; the number of
months is an `int` divided by 12 with true division, as in the source.
Rates are the fractions the calculation receives (the form divides the
percentages it shows by 100 before calling it).

Error paths, as the program has them:

- The form accepts a next-round capital of 0 (streamlit_app.py:108). That
  makes the post-money valuation 0. Unless line 29 or 33 has already failed,
  the division at line 34 fails. The model returns
  `Failure(OwnershipDivision)` exactly when the equity fraction is not 0,
  the discount is not 100 percent, and the capital is 0 or the equity
  fraction is -1.
- The form accepts an equity fraction of 0 (streamlit_app.py:109), which
  makes the division at line 29 fail, and a discount of 100 percent
  (streamlit_app.py:110), which makes the division at line 33 fail.
- The model records which of the three divisions (lines 29, 33, 34) failed
  first, in the order the function evaluates them.

## Model

| member | source | states |
|---|---|---|
| `Valuation.GovContribution` | streamlit_app.py:26 | the contribution is at most the raise and at most the grant limit, and equals one of them (it is their minimum) |
| `Valuation.TotalCapital` | streamlit_app.py:26-27 | for non-negative inputs the total lies between the raise and twice the raise and is at most raise plus grant limit; it is exactly twice the raise when the limit does not bind |
| `Valuation.ConvertibleNoteValue` | streamlit_app.py:28 | the note is worth the raise when interest or time is 0, is 0 when nothing is raised, and is at least the raise for non-negative raise, interest and months |
| `Valuation.NoteInterestTerm` | streamlit_app.py:28 | twelve times the accrued interest is raise × rate × months (simple interest) |
| `Valuation.PreMoneyValuation` | streamlit_app.py:29 | defined only for a non-zero equity fraction; pre-money × equity fraction gives back the next-round capital |
| `Valuation.PostMoneyValuation` | streamlit_app.py:29-30 | post-money × equity fraction = capital × (1 + fraction); post-money is at least pre-money for non-negative capital |
| `Valuation.PostMoneyZeroIff` | streamlit_app.py:29-34 | the post-money valuation is 0 exactly when the next-round capital is 0 or the equity fraction is -1 |
| `Valuation.DiscountedValue` | streamlit_app.py:33 | defined only for a discount other than 1; discounted × (1 − discount) gives back the note value; no discount leaves the note value unchanged |
| `Valuation.EquityOwnershipInvestors` | streamlit_app.py:34 | defined only for a non-zero post-money valuation; ownership × post-money gives back the discounted value |
| `Valuation.AdditionalWorkingCapital` | streamlit_app.py:37 | the leftover capital is at most the next-round capital exactly when note plus discounted value is non-negative, and at most capital minus twice the note whenever the discounted value is at least the note; its value inside a result is fixed by `CalculateValuation`'s success equations and bounded by `AdditionalWorkingCapitalBound` |
| `Valuation.CalculateValuation` | streamlit_app.py:25-47 | fails at the pre-money division iff the equity fraction is 0, at the discount division iff the fraction is non-zero and the discount is 1, at the ownership division iff neither and the post-money is 0; on success each of the seven figures satisfies its defining equation |
| `ValuationProperties.NoteValueIncreasesWithInterest` | streamlit_app.py:28 | for a positive raise and a positive number of months the note value strictly increases with the interest rate |
| `ValuationProperties.NoteValueIncreasesWithTime` | streamlit_app.py:28 | for a positive raise and a positive rate the note value strictly increases with the months |
| `ValuationProperties.DiscountedValueBounds` | streamlit_app.py:33 | for a non-negative note and a discount in [0, 1) the discounted value is at least the note value, with equality iff the discount or the note is 0 |
| `ValuationProperties.DiscountedValueIncreasesWithDiscount` | streamlit_app.py:33 | below a discount of 1 the discounted value is non-decreasing in the discount, strictly increasing for a positive note |
| `ValuationProperties.OwnershipIncreasesWithDiscount` | streamlit_app.py:33-34 | all else equal, a larger discount below 100 percent gives the investors a strictly larger ownership, for every input the form accepts with a positive raise, next-round capital and equity fraction |
| `ValuationProperties.AdditionalWorkingCapitalBound` | streamlit_app.py:37 | the leftover working capital is at most next-round capital minus twice the note value, with equality iff there is no discount or no note |
| `ValuationProperties.SucceedsOnNonFailingFormRange` | streamlit_app.py:25-47 | with positive next-round capital, positive equity fraction, discount in [0, 1) and other inputs non-negative, the calculation succeeds with non-negative contribution and ownership, note and total at least the raise, and 0 < pre-money < post-money |
| `ValuationProperties.WidgetRange` | streamlit_app.py:104-110 | the form's ranges: raise, grant limit, interest, next-round capital and equity fraction each with `min_value` 0, months with `min_value` 1, discount with `min_value` 0 and `max_value` 100 percent; every input with positive next-round capital and equity fraction and a discount below 100 percent, other inputs non-negative and at least one month, lies inside them |
| `ValuationProperties.WidgetRangeFailures` | streamlit_app.py:104-113 | within the form's input ranges the calculation fails exactly when the equity fraction is 0, the discount is 100 percent or the next-round capital is 0 |
| `ValuationProperties.WidgetRangeAdmitsZeroEquity` | streamlit_app.py:109 | an equity fraction of 0 is accepted by the form and makes the pre-money division fail |
| `ValuationProperties.WidgetRangeAdmitsFullDiscount` | streamlit_app.py:110 | a discount of 100 percent is accepted by the form and makes the discount division fail |
| `ValuationProperties.WidgetRangeAdmitsNoNextRound` | streamlit_app.py:108 | a next-round capital of 0 is accepted by the form and makes the ownership division fail |
| `Growth.DecomposeGrowth` | streamlit_app.py:116-120 | raise + interest accrued + discount gain + valuation gain = value after the round = raise + total growth, and the valuation gain is exactly 0 |
| `Growth.GrowthOfCalculation` | streamlit_app.py:116-118 | for a successful calculation the value after the round is exactly the discounted note value, the discount gain is discounted minus note value, and the interest accrued is the simple-interest term |
| `Growth.GrowthIsNonNegative` | streamlit_app.py:116-120 | for non-negative inputs and a discount below 1, interest accrued and discount gain are non-negative and the value after the round is at least the raise |
| `Scenarios.DefaultScenario` | streamlit_app.py:104-110 | the form's defaults give contribution 250000, total 600000, note 399000, pre-money 10000000, post-money 12000000, discounted value 498750, ownership 0.0415625, working capital 1102250, and growth parts 49000 + 99750 + 0 |
| `Scenarios.NoDiscountScenario` | streamlit_app.py:25-47 | with no discount the discounted value equals the note value 399000 and the ownership is 0.03325 |
| `Scenarios.NothingRaisedScenario` | streamlit_app.py:25-47 | with nothing raised the contribution, total, note value and ownership are all 0 |

## Left out

- The Streamlit page: configuration, description text, sidebar widgets and the rerun button (streamlit_app.py:10, 57-110, 265-266); only the ranges the widgets enforce appear, as `WidgetRange`.
- The Altair/pandas bar charts (streamlit_app.py:167-233): rendering through libraries that are not part of this model.
- `get_image_base64` (streamlit_app.py:49-54): image file I/O and base64 encoding through foreign libraries; it is never called.
- The telemetry record `logdata` and the commented-out analytics calls (streamlit_app.py:8-21, 130-150): they do not affect any result.
- Rounding to 2 decimals and text formatting (streamlit_app.py:123-126, 155-165), including the display sum of already-rounded parts at line 157: display behaviour of floating point.
- The growth percentage at line 165: display only; it divides by the raise divided by 100 and so fails when nothing is raised.
- Floating-point effects in general: all quantities are exact reals, so the valuation gain is exactly 0 here, where floating point leaves a rounding residue.
- ValuationProperties.DiscountedValueIncreasesWithDiscount: strict increase is stated only for a positive note value, because with a note of 0 the discounted value is 0 for every discount.
- ValuationProperties.OwnershipIncreasesWithDiscount: stated only for a positive raise, next-round capital and equity fraction, because with nothing raised the ownership is 0 at every discount, and with no next-round capital or no equity traded the calculation fails.
