/**
  The decomposition of the investors' growth that the toolkit displays:
  how much of the value of their investment after the next round is the
  money they put in, the interest the note accrued, the gain from the
  conversion discount and the gain from the valuation.
 */
module Growth {
  import opened Valuation
  import ValuationProperties

  datatype GrowthBreakdown = GrowthBreakdown(
    investmentValueAfter: real,   // value of the investors' stake after conversion
    interestAccrued: real,
    discountGain: real,
    totalGrowth: real,
    valuationGain: real
  )

  /** Splits the growth of an investment of `raiseAmount` under the
      valuation `v`. The parts add up to the value after the round, and the
      valuation gain, being what is left over, is exactly zero. */
  function DecomposeGrowth(raiseAmount: real, v: Figures): (g: GrowthBreakdown)
    ensures raiseAmount + g.interestAccrued + g.discountGain + g.valuationGain
              == g.investmentValueAfter
    ensures g.investmentValueAfter == raiseAmount + g.totalGrowth
    ensures g.valuationGain == 0.0
    ensures g.interestAccrued == v.convertibleNoteValue - raiseAmount
    ensures g.investmentValueAfter == v.equityOwnershipInvestors * v.postMoneyValuation
  {
    var investmentValueAfter := v.equityOwnershipInvestors * v.postMoneyValuation;
    var interestAccrued := v.convertibleNoteValue - raiseAmount;
    var discountGain := investmentValueAfter - v.convertibleNoteValue;
    var totalGrowth := investmentValueAfter - raiseAmount;
    var valuationGain := totalGrowth - interestAccrued - discountGain;
    GrowthBreakdown(investmentValueAfter, interestAccrued, discountGain, totalGrowth, valuationGain)
  }

  /** For a successful calculation the investors' stake is worth exactly the
      discounted note value, the discount gain is the discount's mark-up on
      the note, and the interest accrued is the simple-interest term. */
  lemma GrowthOfCalculation(inp: Inputs)
    requires CalculateValuation(inp).Success?
    ensures inp.discountRate != 1.0
    ensures var v := CalculateValuation(inp).value;
            var g := DecomposeGrowth(inp.raiseAmount, v);
            && g.investmentValueAfter == DiscountedValue(v.convertibleNoteValue, inp.discountRate)
            && g.discountGain == DiscountedValue(v.convertibleNoteValue, inp.discountRate) - v.convertibleNoteValue
            && 12.0 * g.interestAccrued == inp.raiseAmount * inp.interest * (inp.timeMonths as real)
  {
  }

  /** With non-negative inputs and a discount below 100 percent no part of
      the growth is negative: the investors never lose by the note. */
  lemma GrowthIsNonNegative(inp: Inputs)
    requires CalculateValuation(inp).Success?
    requires 0.0 <= inp.raiseAmount && 0.0 <= inp.interest && 0 <= inp.timeMonths
    requires 0.0 <= inp.discountRate < 1.0
    ensures var g := DecomposeGrowth(inp.raiseAmount, CalculateValuation(inp).value);
            && 0.0 <= g.interestAccrued
            && 0.0 <= g.discountGain
            && g.interestAccrued <= g.totalGrowth
            && inp.raiseAmount <= g.investmentValueAfter
  {
    var v := CalculateValuation(inp).value;
    GrowthOfCalculation(inp);
    ValuationProperties.DiscountedValueBounds(v.convertibleNoteValue, inp.discountRate);
  }
}
