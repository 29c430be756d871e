/**
  Worked scenarios: the form's default inputs, the same without a
  discount, and a scenario in which nothing is raised.
 */
module Scenarios {
  import opened Valuation
  import opened Growth

  /** The form's default inputs: 350000 raised, a 250000 grant limit, 7
      percent interest over 24 months, a 2000000 next round for 20 percent
      of the equity and a 20 percent discount. */
  const DefaultInputs := Inputs(350000.0, 250000.0, 0.07, 24, 2000000.0, 0.20, 0.20)

  lemma DefaultScenario()
    ensures CalculateValuation(DefaultInputs)
              == Success(Figures(250000.0, 600000.0, 399000.0, 10000000.0, 12000000.0,
                                   0.0415625, 1102250.0))
    ensures DiscountedValue(399000.0, 0.20) == 498750.0
    ensures DecomposeGrowth(350000.0, CalculateValuation(DefaultInputs).value)
              == GrowthBreakdown(498750.0, 49000.0, 99750.0, 148750.0, 0.0)
  {
  }

  lemma NoDiscountScenario()
    ensures CalculateValuation(DefaultInputs.(discountRate := 0.0))
              == Success(Figures(250000.0, 600000.0, 399000.0, 10000000.0, 12000000.0,
                                   0.03325, 1202000.0))
    ensures DiscountedValue(399000.0, 0.0) == 399000.0
  {
  }

  lemma NothingRaisedScenario()
    ensures CalculateValuation(Inputs(0.0, 250000.0, 0.07, 24, 2000000.0, 0.20, 0.20))
              == Success(Figures(0.0, 0.0, 0.0, 10000000.0, 12000000.0, 0.0, 2000000.0))
  {
    // The intermediate figures are not needed for soundness; naming them
    // keeps the solver within its budget on every random seed.
    var note := ConvertibleNoteValue(0.0, 0.07, 24);
    assert note == 0.0;
    var discounted := DiscountedValue(note, 0.20);
    assert discounted == 0.0;
    var post := PostMoneyValuation(2000000.0, 0.20);
    assert post == 12000000.0;
    assert PreMoneyValuation(2000000.0, 0.20) == 10000000.0;
    assert EquityOwnershipInvestors(discounted, post) == 0.0;
  }
}
