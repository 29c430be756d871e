/**
  The convertible-note valuation formula of the Capital Raising Toolkit.

  Seven numbers describing a fundraising scenario are turned into seven
  derived figures: the capped government contribution, the total capital,
  the value of the convertible note after interest, the pre- and post-money
  valuations of the next round, the investors' ownership after conversion
  and the working capital left over from the next round.

  All quantities are exact `real`s; the number of months is an integer.
  The three divisions of the formula fail when their denominator is zero,
  exactly as the source raises a division error there.
 */
module Valuation {

  /** The arguments of the calculation, as the calculation receives them
      (rates already divided by 100). */
  datatype Inputs = Inputs(
    raiseAmount: real,            // amount raised from investors
    alimit: real,                 // upper limit of the government innovation grant
    interest: real,               // annual note interest rate, as a fraction
    timeMonths: int,              // months until the next funding round
    nextRoundCapital: real,       // projected capital needs of the next round
    equityTradeNextRound: real,   // fraction of equity traded in the next round
    discountRate: real            // early-investor conversion discount, as a fraction
  )

  /** The flat result record of the calculation. */
  datatype Figures = Figures(
    govContribution: real,
    totalCapital: real,
    convertibleNoteValue: real,
    preMoneyValuation: real,
    postMoneyValuation: real,
    equityOwnershipInvestors: real,
    additionalWorkingCapital: real
  )

  /** The division whose denominator was zero, in evaluation order. */
  datatype DivisionSite =
    | PreMoneyDivision    // next-round capital / equity traded
    | DiscountDivision    // note value / (1 - discount rate)
    | OwnershipDivision   // discounted value / post-money valuation

  datatype Result<T, E> = Success(value: T) | Failure(error: E)

  /** The government matches the raise, up to its grant limit. */
  function GovContribution(raiseAmount: real, alimit: real): (r: real)
    ensures r <= raiseAmount && r <= alimit
    ensures r == raiseAmount || r == alimit
  {
    if alimit < raiseAmount then alimit else raiseAmount
  }

  /** Investor money plus the matching grant. */
  function TotalCapital(raiseAmount: real, alimit: real): (r: real)
    ensures 0.0 <= raiseAmount && 0.0 <= alimit ==>
              raiseAmount <= r <= 2.0 * raiseAmount && r <= raiseAmount + alimit
    ensures alimit >= raiseAmount ==> r == 2.0 * raiseAmount
  {
    raiseAmount + GovContribution(raiseAmount, alimit)
  }

  /** The accrual factor of simple interest over `timeMonths` months. */
  function Years(timeMonths: int): real
  {
    timeMonths as real / 12.0
  }

  /** The note's value at the next round: principal plus simple interest. */
  function ConvertibleNoteValue(raiseAmount: real, interest: real, timeMonths: int): (r: real)
    ensures interest == 0.0 || timeMonths == 0 ==> r == raiseAmount
    ensures raiseAmount == 0.0 ==> r == 0.0
    ensures 0.0 <= raiseAmount && 0.0 <= interest && 0 <= timeMonths ==> raiseAmount <= r
  {
    NonNegativeProduct(raiseAmount, interest * Years(timeMonths));
    raiseAmount * (1.0 + interest * Years(timeMonths))
  }

  /** The valuation before the next round: the capital needed, grossed up
      by the fraction of equity it buys. */
  function PreMoneyValuation(nextRoundCapital: real, equityTradeNextRound: real): (r: real)
    requires equityTradeNextRound != 0.0
    ensures r * equityTradeNextRound == nextRoundCapital
  {
    nextRoundCapital / equityTradeNextRound
  }

  /** The valuation after the next round's capital has come in. */
  function PostMoneyValuation(nextRoundCapital: real, equityTradeNextRound: real): (r: real)
    requires equityTradeNextRound != 0.0
    ensures r * equityTradeNextRound == nextRoundCapital * (1.0 + equityTradeNextRound)
    ensures 0.0 <= nextRoundCapital ==> PreMoneyValuation(nextRoundCapital, equityTradeNextRound) <= r
  {
    PreMoneyValuation(nextRoundCapital, equityTradeNextRound) + nextRoundCapital
  }

  /** The note's value once the early-investor discount is applied at conversion. */
  function DiscountedValue(noteValue: real, discountRate: real): (r: real)
    requires discountRate != 1.0
    ensures r * (1.0 - discountRate) == noteValue
    ensures discountRate == 0.0 ==> r == noteValue
  {
    noteValue / (1.0 - discountRate)
  }

  /** The investors' share of the post-money company. */
  function EquityOwnershipInvestors(discountedValue: real, postMoneyValuation: real): (r: real)
    requires postMoneyValuation != 0.0
    ensures r * postMoneyValuation == discountedValue
  {
    discountedValue / postMoneyValuation
  }

  /** What is left of the next round's capital after the note and its
      discounted conversion value are accounted for. */
  function AdditionalWorkingCapital(nextRoundCapital: real, noteValue: real, discountedValue: real): (r: real)
    ensures noteValue <= discountedValue ==> r <= nextRoundCapital - 2.0 * noteValue
    ensures r <= nextRoundCapital <==> 0.0 <= noteValue + discountedValue
  {
    nextRoundCapital - (noteValue + discountedValue)
  }

  /** The whole calculation. It fails at the first division, in evaluation
      order, whose denominator is zero; otherwise every figure of the result
      is the unique solution of the equation that defines it. */
  function CalculateValuation(inp: Inputs): (r: Result<Figures, DivisionSite>)
    ensures r == Failure(PreMoneyDivision) <==> inp.equityTradeNextRound == 0.0
    ensures r == Failure(DiscountDivision) <==>
              inp.equityTradeNextRound != 0.0 && inp.discountRate == 1.0
    ensures r == Failure(OwnershipDivision) <==>
              inp.equityTradeNextRound != 0.0 && inp.discountRate != 1.0 &&
              (inp.nextRoundCapital == 0.0 || inp.equityTradeNextRound == -1.0)
    ensures r.Success? ==>
              var v := r.value;
              var months := inp.timeMonths as real;
              && v.govContribution <= inp.raiseAmount
              && v.govContribution <= inp.alimit
              && (v.govContribution == inp.raiseAmount || v.govContribution == inp.alimit)
              && v.totalCapital == inp.raiseAmount + v.govContribution
              && 12.0 * (v.convertibleNoteValue - inp.raiseAmount) == inp.raiseAmount * inp.interest * months
              && v.preMoneyValuation * inp.equityTradeNextRound == inp.nextRoundCapital
              && v.postMoneyValuation == v.preMoneyValuation + inp.nextRoundCapital
              && v.postMoneyValuation != 0.0
              && v.equityOwnershipInvestors * v.postMoneyValuation * (1.0 - inp.discountRate)
                   == v.convertibleNoteValue
              && v.additionalWorkingCapital
                   == inp.nextRoundCapital - v.convertibleNoteValue
                      - v.equityOwnershipInvestors * v.postMoneyValuation
  {
    if inp.equityTradeNextRound == 0.0 then Failure(PreMoneyDivision)
    else
      var gov := GovContribution(inp.raiseAmount, inp.alimit);
      var total := TotalCapital(inp.raiseAmount, inp.alimit);
      var note := ConvertibleNoteValue(inp.raiseAmount, inp.interest, inp.timeMonths);
      var pre := PreMoneyValuation(inp.nextRoundCapital, inp.equityTradeNextRound);
      var post := PostMoneyValuation(inp.nextRoundCapital, inp.equityTradeNextRound);
      if inp.discountRate == 1.0 then Failure(DiscountDivision)
      else
        var discounted := DiscountedValue(note, inp.discountRate);
        PostMoneyZeroIff(inp.nextRoundCapital, inp.equityTradeNextRound);
        if post == 0.0 then Failure(OwnershipDivision)
        else
          var ownership := EquityOwnershipInvestors(discounted, post);
          NoteInterestTerm(inp.raiseAmount, inp.interest, inp.timeMonths);
          Success(Figures(gov, total, note, pre, post, ownership,
                          AdditionalWorkingCapital(inp.nextRoundCapital, note, discounted)))
  }

  /** The post-money valuation vanishes exactly when the next round raises
      nothing or the equity fraction is -1. */
  lemma PostMoneyZeroIff(nextRoundCapital: real, equityTradeNextRound: real)
    requires equityTradeNextRound != 0.0
    ensures PostMoneyValuation(nextRoundCapital, equityTradeNextRound) == 0.0 <==>
              nextRoundCapital == 0.0 || equityTradeNextRound == -1.0
  {
    if nextRoundCapital != 0.0 && equityTradeNextRound != -1.0 {
      NonZeroProduct(nextRoundCapital, 1.0 + equityTradeNextRound);
    }
  }

  /** The interest accrued on the note is the simple-interest term. */
  lemma NoteInterestTerm(raiseAmount: real, interest: real, timeMonths: int)
    ensures 12.0 * (ConvertibleNoteValue(raiseAmount, interest, timeMonths) - raiseAmount)
              == raiseAmount * interest * (timeMonths as real)
  {
  }

  lemma NonZeroProduct(x: real, y: real)
    requires x != 0.0 && y != 0.0
    ensures x * y != 0.0
  {
  }

  lemma NonNegativeProduct(x: real, y: real)
    ensures 0.0 <= x && 0.0 <= y ==> 0.0 <= x * y
  {
  }
}
