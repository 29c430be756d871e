/**
  What the valuation formula promises beyond its defining equations:
  monotonicity of the note value and of the discounted conversion value,
  the bounds the discount puts on the next round's working capital, and
  the input ranges on which the calculation always succeeds or can fail.
 */
module ValuationProperties {
  import opened Valuation

  /** The ranges the input form enforces: every amount and rate at least 0,
      at least one month, and a discount of at most 100 percent. */
  predicate WidgetRange(inp: Inputs): (b: bool)
    ensures NonFailingFormRange(inp) ==> b
  {
    && 0.0 <= inp.raiseAmount
    && 0.0 <= inp.alimit
    && 0.0 <= inp.interest
    && 1 <= inp.timeMonths
    && 0.0 <= inp.nextRoundCapital
    && 0.0 <= inp.equityTradeNextRound
    && 0.0 <= inp.discountRate <= 1.0
  }

  /** The form's ranges with the three failing boundary values taken out:
      a next round that raises something, a non-zero fraction of equity
      traded, and a discount strictly below 100 percent. */
  predicate NonFailingFormRange(inp: Inputs)
  {
    && 0.0 <= inp.raiseAmount
    && 0.0 <= inp.alimit
    && 0.0 <= inp.interest
    && 1 <= inp.timeMonths
    && 0.0 < inp.nextRoundCapital
    && 0.0 < inp.equityTradeNextRound
    && 0.0 <= inp.discountRate < 1.0
  }

  lemma PositiveProduct(x: real, y: real)
    requires 0.0 < x && 0.0 < y
    ensures 0.0 < x * y
  {
  }

  /** A quotient by a positive number keeps the sign of the dividend. */
  lemma QuotientSign(x: real, y: real)
    requires 0.0 < y
    ensures 0.0 <= x ==> 0.0 <= x / y
    ensures 0.0 < x ==> 0.0 < x / y
  {
  }

  /** A higher interest rate gives a strictly more valuable note. */
  lemma NoteValueIncreasesWithInterest(raiseAmount: real, i1: real, i2: real, timeMonths: int)
    requires 0.0 < raiseAmount && 0 < timeMonths && i1 < i2
    ensures ConvertibleNoteValue(raiseAmount, i1, timeMonths)
              < ConvertibleNoteValue(raiseAmount, i2, timeMonths)
  {
  }

  /** A later next round gives a strictly more valuable note. */
  lemma NoteValueIncreasesWithTime(raiseAmount: real, interest: real, m1: int, m2: int)
    requires 0.0 < raiseAmount && 0.0 < interest && m1 < m2
    ensures ConvertibleNoteValue(raiseAmount, interest, m1)
              < ConvertibleNoteValue(raiseAmount, interest, m2)
  {
    var dy := Years(m2) - Years(m1);
    assert 0.0 < dy;
    PositiveProduct(interest, dy);
    PositiveProduct(raiseAmount, interest * dy);
    assert ConvertibleNoteValue(raiseAmount, interest, m2) - ConvertibleNoteValue(raiseAmount, interest, m1)
             == raiseAmount * (interest * dy);
  }

  /** For a discount in [0, 1) the discounted value is at least the note
      value, and equals it exactly when there is no discount or no note. */
  lemma DiscountedValueBounds(noteValue: real, discountRate: real)
    requires 0.0 <= noteValue && 0.0 <= discountRate < 1.0
    ensures noteValue <= DiscountedValue(noteValue, discountRate)
    ensures DiscountedValue(noteValue, discountRate) == noteValue <==>
              discountRate == 0.0 || noteValue == 0.0
  {
    var r := DiscountedValue(noteValue, discountRate);
    assert r * (1.0 - discountRate) == noteValue;
    assert 0.0 <= r;
    assert r - noteValue == r * discountRate;
    if discountRate != 0.0 && noteValue != 0.0 {
      PositiveProduct(r, discountRate);
    }
  }

  /** The discounted value never decreases as the discount grows towards
      100 percent, and strictly increases for a positive note. */
  lemma DiscountedValueIncreasesWithDiscount(noteValue: real, d1: real, d2: real)
    requires 0.0 <= noteValue && d1 <= d2 < 1.0
    ensures DiscountedValue(noteValue, d1) <= DiscountedValue(noteValue, d2)
    ensures 0.0 < noteValue && d1 < d2 ==>
              DiscountedValue(noteValue, d1) < DiscountedValue(noteValue, d2)
  {
    var r1 := DiscountedValue(noteValue, d1);
    var r2 := DiscountedValue(noteValue, d2);
    // r1 * (1 - d1) == r2 * (1 - d2), so r2 - r1 == r2 * (d2 - d1) / (1 - d1)
    assert r1 * (1.0 - d1) == r2 * (1.0 - d2);
    QuotientSign(noteValue, 1.0 - d2);
    assert (r2 - r1) * (1.0 - d1) == r2 * (d2 - d1);
    NonNegativeProduct(r2, d2 - d1);
    QuotientSign(r2 * (d2 - d1), 1.0 - d1);
    if 0.0 < noteValue && d1 < d2 {
      PositiveProduct(r2, d2 - d1);
    }
  }

  /** On every input the form accepts other than the three failing
      boundary values the calculation succeeds, and every figure it reports
      is non-negative, with the note worth at least what was raised and the
      post-money valuation above the pre-money one. */
  lemma SucceedsOnNonFailingFormRange(inp: Inputs)
    requires NonFailingFormRange(inp)
    ensures CalculateValuation(inp).Success?
    ensures var v := CalculateValuation(inp).value;
            && 0.0 <= v.govContribution
            && inp.raiseAmount <= v.totalCapital
            && inp.raiseAmount <= v.convertibleNoteValue
            && 0.0 < v.preMoneyValuation < v.postMoneyValuation
            && 0.0 <= v.equityOwnershipInvestors
  {
    var v := CalculateValuation(inp).value;
    QuotientSign(inp.nextRoundCapital, inp.equityTradeNextRound);
    DiscountedValueBounds(v.convertibleNoteValue, inp.discountRate);
    QuotientSign(DiscountedValue(v.convertibleNoteValue, inp.discountRate), v.postMoneyValuation);
  }

  /** The form's own ranges admit an equity fraction of 0 ... */
  lemma WidgetRangeAdmitsZeroEquity()
    ensures var inp := Inputs(350000.0, 250000.0, 0.07, 24, 2000000.0, 0.0, 0.20);
            WidgetRange(inp) && CalculateValuation(inp) == Failure(PreMoneyDivision)
  {
  }

  /** ... a discount of 100 percent ... */
  lemma WidgetRangeAdmitsFullDiscount()
    ensures var inp := Inputs(350000.0, 250000.0, 0.07, 24, 2000000.0, 0.20, 1.0);
            WidgetRange(inp) && CalculateValuation(inp) == Failure(DiscountDivision)
  {
  }

  /** ... and a next round that raises nothing, each of which makes a
      division of the formula fail. */
  lemma WidgetRangeAdmitsNoNextRound()
    ensures var inp := Inputs(350000.0, 250000.0, 0.07, 24, 0.0, 0.20, 0.20);
            WidgetRange(inp) && CalculateValuation(inp) == Failure(OwnershipDivision)
  {
  }

  /** Within the form's ranges the calculation fails exactly on those three
      kinds of input. */
  lemma WidgetRangeFailures(inp: Inputs)
    requires WidgetRange(inp)
    ensures CalculateValuation(inp).Failure? <==>
              inp.equityTradeNextRound == 0.0 || inp.discountRate == 1.0 || inp.nextRoundCapital == 0.0
  {
  }

  /** A larger discount gives the converting investors a strictly larger
      share of the company, all other inputs being equal, for every input
      the form accepts with something raised now and in the next round. */
  lemma OwnershipIncreasesWithDiscount(inp: Inputs, d2: real)
    requires WidgetRange(inp)
    requires 0.0 < inp.raiseAmount && 0.0 < inp.nextRoundCapital && 0.0 < inp.equityTradeNextRound
    requires inp.discountRate < d2 < 1.0
    ensures CalculateValuation(inp).Success?
    ensures CalculateValuation(inp.(discountRate := d2)).Success?
    ensures CalculateValuation(inp).value.equityOwnershipInvestors
              < CalculateValuation(inp.(discountRate := d2)).value.equityOwnershipInvestors
  {
    var inp2 := inp.(discountRate := d2);
    var v1, v2 := CalculateValuation(inp).value, CalculateValuation(inp2).value;
    var note := v1.convertibleNoteValue;
    assert v2.convertibleNoteValue == note && v2.postMoneyValuation == v1.postMoneyValuation;
    var post := v1.postMoneyValuation;
    QuotientSign(inp.nextRoundCapital, inp.equityTradeNextRound);
    assert 0.0 < post;
    DiscountedValueIncreasesWithDiscount(note, inp.discountRate, d2);
    var gap := v2.equityOwnershipInvestors - v1.equityOwnershipInvestors;
    assert gap * post == DiscountedValue(note, d2) - DiscountedValue(note, inp.discountRate);
  }

  /** The working capital left over from the next round is at most the
      next round's capital less twice the note value, with equality exactly
      when there is no discount or no note. */
  lemma AdditionalWorkingCapitalBound(inp: Inputs)
    requires CalculateValuation(inp).Success?
    requires 0.0 <= inp.raiseAmount && 0.0 <= inp.interest && 0 <= inp.timeMonths
    requires 0.0 <= inp.discountRate < 1.0
    ensures var v := CalculateValuation(inp).value;
            v.additionalWorkingCapital <= inp.nextRoundCapital - 2.0 * v.convertibleNoteValue
    ensures var v := CalculateValuation(inp).value;
            v.additionalWorkingCapital == inp.nextRoundCapital - 2.0 * v.convertibleNoteValue <==>
              inp.discountRate == 0.0 || v.convertibleNoteValue == 0.0
  {
    var v := CalculateValuation(inp).value;
    DiscountedValueBounds(v.convertibleNoteValue, inp.discountRate);
  }
}
