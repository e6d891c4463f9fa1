/** The minimum monthly payment rule (CompoundCalc/Helpers/DebtPayoffMath.cs). */
module DebtPayoffMath {
  import opened Wrappers
  import opened Faults
  import opened Decimals
  import Conversions

  /** One month's interest on `balance`, rounded half-to-even to cents. */
  function FirstMonthInterest(balance: real, monthlyRate: real): (r: real)
    requires balance > 0.0 && monthlyRate > 0.0
    ensures r >= 0.0 && IsCents(r) && IsCents(r + 0.01)
    ensures -0.005 <= r - balance * monthlyRate <= 0.005
  {
    var interest := Round2(balance * monthlyRate);
    Round2Idempotent(0.0);
    Round2Monotone(0.0, balance * monthlyRate);
    CentsOfInt(1);
    CentsAdd(interest, 0.01);
    interest
  }

  lemma FirstMonthInterestIsRounded(balance: real, monthlyRate: real)
    requires balance > 0.0 && monthlyRate > 0.0
    ensures FirstMonthInterest(balance, monthlyRate) == Round2(balance * monthlyRate)
  {
  }

  /** One month's interest rounded half-to-even to cents, plus one cent; a
      fixed 0.01 when the rate is zero. The debt is checked before the rate. */
  function CalculateMinimumPaymentRequired(totalDebt: real, monthlyRatePercent: real): (r: Result<real, Fault>)
    ensures totalDebt <= 0.0 ==> r == Failure(ArgumentOutOfRange("totalDebt"))
    ensures totalDebt > 0.0 && (monthlyRatePercent < 0.0 || monthlyRatePercent > 100.0) ==>
      r == Failure(ArgumentOutOfRange("monthlyRatePercent"))
    ensures r.Success? <==> totalDebt > 0.0 && 0.0 <= monthlyRatePercent <= 100.0
    ensures r.Success? ==> r.value >= 0.01 && IsCents(r.value)
  {
    if totalDebt <= 0.0 then Failure(ArgumentOutOfRange("totalDebt"))
    else if monthlyRatePercent < 0.0 || monthlyRatePercent > 100.0 then Failure(ArgumentOutOfRange("monthlyRatePercent"))
    else
      var monthlyRate := Conversions.ConvertPercentageToDecimal(monthlyRatePercent);
      if monthlyRate <= 0.0 then Success(0.01)
      else Success(FirstMonthInterest(totalDebt, monthlyRate) + 0.01)
  }

  /** A rate of exactly zero gives the one-cent floor. */
  lemma ZeroRateGivesOneCent(totalDebt: real)
    requires totalDebt > 0.0
    ensures CalculateMinimumPaymentRequired(totalDebt, 0.0) == Success(0.01)
  {
  }

  /** A positive rate gives the rounded first month's interest plus a cent. */
  lemma PositiveRateGivesInterestPlusCent(totalDebt: real, monthlyRatePercent: real)
    requires totalDebt > 0.0 && 0.0 < monthlyRatePercent <= 100.0
    ensures CalculateMinimumPaymentRequired(totalDebt, monthlyRatePercent)
         == Success(Round2(totalDebt * monthlyRatePercent / 100.0) + 0.01)
  {
    var monthlyRate := Conversions.ConvertPercentageToDecimal(monthlyRatePercent);
    assert monthlyRate == monthlyRatePercent / 100.0 && monthlyRate > 0.0;
    assert CalculateMinimumPaymentRequired(totalDebt, monthlyRatePercent)
        == Success(FirstMonthInterest(totalDebt, monthlyRate) + 0.01);
    FirstMonthInterestIsRounded(totalDebt, monthlyRate);
    var interest, sameInterest := totalDebt * monthlyRate, totalDebt * monthlyRatePercent / 100.0;
    assert interest == sameInterest;
    assert Round2(interest) == Round2(sameInterest);
  }

  /** Paying the minimum more than covers a month's interest, so the balance
      goes down: the minimum exceeds the unrounded interest by at least half
      a cent. */
  lemma MinimumExceedsMonthlyInterest(totalDebt: real, monthlyRatePercent: real)
    requires CalculateMinimumPaymentRequired(totalDebt, monthlyRatePercent).Success?
    ensures CalculateMinimumPaymentRequired(totalDebt, monthlyRatePercent).value
         >= totalDebt * monthlyRatePercent / 100.0 + 0.005
  {
    if monthlyRatePercent > 0.0 {
      PositiveRateGivesInterestPlusCent(totalDebt, monthlyRatePercent);
    }
  }

  /** A debt of 1000 at 1% a month needs at least 10.01. */
  lemma MinimumPaymentExample()
    ensures CalculateMinimumPaymentRequired(1000.0, 1.0) == Success(10.01)
  {
    PositiveRateGivesInterestPlusCent(1000.0, 1.0);
    Round2Idempotent(10.0);
  }
}
