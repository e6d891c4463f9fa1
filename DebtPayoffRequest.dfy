/** The debt-payoff request (CompoundCalc/Models/Requests/DebtPayoffRequest.cs):
    get-only fields checked once, in the constructor. */
module DebtPayoffRequests {
  import opened Wrappers
  import opened Faults
  import DebtPayoffMath

  datatype DebtPayoffRequest = DebtPayoffRequest(
    TotalDebt: real,
    MonthlyPayment: real,
    MonthlyRatePercent: real)
  {
    /** The invariant the constructor establishes. */
    predicate Valid() {
      TotalDebt > 0.0 && MonthlyPayment > 0.0 && 0.0 <= MonthlyRatePercent <= 100.0
    }
  }

  /** The constructor followed by `Validate`: debt, then payment, then rate;
      the first failing check decides the fault. */
  function New(totalDebt: real, monthlyPayment: real, monthlyRatePercent: real)
    : (r: Result<DebtPayoffRequest, Fault>)
    ensures r.Success? <==> totalDebt > 0.0 && monthlyPayment > 0.0 && 0.0 <= monthlyRatePercent <= 100.0
    ensures totalDebt <= 0.0 ==> r == Failure(ArgumentOutOfRange("TotalDebt"))
    ensures totalDebt > 0.0 && monthlyPayment <= 0.0 ==> r == Failure(ArgumentOutOfRange("MonthlyPayment"))
    ensures totalDebt > 0.0 && monthlyPayment > 0.0 && !(0.0 <= monthlyRatePercent <= 100.0) ==>
      r == Failure(ArgumentOutOfRange("MonthlyRatePercent"))
    ensures r.Success? ==>
      r.value.Valid() && r.value == DebtPayoffRequest(totalDebt, monthlyPayment, monthlyRatePercent)
  {
    if totalDebt <= 0.0 then Failure(ArgumentOutOfRange("TotalDebt"))
    else if monthlyPayment <= 0.0 then Failure(ArgumentOutOfRange("MonthlyPayment"))
    else if monthlyRatePercent < 0.0 || monthlyRatePercent > 100.0 then
      Failure(ArgumentOutOfRange("MonthlyRatePercent"))
    else Success(DebtPayoffRequest(totalDebt, monthlyPayment, monthlyRatePercent))
  }

  /** The request accepts exactly the inputs the minimum-payment helper
      accepts, apart from its own positive-payment rule. */
  lemma AcceptedRequestsHaveAMinimumPayment(totalDebt: real, monthlyPayment: real, monthlyRatePercent: real)
    requires New(totalDebt, monthlyPayment, monthlyRatePercent).Success?
    ensures DebtPayoffMath.CalculateMinimumPaymentRequired(totalDebt, monthlyRatePercent).Success?
  {
  }

  /** The request never compares the payment with the minimum payment: a
      payment of 5.00 on 1,000 at 1% a month is accepted although the
      minimum is 10.01. */
  lemma PaymentBelowMinimumIsAccepted()
    ensures New(1000.0, 5.0, 1.0).Success?
    ensures DebtPayoffMath.CalculateMinimumPaymentRequired(1000.0, 1.0) == Success(10.01)
  {
    DebtPayoffMath.MinimumPaymentExample();
  }
}
