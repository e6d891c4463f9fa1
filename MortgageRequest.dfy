/** The mortgage request (CompoundCalc/Models/Requests/MortgageRequest.cs):
    get-only fields, two of them nullable, checked once in the constructor. */
module MortgageRequests {
  import opened Wrappers
  import opened Faults
  import opened Integers

  datatype MortgageRequest = MortgageRequest(
    HomePrice: real,
    DownPayment: real,
    AnnualRatePercent: real,
    TermYears: Int32,
    AnnualPropertyTax: Option<real>,
    AnnualPmi: Option<real>)
  {
    /** The invariant the constructor establishes. */
    predicate Valid() {
      HomePrice > 0.0 && 0.0 <= DownPayment <= HomePrice
      && 0.0 <= AnnualRatePercent <= 100.0 && 1 <= TermYears <= 40
      && NotNegative(AnnualPropertyTax) && NotNegative(AnnualPmi)
    }
  }

  /** `value is < 0m` fails only for a present negative value: null passes. */
  predicate NotNegative(value: Option<real>) {
    value.None? || value.value >= 0.0
  }

  /** The constructor followed by `Validate`, checks in source order: price,
      down payment (negative, then above the price), rate, term, property
      tax, PMI. */
  function New(homePrice: real, downPayment: real, annualRatePercent: real, termYears: Int32,
               annualPropertyTax: Option<real>, annualPmi: Option<real>)
    : (r: Result<MortgageRequest, Fault>)
    ensures r.Success? <==>
      homePrice > 0.0 && 0.0 <= downPayment <= homePrice && 0.0 <= annualRatePercent <= 100.0
      && 1 <= termYears <= 40 && NotNegative(annualPropertyTax) && NotNegative(annualPmi)
    ensures homePrice <= 0.0 ==> r == Failure(ArgumentOutOfRange("HomePrice"))
    ensures homePrice > 0.0 && !(0.0 <= downPayment <= homePrice) ==>
      r == Failure(ArgumentOutOfRange("DownPayment"))
    ensures homePrice > 0.0 && 0.0 <= downPayment <= homePrice && !(0.0 <= annualRatePercent <= 100.0) ==>
      r == Failure(ArgumentOutOfRange("AnnualRatePercent"))
    ensures homePrice > 0.0 && 0.0 <= downPayment <= homePrice && 0.0 <= annualRatePercent <= 100.0
            && !(1 <= termYears <= 40) ==>
      r == Failure(ArgumentOutOfRange("TermYears"))
    ensures homePrice > 0.0 && 0.0 <= downPayment <= homePrice && 0.0 <= annualRatePercent <= 100.0
            && 1 <= termYears <= 40 && !NotNegative(annualPropertyTax) ==>
      r == Failure(ArgumentOutOfRange("AnnualPropertyTax"))
    ensures homePrice > 0.0 && 0.0 <= downPayment <= homePrice && 0.0 <= annualRatePercent <= 100.0
            && 1 <= termYears <= 40 && NotNegative(annualPropertyTax) && !NotNegative(annualPmi) ==>
      r == Failure(ArgumentOutOfRange("AnnualPmi"))
    ensures r.Success? ==>
      r.value.Valid()
      && r.value == MortgageRequest(homePrice, downPayment, annualRatePercent, termYears, annualPropertyTax, annualPmi)
  {
    if homePrice <= 0.0 then Failure(ArgumentOutOfRange("HomePrice"))
    else if downPayment < 0.0 then Failure(ArgumentOutOfRange("DownPayment"))
    else if downPayment > homePrice then Failure(ArgumentOutOfRange("DownPayment"))
    else if annualRatePercent < 0.0 || annualRatePercent > 100.0 then Failure(ArgumentOutOfRange("AnnualRatePercent"))
    else if termYears < 1 || termYears > 40 then Failure(ArgumentOutOfRange("TermYears"))
    else if annualPropertyTax.Some? && annualPropertyTax.value < 0.0 then
      Failure(ArgumentOutOfRange("AnnualPropertyTax"))
    else if annualPmi.Some? && annualPmi.value < 0.0 then Failure(ArgumentOutOfRange("AnnualPmi"))
    else Success(MortgageRequest(homePrice, downPayment, annualRatePercent, termYears, annualPropertyTax, annualPmi))
  }

  /** Absent tax and PMI are accepted; a down payment above the price is
      not, whatever else the request says. */
  lemma MortgageRequestCases()
    ensures New(375000.0, 75000.0, 6.0, 30, None, None).Success?
    ensures New(200000.0, 250000.0, 6.0, 30, None, None) == Failure(ArgumentOutOfRange("DownPayment"))
    ensures New(200000.0, 0.0, 6.0, 30, Some(-1.0), Some(-1.0)) == Failure(ArgumentOutOfRange("AnnualPropertyTax"))
  {
  }
}
