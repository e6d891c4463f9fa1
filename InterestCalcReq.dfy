/** The compound-interest request (CompoundCalc/Models/Requests/InterestCalcReq.cs).
    Four of its properties have public setters, so it is a class whose
    validity holds after construction and whenever `ValidateParams` passes. */
module InterestCalcReqs {
  import opened Wrappers
  import opened Faults
  import opened Integers
  import opened CompoundingCadenceOptions

  /** The single-argument `ArgumentOutOfRangeException` constructor takes the
      parameter name, so these texts end up as the parameter name. */
  const NegativeNumbersMessage := "Negative numbers are not allowed."
  const YearsRangeMessage := "The number of years needs to be between 0-100"

  /** The checks of `ValidateParams`, in source order, on plain values: the
      first failing check decides the fault. */
  function CheckParams(startingBalance: real, interestRate: real, years: int, monthlyContribution: real)
    : (o: Outcome<Fault>)
    ensures o.Pass? <==> startingBalance >= 0.0 && interestRate >= 0.0 && 0 <= years < 100 && monthlyContribution >= 0.0
    ensures startingBalance < 0.0 || interestRate < 0.0 ==> o == Fail(ArgumentOutOfRange(NegativeNumbersMessage))
    ensures startingBalance >= 0.0 && interestRate >= 0.0 && !(0 <= years < 100) ==>
      o == Fail(ArgumentOutOfRange(YearsRangeMessage))
    ensures startingBalance >= 0.0 && interestRate >= 0.0 && 0 <= years < 100 && monthlyContribution < 0.0 ==>
      o == Fail(ArgumentOutOfRange("MonthlyContribution"))
  {
    if startingBalance < 0.0 then Fail(ArgumentOutOfRange(NegativeNumbersMessage))
    else if interestRate < 0.0 then Fail(ArgumentOutOfRange(NegativeNumbersMessage))
    else if years < 0 || years >= 100 then Fail(ArgumentOutOfRange(YearsRangeMessage))
    else if monthlyContribution < 0.0 then Fail(ArgumentOutOfRange("MonthlyContribution"))
    else Pass
  }

  class InterestCalcReq {
    var StartingBalance: real
    var InterestRate: real
    var Years: Int32
    var MonthlyContribution: real
    /** Get-only: fixed at construction, already canonical. */
    const CompoundingCadence: CadenceName

    /** What `ValidateParams` accepts. */
    predicate Valid()
      reads this
    {
      CheckParams(StartingBalance, InterestRate, Years, MonthlyContribution).Pass?
    }

    /** The field assignments of the source constructor, before validation. */
    constructor Init(startingBalance: real, interestRate: real, years: Int32,
                     monthlyContribution: real, compoundingCadence: CadenceName)
      ensures StartingBalance == startingBalance && InterestRate == interestRate
      ensures Years == years && MonthlyContribution == monthlyContribution
      ensures CompoundingCadence == compoundingCadence
    {
      StartingBalance := startingBalance;
      InterestRate := interestRate;
      Years := years;
      MonthlyContribution := monthlyContribution;
      CompoundingCadence := compoundingCadence;
    }

    /** Checks the current field values in source order. The cadence check
        can never fail: the cadence was normalised on construction. */
    method ValidateParams() returns (outcome: Outcome<Fault>)
      ensures outcome == CheckParams(StartingBalance, InterestRate, Years, MonthlyContribution)
      ensures outcome.Pass? <==> Valid()
    {
      if StartingBalance < 0.0 {
        return Fail(ArgumentOutOfRange(NegativeNumbersMessage));
      }
      if InterestRate < 0.0 {
        return Fail(ArgumentOutOfRange(NegativeNumbersMessage));
      }
      if Years < 0 || Years >= 100 {
        return Fail(ArgumentOutOfRange(YearsRangeMessage));
      }
      CadenceNameResolves(CompoundingCadence);
      if !IsSupported(Some(CompoundingCadence)) {
        assert false;
      }
      if MonthlyContribution < 0.0 {
        return Fail(ArgumentOutOfRange("MonthlyContribution"));
      }
      return Pass;
    }

    /** The source constructor: the cadence is normalised first (an
        unsupported one fails there), then the fields are assigned and
        validated. On success every field equals its argument and the
        request is valid. */
    static method New(startingBalance: real, interestRate: real, years: Int32,
                      monthlyContribution: real, compoundingCadence: string := "Annual")
      returns (r: Result<InterestCalcReq, Fault>)
      ensures !IsSupported(Some(compoundingCadence)) ==> r == Failure(Argument("cadence"))
      ensures IsSupported(Some(compoundingCadence)) ==>
        var o := CheckParams(startingBalance, interestRate, years, monthlyContribution);
        (r.Success? <==> o.Pass?) && (o.Fail? ==> r == Failure(o.error))
      ensures r.Success? ==>
        fresh(r.value) && r.value.Valid()
        && r.value.StartingBalance == startingBalance && r.value.InterestRate == interestRate
        && r.value.Years == years && r.value.MonthlyContribution == monthlyContribution
        && NormalizeName(compoundingCadence) == Success(r.value.CompoundingCadence)
    {
      var cadence := NormalizeName(compoundingCadence);
      if cadence.Failure? {
        return Failure(cadence.error);
      }
      var request := new InterestCalcReq.Init(startingBalance, interestRate, years, monthlyContribution, cadence.value);
      var outcome := request.ValidateParams();
      if outcome.Fail? {
        return Failure(outcome.error);
      }
      return Success(request);
    }
  }

  /** The source has no upper bound on the balance, the rate or the
      contribution: very large values pass. */
  lemma NoUpperBounds(startingBalance: real, interestRate: real, monthlyContribution: real)
    requires startingBalance >= 0.0 && interestRate >= 0.0 && monthlyContribution >= 0.0
    ensures CheckParams(startingBalance + 1_000_000_000_000.0, interestRate + 1_000_000.0, 99,
                        monthlyContribution + 1_000_000_000_000.0) == Pass
  {
  }

  /** The request cases the source's own tests name, with no contribution. */
  lemma CheckParamsTestCases()
    ensures CheckParams(-100.0, 5.0, 5, 0.0) == Fail(ArgumentOutOfRange(NegativeNumbersMessage))
    ensures CheckParams(100.0, -5.0, 5, 0.0) == Fail(ArgumentOutOfRange(NegativeNumbersMessage))
    ensures CheckParams(100.0, 5.0, -5, 0.0) == Fail(ArgumentOutOfRange(YearsRangeMessage))
    ensures CheckParams(100.0, 5.0, 105, 0.0) == Fail(ArgumentOutOfRange(YearsRangeMessage))
    ensures CheckParams(100.0, 5.0, 99, 0.0) == Pass
  {
  }

  /** A valid request stops being valid when a setter moves its term out of
      range, and `ValidateParams` then reports the term. */
  method ReassignedYearsFailValidation() returns (before: Outcome<Fault>, after: Outcome<Fault>)
    ensures before == Pass
    ensures after == Fail(ArgumentOutOfRange(YearsRangeMessage))
  {
    var request := new InterestCalcReq.Init(100.0, 5.0, 5, 0.0, "Annual");
    before := request.ValidateParams();
    request.Years := 150;
    after := request.ValidateParams();
  }
}
