/** The rule set for compound-interest requests
    (api/CompoundInterestCalculator.Api/Validation/CalculationRequestValidator.cs).
    Every rule runs, so the result is the set of every failing property. */
module CalculationRequestValidation {
  import opened Wrappers
  import opened Integers
  import opened CompoundingCadenceOptions
  import opened ValidationRules
  import InterestCalcReqs
  import opened Faults
  import CalculationService

  /** The request fields the rules read. */
  datatype CalculationRequestDto = CalculationRequestDto(
    Principal: real,
    AnnualRatePercent: real,
    CompoundingCadence: string,
    DurationYears: Int32,
    ClientReference: Option<string>)

  /** The properties the rules are attached to, named as in the request. */
  datatype Property = Principal | AnnualRatePercent | CompoundingCadence | DurationYears | ClientReference

  const MaxPrincipal: real := 10_000_000.0

  const AllProperties: set<Property> := {Principal, AnnualRatePercent, CompoundingCadence, DurationYears, ClientReference}

  /** Whether the rule attached to `property` fails. */
  predicate Fails(request: CalculationRequestDto, property: Property) {
    match property
    case Principal => !InclusiveBetween(request.Principal, 0.0, MaxPrincipal)
    case AnnualRatePercent => !InclusiveBetween(request.AnnualRatePercent, 0.0, 100.0)
    case CompoundingCadence => !NotEmpty(request.CompoundingCadence) || !IsSupported(Some(request.CompoundingCadence))
    case DurationYears => !InclusiveBetweenInt(request.DurationYears, 0, 99)
    case ClientReference => !MaximumLength(request.ClientReference, 64)
  }

  /** The names of the properties whose rules fail. */
  function Failures(request: CalculationRequestDto): (failed: set<Property>)
    ensures forall property :: property in failed <==> Fails(request, property)
  {
    FailingProperties(AllProperties, property => Fails(request, property))
  }

  /** What each property's rules demand. The cadence's `NotEmpty` adds
      nothing to `IsSupported`, since a blank name is never supported. */
  lemma FailingRules(request: CalculationRequestDto)
    ensures Principal in Failures(request) <==> !(0.0 <= request.Principal <= MaxPrincipal)
    ensures AnnualRatePercent in Failures(request) <==> !(0.0 <= request.AnnualRatePercent <= 100.0)
    ensures CompoundingCadence in Failures(request) <==> !IsSupported(Some(request.CompoundingCadence))
    ensures DurationYears in Failures(request) <==> !(0 <= request.DurationYears <= 99)
    ensures ClientReference in Failures(request) <==>
      request.ClientReference.Some? && |request.ClientReference.value| > 64
  {
    BlankCadenceFails(request.CompoundingCadence);
    assert Fails(request, CompoundingCadence) <==> !IsSupported(Some(request.CompoundingCadence));
  }

  /** An accepted request passes every check of the domain request with no
      monthly contribution, and its cadence normalises: the domain
      constructor cannot throw on it. */
  lemma AcceptedRequestsSatisfyDomainRules(request: CalculationRequestDto)
    requires Failures(request) == {}
    ensures InterestCalcReqs.CheckParams(request.Principal, request.AnnualRatePercent,
                                         request.DurationYears, 0.0) == Pass
    ensures NormalizeName(request.CompoundingCadence).Success?
  {
    assert Principal !in Failures(request);
    assert AnnualRatePercent !in Failures(request);
    assert DurationYears !in Failures(request);
    assert CompoundingCadence !in Failures(request);
  }

  /** A payload wrong in every numeric field and in its cadence is reported
      on all four at once. */
  lemma EveryFailingFieldIsReported()
    ensures Failures(CalculationRequestDto(-1.0, 105.0, "Weekly", 150, None))
         == {Principal, AnnualRatePercent, CompoundingCadence, DurationYears}
  {
    PaddedIsNotSupported();
  }

  /** The rules bound each field but not the balance the engine reaches:
      10,000,000 at 100% compounded annually for 73 to 99 years is accepted,
      yet the engine's decimal loop throws `OverflowException` on it. */
  lemma AcceptedRequestCanOverflow(request: CalculationRequestDto)
    requires request.Principal == MaxPrincipal && request.AnnualRatePercent == 100.0
    requires 73 <= request.DurationYears <= 99 && request.ClientReference.None?
    requires GetPeriodsPerYear(request.CompoundingCadence) == Success(1)
    ensures Failures(request) == {}
    ensures CalculationService.CheckedEndingBalance(request.Principal, request.AnnualRatePercent,
                                                    request.DurationYears, 1) == Failure(Overflow)
  {
    FailingRules(request);
    CalculationService.DoublingPastDecimalRange(request.Principal, request.DurationYears);
  }
}
