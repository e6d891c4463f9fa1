/** The rule set for contribution-growth requests
    (api/CompoundInterestCalculator.Api/Validation/ContributionGrowthRequestValidator.cs).
    Every rule runs, so the result is the set of every failing property. */
module ContributionGrowthRequestValidation {
  import opened Wrappers
  import opened Faults
  import opened Integers
  import opened CompoundingCadenceOptions
  import opened ValidationRules
  import opened InterestCalcReqs
  import CalculationRequestValidation
  import Text

  /** The request fields the rules read. */
  datatype ContributionGrowthRequestDto = ContributionGrowthRequestDto(
    Principal: real,
    AnnualRatePercent: real,
    CompoundingCadence: string,
    DurationYears: Int32,
    ClientReference: Option<string>,
    MonthlyContribution: real)

  /** The properties the rules are attached to, named as in the request. */
  datatype Property =
    Principal | AnnualRatePercent | CompoundingCadence | DurationYears | ClientReference | MonthlyContribution

  const MaxAmount: real := 1_000_000_000.0

  const AllProperties: set<Property> := {Principal, AnnualRatePercent, CompoundingCadence, DurationYears, ClientReference, MonthlyContribution}

  /** Whether the rule attached to `property` fails. */
  predicate Fails(request: ContributionGrowthRequestDto, property: Property) {
    match property
    case Principal => !InclusiveBetween(request.Principal, 0.0, MaxAmount)
    case AnnualRatePercent => !InclusiveBetween(request.AnnualRatePercent, 0.0, 100.0)
    case CompoundingCadence => !NotEmpty(request.CompoundingCadence) || !IsSupported(Some(request.CompoundingCadence))
    case DurationYears => !InclusiveBetweenInt(request.DurationYears, 0, 99)
    case ClientReference => !MaximumLength(request.ClientReference, 64)
    case MonthlyContribution => !InclusiveBetween(request.MonthlyContribution, 0.0, MaxAmount)
  }

  /** The names of the properties whose rules fail. */
  function Failures(request: ContributionGrowthRequestDto): (failed: set<Property>)
    ensures forall property :: property in failed <==> Fails(request, property)
  {
    FailingProperties(AllProperties, property => Fails(request, property))
  }

  /** What each property's rules demand. The cadence's `NotEmpty` adds
      nothing to `IsSupported`, since a blank name is never supported. */
  lemma FailingRules(request: ContributionGrowthRequestDto)
    ensures Principal in Failures(request) <==> !(0.0 <= request.Principal <= MaxAmount)
    ensures AnnualRatePercent in Failures(request) <==> !(0.0 <= request.AnnualRatePercent <= 100.0)
    ensures CompoundingCadence in Failures(request) <==> !IsSupported(Some(request.CompoundingCadence))
    ensures DurationYears in Failures(request) <==> !(0 <= request.DurationYears <= 99)
    ensures ClientReference in Failures(request) <==>
      request.ClientReference.Some? && |request.ClientReference.value| > 64
    ensures MonthlyContribution in Failures(request) <==> !(0.0 <= request.MonthlyContribution <= MaxAmount)
  {
    BlankCadenceFails(request.CompoundingCadence);
    assert Fails(request, CompoundingCadence) <==> !IsSupported(Some(request.CompoundingCadence));
  }

  /** `ToContributionDomain` on an accepted request: the domain constructor
      succeeds and keeps the request's figures, with the cadence in its table
      spelling. */
  method ToContributionDomain(request: ContributionGrowthRequestDto) returns (r: Result<InterestCalcReq, Fault>)
    requires Failures(request) == {}
    ensures r.Success?
    ensures r.value.StartingBalance == request.Principal && r.value.InterestRate == request.AnnualRatePercent
    ensures r.value.Years == request.DurationYears && r.value.MonthlyContribution == request.MonthlyContribution
    ensures Text.EqualsIgnoreCase(r.value.CompoundingCadence, request.CompoundingCadence)
  {
    assert Principal !in Failures(request) && AnnualRatePercent !in Failures(request);
    assert DurationYears !in Failures(request) && MonthlyContribution !in Failures(request);
    assert CompoundingCadence !in Failures(request);
    r := InterestCalcReq.New(request.Principal, request.AnnualRatePercent, request.DurationYears,
                             request.MonthlyContribution, request.CompoundingCadence);
  }

  /** The calculation rules are the growth rules with a ten times tighter
      principal bound: a calculation request the calculation rules accept is
      accepted here with no contribution. */
  lemma CalculationRulesAreTighter(request: CalculationRequestValidation.CalculationRequestDto)
    requires CalculationRequestValidation.Failures(request) == {}
    ensures Failures(ContributionGrowthRequestDto(request.Principal, request.AnnualRatePercent,
                                                  request.CompoundingCadence, request.DurationYears,
                                                  request.ClientReference, 0.0)) == {}
  {
    assert CalculationRequestValidation.Principal !in CalculationRequestValidation.Failures(request);
    assert CalculationRequestValidation.AnnualRatePercent !in CalculationRequestValidation.Failures(request);
    assert CalculationRequestValidation.CompoundingCadence !in CalculationRequestValidation.Failures(request);
    assert CalculationRequestValidation.DurationYears !in CalculationRequestValidation.Failures(request);
    assert CalculationRequestValidation.ClientReference !in CalculationRequestValidation.Failures(request);
  }

  /** A request is accepted exactly when every figure is in its range, the
      cadence is supported and the reference is short enough. */
  lemma AcceptedExactlyWhenInRange(request: ContributionGrowthRequestDto)
    ensures Failures(request) == {} <==>
      0.0 <= request.Principal <= MaxAmount && 0.0 <= request.AnnualRatePercent <= 100.0 &&
      IsSupported(Some(request.CompoundingCadence)) && 0 <= request.DurationYears <= 99 &&
      (request.ClientReference.Some? ==> |request.ClientReference.value| <= 64) &&
      0.0 <= request.MonthlyContribution <= MaxAmount
  {
    FailingRules(request);
  }

  /** The converse fails: a principal above the calculation bound and within
      this one is accepted here and refused, on the principal alone, by the
      calculation rules. */
  lemma LargePrincipalOnlyPassesGrowthRules(request: CalculationRequestValidation.CalculationRequestDto)
    requires CalculationRequestValidation.MaxPrincipal < request.Principal <= MaxAmount
    requires 0.0 <= request.AnnualRatePercent <= 100.0 && 0 <= request.DurationYears <= 99
    requires IsSupported(Some(request.CompoundingCadence)) && request.ClientReference.None?
    ensures Failures(ContributionGrowthRequestDto(request.Principal, request.AnnualRatePercent,
                                                  request.CompoundingCadence, request.DurationYears,
                                                  request.ClientReference, 0.0)) == {}
    ensures CalculationRequestValidation.Failures(request) == {CalculationRequestValidation.Principal}
  {
    AcceptedExactlyWhenInRange(ContributionGrowthRequestDto(request.Principal, request.AnnualRatePercent,
                                                            request.CompoundingCadence, request.DurationYears,
                                                            request.ClientReference, 0.0));
    CalculationRequestValidation.FailingRules(request);
    forall property ensures CalculationRequestValidation.Fails(request, property) <==> property == CalculationRequestValidation.Principal {
    }
  }

  /** The invalid payload of the growth endpoint's tests is reported on all
      five fields at once. */
  lemma EveryFailingFieldIsReported()
    ensures Failures(ContributionGrowthRequestDto(-1.0, 105.0, "Weekly", 150, None, -50.0))
         == {Principal, AnnualRatePercent, CompoundingCadence, DurationYears, MonthlyContribution}
  {
    PaddedIsNotSupported();
  }
}
