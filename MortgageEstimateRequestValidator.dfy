/** The rule set for mortgage-estimate requests
    (api/CompoundInterestCalculator.Api/Validation/MortgageEstimateRequestValidator.cs).
    Every rule runs, so the result is the set of every failing property; the
    two pair rules are written `RuleFor(x => x)` and report under the
    request itself. */
module MortgageEstimateRequestValidation {
  import opened Wrappers
  import opened Integers
  import opened ValidationRules
  import opened Text
  import opened Faults
  import opened Decimals
  import MortgageRequests

  /** The request fields the rules read. */
  datatype MortgageEstimateRequestDto = MortgageEstimateRequestDto(
    HomePrice: real,
    DownPaymentValue: real,
    DownPaymentType: string,
    AnnualRatePercent: real,
    TermYears: Int32,
    PropertyTaxType: Option<string>,
    PropertyTaxValue: Option<real>,
    PmiType: Option<string>,
    PmiValue: Option<real>,
    ClientReference: Option<string>)

  /** The properties the rules are attached to, named as in the request;
      `Request` is the empty property name of a rule on the whole request. */
  datatype Property =
    | HomePrice | DownPaymentType | DownPaymentValue | AnnualRatePercent | TermYears | ClientReference
    | PropertyTaxType | PropertyTaxValue | PmiType | PmiValue | Request

  const MaxAmount: real := 1_000_000_000.0

  /** `IsSupportedDownPaymentType`, `IsSupportedTaxType` and
      `IsSupportedPmiType`: the trimmed type is "Amount" or "Percent",
      ignoring case. */
  predicate IsSupportedType(kind: Option<string>)
    ensures IsSupportedType(kind) ==> !IsNullOrWhiteSpace(kind) && |Trim(kind.value)| in {6, 7}
  {
    TrimmedEqualsIgnoreCase(kind, "Amount") || TrimmedEqualsIgnoreCase(kind, "Percent")
  }

  /** `IsPercentDownPayment`, `IsPercentTaxType` and `IsPercentPmiType`:
      the trimmed type is "Percent", ignoring case. */
  predicate IsPercentType(kind: Option<string>)
    ensures IsPercentType(kind) ==> !IsNullOrWhiteSpace(kind) && |Trim(kind.value)| == 7
  {
    TrimmedEqualsIgnoreCase(kind, "Percent")
  }

  /** `IsTaxPairValid` and `IsPmiPairValid`: a blank or null type goes with
      a missing value, any other type with a present one. */
  predicate IsPairValid(kind: Option<string>, value: Option<real>)
    ensures IsPairValid(kind, value) <==> (value.Some? <==> kind.Some? && Trim(kind.value) != [])
  {
    IsNullOrWhiteSpace(kind) == value.None?
  }

  /** A percentage type is a supported type, seven letters once trimmed. */
  lemma PercentTypeIsSupported(kind: Option<string>)
    requires IsPercentType(kind)
    ensures IsSupportedType(kind) && !IsNullOrWhiteSpace(kind) && |Trim(kind.value)| == 7
  {
  }

  /** The down payment as an amount: a percentage of the price for a
      Percent type, the value itself otherwise. */
  function EffectiveDownPayment(request: MortgageEstimateRequestDto): (r: real)
    ensures IsPercentType(Some(request.DownPaymentType)) ==> r * 100.0 == request.HomePrice * request.DownPaymentValue
    ensures !IsPercentType(Some(request.DownPaymentType)) ==> r == request.DownPaymentValue
  {
    if IsPercentType(Some(request.DownPaymentType)) then
      PercentOfScales(request.HomePrice, request.DownPaymentValue);
      PercentOf(request.HomePrice, request.DownPaymentValue)
    else request.DownPaymentValue
  }

  const AllProperties: set<Property> :=
    {HomePrice, DownPaymentType, DownPaymentValue, AnnualRatePercent, TermYears, ClientReference,
     PropertyTaxType, PropertyTaxValue, PmiType, PmiValue, Request}

  /** Whether some rule attached to `property` fails, the rules taken in
      source order. */
  predicate Fails(request: MortgageEstimateRequestDto, property: Property) {
    match property
    case HomePrice => !InclusiveBetween(request.HomePrice, 0.01, MaxAmount)
    case DownPaymentType =>
      !NotEmpty(request.DownPaymentType) || !IsSupportedType(Some(request.DownPaymentType))
    case DownPaymentValue =>
      || !InclusiveBetween(request.DownPaymentValue, 0.0, MaxAmount)
      || (IsPercentType(Some(request.DownPaymentType)) && !InclusiveBetween(request.DownPaymentValue, 0.0, 100.0))
      || !(EffectiveDownPayment(request) <= request.HomePrice)
    case AnnualRatePercent => !InclusiveBetween(request.AnnualRatePercent, 0.0, 100.0)
    case TermYears => !InclusiveBetweenInt(request.TermYears, 1, 40)
    case ClientReference => !MaximumLength(request.ClientReference, 64)
    case PropertyTaxType => !(IsNullOrWhiteSpace(request.PropertyTaxType) || IsSupportedType(request.PropertyTaxType))
    case PropertyTaxValue =>
      || !OptionalInclusiveBetween(request.PropertyTaxValue, 0.0, MaxAmount)
      || (IsPercentType(request.PropertyTaxType) && !OptionalInclusiveBetween(request.PropertyTaxValue, 0.0, 100.0))
    case PmiType => !(IsNullOrWhiteSpace(request.PmiType) || IsSupportedType(request.PmiType))
    case PmiValue =>
      || !OptionalInclusiveBetween(request.PmiValue, 0.0, MaxAmount)
      || (IsPercentType(request.PmiType) && !OptionalInclusiveBetween(request.PmiValue, 0.0, 100.0))
    case Request =>
      !IsPairValid(request.PropertyTaxType, request.PropertyTaxValue) || !IsPairValid(request.PmiType, request.PmiValue)
  }

  /** The names of the properties with a failing rule, when no rule throws
      (see Validate). */
  function Failures(request: MortgageEstimateRequestDto): (failed: set<Property>)
    ensures forall property :: property in failed <==> Fails(request, property)
  {
    set property | property in AllProperties && Fails(request, property)
  }

  /** The down-payment comparison converts a percentage with the decimal
      product `HomePrice * (DownPaymentValue / 100m)`, which throws
      `OverflowException` when it leaves decimal's range. */
  predicate DownPaymentOverflows(request: MortgageEstimateRequestDto) {
    IsPercentType(Some(request.DownPaymentType))
    && !InRange(PercentOf(request.HomePrice, request.DownPaymentValue))
  }

  /** `amount * (percent / 100m)`, as the rules write it. */
  function PercentOf(amount: real, percent: real): real {
    amount * (percent / 100.0)
  }

  /** A hundred times `percent` percent of `amount` is `amount * percent`,
      and a percentage of at most 100 of a non-negative amount is at most
      the amount. */
  lemma PercentOfScales(amount: real, percent: real)
    ensures PercentOf(amount, percent) * 100.0 == amount * percent
    ensures 0.0 <= amount && 0.0 <= percent <= 100.0 ==> 0.0 <= PercentOf(amount, percent) <= amount
  {
    var fraction := percent / 100.0;
    assert fraction * 100.0 == percent;
    calc {
      PercentOf(amount, percent) * 100.0;
      (amount * fraction) * 100.0;
      amount * (fraction * 100.0);
      amount * percent;
    }
    if 0.0 <= amount && 0.0 <= percent <= 100.0 {
      assert 0.0 <= fraction <= 1.0;
      ProductOfNonNegatives(amount, fraction);
      ScaleAtMost(amount, fraction);
    }
  }

  /** `Validate` on the whole rule set: an exception thrown inside a `Must`
      escapes validation; otherwise the failing properties. */
  function Validate(request: MortgageEstimateRequestDto): (r: Result<set<Property>, Fault>)
    ensures r.Failure? <==> DownPaymentOverflows(request)
    ensures r.Failure? ==> r.error == Overflow
    ensures r.Success? ==> forall property :: property in r.value <==> Fails(request, property)
  {
    if DownPaymentOverflows(request) then Failure(Overflow) else Success(Failures(request))
  }

  /** The product can only overflow on a price or a down payment that its
      own range rule reports: a request whose figures are in range is never
      thrown out of validation. */
  lemma OverflowOnlyOnOutOfRangeFigures(request: MortgageEstimateRequestDto)
    requires InclusiveBetween(request.HomePrice, 0.01, MaxAmount)
    requires InclusiveBetween(request.DownPaymentValue, 0.0, MaxAmount)
    ensures Validate(request) == Success(Failures(request))
  {
    PercentOfAmountInRange(request.HomePrice, request.DownPaymentValue);
    assert !DownPaymentOverflows(request);
  }

  /** A percentage, up to the amount cap, of an amount up to the cap stays
      within decimal's range. */
  lemma PercentOfAmountInRange(amount: real, percent: real)
    requires 0.0 <= amount <= MaxAmount && 0.0 <= percent <= MaxAmount
    ensures InRange(PercentOf(amount, percent))
  {
    var fraction := percent / 100.0;
    assert 0.0 <= fraction <= 10_000_000.0;
    assert amount * fraction <= MaxAmount * 10_000_000.0 by {
      ProductOfNonNegatives(MaxAmount - amount, fraction);
      ProductOfNonNegatives(MaxAmount, 10_000_000.0 - fraction);
    }
    ProductOfNonNegatives(amount, fraction);
  }

  /** A percentage down payment on out-of-range figures throws instead of
      being reported: 10^20 percent of a 10^20 price is about 10^38. */
  lemma HugePercentDownPaymentThrows()
    ensures Validate(MortgageEstimateRequestDto(1e20, 1e20, "Percent", 6.0, 30, None, None, None, None, None))
         == Failure(Overflow)
  {
    PercentIsPercent("Percent");
  }

  /** `NotEmpty` adds nothing to the down-payment type rule, and a blank or
      null tax or PMI type is never reported: the type rules report exactly
      the types that do not trim to "Amount" or "Percent" ignoring case. */
  lemma TypeRulesReportUnsupportedTypes(request: MortgageEstimateRequestDto)
    ensures DownPaymentType in Failures(request) <==> !IsSupportedType(Some(request.DownPaymentType))
    ensures IsNullOrWhiteSpace(request.PropertyTaxType) ==> PropertyTaxType !in Failures(request)
    ensures IsNullOrWhiteSpace(request.PmiType) ==> PmiType !in Failures(request)
  {
    assert IsSupportedType(Some(request.DownPaymentType)) ==> NotEmpty(request.DownPaymentType);
    assert Fails(request, DownPaymentType) <==> !IsSupportedType(Some(request.DownPaymentType));
  }

  /** A request the rules accept can be turned into a domain mortgage
      request: with the down payment converted to an amount and the charge
      values passed on, the domain constructor succeeds. */
  lemma AcceptedRequestsSatisfyDomainRules(request: MortgageEstimateRequestDto)
    requires Failures(request) == {}
    ensures MortgageRequests.New(request.HomePrice, EffectiveDownPayment(request), request.AnnualRatePercent,
                                 request.TermYears, request.PropertyTaxValue, request.PmiValue).Success?
  {
    Passes(request, HomePrice);
    Passes(request, DownPaymentValue);
    Passes(request, AnnualRatePercent);
    Passes(request, TermYears);
    Passes(request, PropertyTaxValue);
    Passes(request, PmiValue);
    PassingValuesSatisfyDomainRules(request);
  }

  lemma PassingValuesSatisfyDomainRules(request: MortgageEstimateRequestDto)
    requires !Fails(request, HomePrice) && !Fails(request, DownPaymentValue)
    requires !Fails(request, AnnualRatePercent) && !Fails(request, TermYears)
    requires !Fails(request, PropertyTaxValue) && !Fails(request, PmiValue)
    ensures MortgageRequests.New(request.HomePrice, EffectiveDownPayment(request), request.AnnualRatePercent,
                                 request.TermYears, request.PropertyTaxValue, request.PmiValue).Success?
  {
    DownPaymentRulesBound(request);
    ChargeRulesBound(request);
    DomainRulesHold(request.HomePrice, EffectiveDownPayment(request), request.AnnualRatePercent,
                    request.TermYears, request.PropertyTaxValue, request.PmiValue);
  }

  /** The price and down-payment rules put the converted down payment
      between zero and the price. */
  lemma DownPaymentRulesBound(request: MortgageEstimateRequestDto)
    requires !Fails(request, HomePrice) && !Fails(request, DownPaymentValue)
    ensures request.HomePrice > 0.0 && 0.0 <= EffectiveDownPayment(request) <= request.HomePrice
  {
    EffectiveDownPaymentIsNotNegative(request);
  }

  /** The rate, term and charge rules bound those fields. */
  lemma ChargeRulesBound(request: MortgageEstimateRequestDto)
    requires !Fails(request, AnnualRatePercent) && !Fails(request, TermYears)
    requires !Fails(request, PropertyTaxValue) && !Fails(request, PmiValue)
    ensures 0.0 <= request.AnnualRatePercent <= 100.0 && 1 <= request.TermYears <= 40
    ensures OptionalInclusiveBetween(request.PropertyTaxValue, 0.0, MaxAmount)
    ensures OptionalInclusiveBetween(request.PmiValue, 0.0, MaxAmount)
  {
  }

  lemma EffectiveDownPaymentIsNotNegative(request: MortgageEstimateRequestDto)
    requires request.HomePrice >= 0.0 && request.DownPaymentValue >= 0.0
    ensures EffectiveDownPayment(request) >= 0.0
  {
    if IsPercentType(Some(request.DownPaymentType)) {
      ProductOfNonNegatives(request.HomePrice, request.DownPaymentValue / 100.0);
    }
  }

  lemma DomainRulesHold(homePrice: real, downPayment: real, annualRatePercent: real, termYears: Int32,
                        annualPropertyTax: Option<real>, annualPmi: Option<real>)
    requires homePrice > 0.0 && 0.0 <= downPayment <= homePrice && 0.0 <= annualRatePercent <= 100.0
    requires 1 <= termYears <= 40
    requires OptionalInclusiveBetween(annualPropertyTax, 0.0, MaxAmount)
    requires OptionalInclusiveBetween(annualPmi, 0.0, MaxAmount)
    ensures MortgageRequests.New(homePrice, downPayment, annualRatePercent, termYears, annualPropertyTax, annualPmi)
              .Success?
  {
  }

  /** A property missing from an empty failure set has no failing rule. */
  lemma Passes(request: MortgageEstimateRequestDto, property: Property)
    requires Failures(request) == {}
    ensures !Fails(request, property)
  {
    assert property !in Failures(request);
  }

  /** The figure rules pass and so do the charge type and value rules:
      what fails is the pair rule, or nothing. */
  lemma OnlyPairRuleCanFail(request: MortgageEstimateRequestDto)
    requires !Fails(request, HomePrice) && !Fails(request, DownPaymentType) && !Fails(request, DownPaymentValue)
    requires !Fails(request, AnnualRatePercent) && !Fails(request, TermYears) && !Fails(request, ClientReference)
    requires !Fails(request, PropertyTaxType) && !Fails(request, PropertyTaxValue)
    requires !Fails(request, PmiType) && !Fails(request, PmiValue)
    ensures Failures(request) == if Fails(request, Request) then {Request} else {}
  {
    forall property ensures property in Failures(request) <==> property == Request && Fails(request, Request) {
      match property
      case HomePrice =>
      case DownPaymentType =>
      case DownPaymentValue =>
      case AnnualRatePercent =>
      case TermYears =>
      case ClientReference =>
      case PropertyTaxType =>
      case PropertyTaxValue =>
      case PmiType =>
      case PmiValue =>
      case Request =>
    }
  }

  /** Both requirements of the domain constructor that the rules state
      differently: a percentage down payment is converted before it is
      compared with the price, and a down payment of 250,000 on a
      200,000 home is rejected on the down payment alone. */
  lemma DownPaymentAbovePriceIsRejected()
    ensures Failures(MortgageEstimateRequestDto(200000.0, 250000.0, "Amount", 6.0, 30, None, None, None, None, None))
         == {DownPaymentValue}
  {
    var request := MortgageEstimateRequestDto(200000.0, 250000.0, "Amount", 6.0, 30, None, None, None, None, None);
    AmountIsSupported("Amount");
    BlankChargeTypesPass(request);
    assert Fails(request, DownPaymentValue);
    assert !Fails(request, HomePrice) && !Fails(request, DownPaymentType) && !Fails(request, AnnualRatePercent);
    assert !Fails(request, TermYears) && !Fails(request, ClientReference);
    forall property ensures property in Failures(request) <==> property == DownPaymentValue {
    }
  }

  /** A percentage of at most 100 never puts the down payment above the
      price, so a percentage down payment with in-range figures and no
      charges passes every rule. */
  lemma PercentDownPaymentIsAccepted(request: MortgageEstimateRequestDto)
    requires IsPercentType(Some(request.DownPaymentType))
    requires 0.01 <= request.HomePrice <= MaxAmount && 0.0 <= request.DownPaymentValue <= 100.0
    requires 0.0 <= request.AnnualRatePercent <= 100.0 && 1 <= request.TermYears <= 40
    requires request.PropertyTaxType.None? && request.PropertyTaxValue.None?
    requires request.PmiType.None? && request.PmiValue.None? && request.ClientReference.None?
    ensures EffectiveDownPayment(request) <= request.HomePrice
    ensures Failures(request) == {}
  {
    PercentDownPaymentPasses(request);
    BlankChargeTypesPass(request);
    OnlyPairRuleCanFail(request);
  }

  /** The figure rules of such a request pass. */
  lemma PercentDownPaymentPasses(request: MortgageEstimateRequestDto)
    requires IsPercentType(Some(request.DownPaymentType))
    requires 0.01 <= request.HomePrice <= MaxAmount && 0.0 <= request.DownPaymentValue <= 100.0
    requires 0.0 <= request.AnnualRatePercent <= 100.0 && 1 <= request.TermYears <= 40
    requires request.ClientReference.None?
    ensures EffectiveDownPayment(request) <= request.HomePrice
    ensures !Fails(request, HomePrice) && !Fails(request, DownPaymentType) && !Fails(request, DownPaymentValue)
    ensures !Fails(request, AnnualRatePercent) && !Fails(request, TermYears) && !Fails(request, ClientReference)
  {
    PercentTypeIsSupported(Some(request.DownPaymentType));
    PercentOfScales(request.HomePrice, request.DownPaymentValue);
  }

  /** The type is trimmed and compared ignoring case: " percent " is a
      percentage, so 20 on a 300,000 home is a 60,000 down payment and the
      request is accepted. */
  lemma PaddedLowerCasePercentIsAccepted()
    ensures EffectiveDownPayment(MortgageEstimateRequestDto(300000.0, 20.0, " percent ", 6.0, 30,
                                                            None, None, None, None, None)) == 60000.0
    ensures Failures(MortgageEstimateRequestDto(300000.0, 20.0, " percent ", 6.0, 30, None, None, None, None, None))
         == {}
  {
    PaddedPercentIsPercent();
    PercentDownPaymentIsAccepted(
      MortgageEstimateRequestDto(300000.0, 20.0, " percent ", 6.0, 30, None, None, None, None, None));
  }

  /** The pair rules: a type without a value is reported under the request,
      and under the request only. */
  lemma TaxTypeWithoutValueIsReported()
    ensures Failures(MortgageEstimateRequestDto(300000.0, 60000.0, "Amount", 6.0, 30,
                                                Some("Amount"), None, None, None, None)) == {Request}
  {
    var request := MortgageEstimateRequestDto(300000.0, 60000.0, "Amount", 6.0, 30, Some("Amount"), None, None, None, None);
    AmountFiguresPass(request);
    AmountTaxWithoutValue(request);
    OnlyPairRuleCanFail(request);
  }

  /** An "Amount" tax type without a value, and no PMI: only the tax pair
      rule fails. */
  lemma AmountTaxWithoutValue(request: MortgageEstimateRequestDto)
    requires request.PropertyTaxType == Some("Amount") && request.PropertyTaxValue.None?
    requires request.PmiType.None? && request.PmiValue.None?
    ensures !Fails(request, PropertyTaxType) && !Fails(request, PropertyTaxValue)
    ensures !Fails(request, PmiType) && !Fails(request, PmiValue) && Fails(request, Request)
  {
    AmountIsSupported(request.PropertyTaxType.value);
  }

  /** A value without a type is reported under the request only. */
  lemma PmiValueWithoutTypeIsReported()
    ensures Failures(MortgageEstimateRequestDto(300000.0, 60000.0, "Amount", 6.0, 30,
                                                None, None, None, Some(100.0), None)) == {Request}
  {
    var request := MortgageEstimateRequestDto(300000.0, 60000.0, "Amount", 6.0, 30, None, None, None, Some(100.0), None);
    AmountFiguresPass(request);
    UntypedPmiValue(request);
    OnlyPairRuleCanFail(request);
  }

  /** No tax, and a PMI value in range without a type: only the PMI pair
      rule fails. */
  lemma UntypedPmiValue(request: MortgageEstimateRequestDto)
    requires request.PropertyTaxType.None? && request.PropertyTaxValue.None?
    requires request.PmiType.None? && request.PmiValue.Some? && 0.0 <= request.PmiValue.value <= MaxAmount
    ensures !Fails(request, PropertyTaxType) && !Fails(request, PropertyTaxValue)
    ensures !Fails(request, PmiType) && !Fails(request, PmiValue) && Fails(request, Request)
  {
  }

  /** A blank type without a value is fine. */
  lemma BlankTypesWithoutValuesPass()
    ensures Failures(MortgageEstimateRequestDto(300000.0, 60000.0, "Amount", 6.0, 30,
                                                Some("  "), None, Some(""), None, None)) == {}
  {
    var request := MortgageEstimateRequestDto(300000.0, 60000.0, "Amount", 6.0, 30, Some("  "), None, Some(""), None, None);
    AmountFiguresPass(request);
    BlankChargeTypesPass(request);
    OnlyPairRuleCanFail(request);
  }

  /** Blank tax and PMI types without values pass the type, value and pair
      rules. */
  lemma BlankChargeTypesPass(request: MortgageEstimateRequestDto)
    requires IsNullOrWhiteSpace(request.PropertyTaxType) && request.PropertyTaxValue.None?
    requires IsNullOrWhiteSpace(request.PmiType) && request.PmiValue.None?
    ensures !Fails(request, PropertyTaxType) && !Fails(request, PropertyTaxValue)
    ensures !Fails(request, PmiType) && !Fails(request, PmiValue) && !Fails(request, Request)
  {
    assert !IsSupportedType(request.PropertyTaxType) && !IsPercentType(request.PropertyTaxType);
    assert !IsSupportedType(request.PmiType) && !IsPercentType(request.PmiType);
  }

  /** A 60,000 "Amount" down payment on a 300,000 home at 6% over 30
      years passes the rules on the figures and the reference. */
  lemma AmountFiguresPass(request: MortgageEstimateRequestDto)
    requires request.HomePrice == 300000.0 && request.DownPaymentValue == 60000.0
    requires request.DownPaymentType == "Amount" && request.ClientReference.None?
    requires request.AnnualRatePercent == 6.0 && request.TermYears == 30
    ensures !Fails(request, HomePrice) && !Fails(request, DownPaymentType) && !Fails(request, DownPaymentValue)
    ensures !Fails(request, AnnualRatePercent) && !Fails(request, TermYears) && !Fails(request, ClientReference)
  {
    AmountIsSupported("Amount");
  }

  /** "Amount" is a supported type and not a percentage. */
  lemma AmountIsSupported(kind: string)
    requires kind == "Amount"
    ensures IsSupportedType(Some(kind)) && !IsPercentType(Some(kind))
  {
    UnpaddedType(kind, "Amount");
    UnpaddedType(kind, "Percent");
    EqualsIgnoreCaseIsEquivalence(kind, kind, kind);
  }

  /** "Percent" is a percentage type. */
  lemma PercentIsPercent(kind: string)
    requires kind == "Percent"
    ensures IsPercentType(Some(kind))
  {
    UnpaddedType(kind, "Percent");
    EqualsIgnoreCaseIsEquivalence(kind, kind, kind);
  }

  /** A type that neither starts nor ends with white space is compared as
      it is. */
  lemma UnpaddedType(kind: string, target: string)
    requires kind != [] && !IsWhiteSpace(kind[0]) && !IsWhiteSpace(kind[|kind| - 1])
    ensures TrimmedEqualsIgnoreCase(Some(kind), target) <==> EqualsIgnoreCase(kind, target)
  {
    TrimOfUnpadded(kind);
  }

  lemma PaddedPercentIsPercent()
    ensures IsPercentType(Some(" percent "))
  {
    PaddedPercentTrims();
    LowerCasePercentMatches();
  }

  lemma PaddedPercentTrims()
    ensures Trim(" percent ") == "percent"
  {
    var lower := "percent";
    assert " percent " == [' '] + lower + [' '];
    TrimOfSpacePadded(lower);
  }

  lemma LowerCasePercentMatches()
    ensures EqualsIgnoreCase("percent", "Percent")
  {
    var lower, upper := "percent", "Percent";
    assert lower[1..] == upper[1..];
    EqualsIgnoreCaseIsEquivalence(lower[1..], lower[1..], lower[1..]);
    assert FoldCase(lower[0]) == FoldCase(upper[0]);
  }

  lemma ScaleAtMost(a: real, f: real)
    requires a >= 0.0 && 0.0 <= f <= 1.0
    ensures a * f <= a
  {
  }

  lemma ProductOfNonNegatives(a: real, b: real)
    requires a >= 0.0 && b >= 0.0
    ensures a * b >= 0.0
  {
  }
}
