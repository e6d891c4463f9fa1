/** The rule set for debt-payoff requests
    (api/CompoundInterestCalculator.Api/Validation/DebtPayoffRequestValidator.cs).
    Every rule runs; the minimum-payment rule calls the helper, which throws
    out of validation when the rate is above 100%. */
module DebtPayoffRequestValidation {
  import opened Wrappers
  import opened Faults
  import opened Decimals
  import opened ValidationRules
  import opened DebtPayoffMath
  import Conversions
  import DebtPayoffRequests

  /** The request fields the rules read. */
  datatype DebtPayoffRequestDto = DebtPayoffRequestDto(
    TotalDebt: real,
    MonthlyPayment: real,
    MonthlyRatePercent: real,
    ClientReference: Option<string>)

  /** The properties the rules are attached to, named as in the request. */
  datatype Property = TotalDebt | MonthlyPayment | MonthlyRatePercent | ClientReference

  const MaxAmount: real := 1_000_000_000.0

  /** The `When` guard of the minimum-payment rule. */
  predicate MinimumPaymentApplies(request: DebtPayoffRequestDto) {
    request.TotalDebt > 0.0 && request.MonthlyRatePercent > 0.0
  }

  /** A month's interest on the debt, rounded to cents, plus one cent. */
  function InterestPlusCent(totalDebt: real, monthlyRatePercent: real): real {
    Round2(totalDebt * monthlyRatePercent / 100.0) + 0.01
  }

  /** The `Must` lambda of the minimum-payment rule: the payment must reach
      the helper's minimum. Its `rate <= 0` branch is dead behind the `When`
      guard. Where the rule applies, it compares the payment with a month's
      interest rounded to cents plus one cent, or lets the helper's exception
      for a rate above 100% escape. */
  function MinimumPaymentRule(totalDebt: real, monthlyPayment: real, monthlyRatePercent: real): (r: Result<bool, Fault>)
    ensures totalDebt > 0.0 && 0.0 < monthlyRatePercent <= 100.0 ==>
      r == Success(monthlyPayment >= InterestPlusCent(totalDebt, monthlyRatePercent))
    ensures totalDebt > 0.0 && monthlyRatePercent > 100.0 ==>
      r == Failure(ArgumentOutOfRange("monthlyRatePercent"))
  {
    if monthlyRatePercent <= 0.0 then Success(monthlyPayment > 0.0)
    else
      var minimum := CalculateMinimumPaymentRequired(totalDebt, monthlyRatePercent);
      if minimum.Failure? then Failure(minimum.error)
      else
        PositiveRateGivesInterestPlusCent(totalDebt, monthlyRatePercent);
        Success(monthlyPayment >= minimum.value)
  }

  /** The failing properties, or the helper's exception. A payment fails on
      its range, or when the rule applies and it is below a month's interest
      rounded to cents plus one cent. */
  function Failures(request: DebtPayoffRequestDto): (r: Result<set<Property>, Fault>)
    ensures r.Failure? <==> request.TotalDebt > 0.0 && request.MonthlyRatePercent > 100.0
    ensures r.Failure? ==> r.error == ArgumentOutOfRange("monthlyRatePercent")
    ensures r.Success? ==>
      (TotalDebt in r.value <==> !(0.0 < request.TotalDebt <= MaxAmount))
      && (MonthlyRatePercent in r.value <==> !(0.0 <= request.MonthlyRatePercent <= 100.0))
      && (ClientReference in r.value <==>
            request.ClientReference.Some? && |request.ClientReference.value| > 64)
      && (MonthlyPayment in r.value <==>
            !(0.0 < request.MonthlyPayment <= MaxAmount)
            || (MinimumPaymentApplies(request)
                && request.MonthlyPayment < InterestPlusCent(request.TotalDebt, request.MonthlyRatePercent)))
  {
    var failed :=
      Report(!(request.TotalDebt > 0.0 && request.TotalDebt <= MaxAmount), TotalDebt)
      + Report(!(request.MonthlyPayment > 0.0 && request.MonthlyPayment <= MaxAmount), MonthlyPayment)
      + Report(!InclusiveBetween(request.MonthlyRatePercent, 0.0, 100.0), MonthlyRatePercent)
      + Report(!MaximumLength(request.ClientReference, 64), ClientReference);
    if !MinimumPaymentApplies(request) then Success(failed)
    else
      match MinimumPaymentRule(request.TotalDebt, request.MonthlyPayment, request.MonthlyRatePercent)
      case Failure(e) => Failure(e)
      case Success(paysMinimum) => Success(failed + Report(!paysMinimum, MonthlyPayment))
  }

  const MessagePrefix := "Monthly payment must be at least "
  const MessageSuffix := " to reduce the balance."

  /** The minimum-payment rule's message: the minimum in en-US currency.
      The amount shown reads back as the minimum to the cent. */
  function MinimumPaymentMessage(totalDebt: real, monthlyRatePercent: real): (r: Result<string, Fault>)
    ensures r.Success? <==> CalculateMinimumPaymentRequired(totalDebt, monthlyRatePercent).Success?
    ensures r.Success? ==>
      |MessagePrefix| + |MessageSuffix| <= |r.value|
      && r.value[..|MessagePrefix|] == MessagePrefix
      && r.value[|r.value| - |MessageSuffix|..] == MessageSuffix
      && r.value[|MessagePrefix|..|r.value| - |MessageSuffix|]
         == Conversions.ConvertDecimalToCurrency(CalculateMinimumPaymentRequired(totalDebt, monthlyRatePercent).value)
      && Conversions.ParseCurrency(r.value[|MessagePrefix|..|r.value| - |MessageSuffix|])
         == Some(Cents(CalculateMinimumPaymentRequired(totalDebt, monthlyRatePercent).value))
  {
    match CalculateMinimumPaymentRequired(totalDebt, monthlyRatePercent)
    case Failure(e) => Failure(e)
    case Success(minimumPayment) =>
      Conversions.CurrencyOfCentExactAmount(minimumPayment);
      Round2Idempotent(minimumPayment);
      Framed(MessagePrefix, Conversions.ConvertDecimalToCurrency(minimumPayment), MessageSuffix);
      Success(MessagePrefix + Conversions.ConvertDecimalToCurrency(minimumPayment) + MessageSuffix)
  }

  /** The text between a prefix and a suffix is what was put there. */
  lemma Framed(prefix: string, middle: string, suffix: string)
    ensures var message := prefix + middle + suffix;
      && |prefix| + |suffix| <= |message|
      && message[..|prefix|] == prefix
      && message[|message| - |suffix|..] == suffix
      && message[|prefix|..|message| - |suffix|] == middle
  {
  }

  /** An accepted request passes the domain constructor's checks and pays at
      least the helper's minimum whenever the rate is positive. */
  lemma AcceptedRequestsSatisfyDomainRules(request: DebtPayoffRequestDto)
    requires Failures(request) == Success({})
    ensures DebtPayoffRequests.New(request.TotalDebt, request.MonthlyPayment, request.MonthlyRatePercent).Success?
    ensures request.MonthlyRatePercent > 0.0 ==>
      request.MonthlyPayment >= CalculateMinimumPaymentRequired(request.TotalDebt, request.MonthlyRatePercent).value
  {
    if request.MonthlyRatePercent > 0.0 {
      PositiveRateGivesInterestPlusCent(request.TotalDebt, request.MonthlyRatePercent);
    }
  }

  /** A payment of 5.00 on 1,000 at 1% a month is rejected on the payment
      alone, although the domain request itself would accept it. */
  lemma PaymentBelowMinimumIsRejected()
    ensures Failures(DebtPayoffRequestDto(1000.0, 5.0, 1.0, None)) == Success({MonthlyPayment})
    ensures DebtPayoffRequests.New(1000.0, 5.0, 1.0).Success?
  {
    var request := DebtPayoffRequestDto(1000.0, 5.0, 1.0, None);
    MinimumPaymentExample();
    PositiveRateGivesInterestPlusCent(1000.0, 1.0);
    var failed := Failures(request);
    assert failed.Success?;
    assert MonthlyPayment in failed.value;
    assert TotalDebt !in failed.value && MonthlyRatePercent !in failed.value && ClientReference !in failed.value;
    assert failed.value == {MonthlyPayment} by {
      forall p: Property ensures p in failed.value <==> p == MonthlyPayment {
      }
    }
  }

  /** The message for 1,000 at 1% a month names "$10.01". */
  lemma MinimumPaymentMessageExample()
    ensures MinimumPaymentMessage(1000.0, 1.0)
         == Success("Monthly payment must be at least $10.01 to reduce the balance.")
  {
    MinimumPaymentExample();
    Conversions.CurrencyOfAmountExamples();
    var message := MinimumPaymentMessage(1000.0, 1.0);
    assert message == Success(MessagePrefix + Conversions.ConvertDecimalToCurrency(10.01) + MessageSuffix);
    MessageNamingTenDollarsOne();
  }

  lemma MessageNamingTenDollarsOne()
    ensures MessagePrefix + "$10.01" + MessageSuffix
         == "Monthly payment must be at least $10.01 to reduce the balance."
  {
  }

  /** At a zero rate no minimum applies: any payment in range is accepted,
      even one below the helper's one-cent floor. */
  lemma ZeroRateHasNoMinimum(totalDebt: real, monthlyPayment: real)
    requires 0.0 < totalDebt <= MaxAmount && 0.0 < monthlyPayment <= MaxAmount
    ensures Failures(DebtPayoffRequestDto(totalDebt, monthlyPayment, 0.0, None)) == Success({})
  {
  }

  /** A rate above 100% on a positive debt does not yield a validation
      message: the helper's exception escapes the validator. */
  lemma RateAboveHundredThrows()
    ensures Failures(DebtPayoffRequestDto(1000.0, 50.0, 150.0, None)) == Failure(ArgumentOutOfRange("monthlyRatePercent"))
  {
  }
}
