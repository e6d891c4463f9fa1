# CompoundCalc in Dafny

A Dafny model of the calculation core of CompoundInterestCalculator. The
model covers:

- **The compound-interest engine:** a period loop that adds a period's
  interest to the balance `years × periodsPerYear` times.
- **The compounding-cadence table** and its case-insensitive lookups.
- **Helpers:** percent-to-fraction conversion, en-US currency formatting and
  the minimum monthly payment rule.
- **Result factories:** the three records round their money fields half-to-even
  to cents and build each display string from the rounded value.
- **Domain requests:** the four request classes check their arguments in the
  constructor and fail on the first bad one.
- **API validators:** the four FluentValidation rule sets report every failing
  property at once.
- **`InputCheck`:** the two digits-only input checks.

Modelling choices:

- **Money and rates** are exact `real`s. `Math.Round(x, 2,
  MidpointRounding.ToEven)` is `Decimals.Round2`. C#'s 32-bit `int` is
  `Integers.Int32`, with unchecked wrap-around written out as
  `Integers.Wrap`.
- **Exceptions** become `Result`/`Outcome` failures holding a `Faults.Fault`.
  The fault records the .NET exception kind and the parameter name it
  carries.
- **Decimal overflow.** A decimal product or sum outside
  ±`decimal.MaxValue` throws `OverflowException` (`Faults.Overflow`). The
  period loop is modelled with that check on every pass
  (`CalculationService.AccrueChecked`). So is the mortgage validator's
  percentage-to-amount conversion (`MortgageEstimateRequestValidation.Validate`).
- **Parameter names.** The single-argument `ArgumentOutOfRangeException(s)`
  takes `s` as its parameter name. So `InterestCalcReq`'s faults carry their
  message texts as parameter names, exactly as the code does.
- **Null** appears only where the source declares a nullable type (`string?`,
  `decimal?`, a nullable request reference). There it is `Option`, or a
  nullable class reference.

Structure:

- **`InterestCalcReq`** has public setters, so it is a `class`. Its
  `ValidateParams` is a method over the current fields, and the constructor
  is the static method `New`.
- **The other requests** have get-only properties. Each is a datatype with a
  smart constructor `New` that returns a `Result`.
- **The period loop** is the method `CalculationService.AccrueInterest`,
  proved against the function `Accrue`. `Accrue` is proved equal to the
  closed form `principal·(1 + r)^n`.
- **The cadence lookup** is the method
  `CompoundingCadenceOptions.TryResolveSchedule`, the `foreach` with its early
  return. It is proved against the function `FirstMatch`.
- **Each validator** is a set of failing properties, with a `Fails` predicate
  per property.

## Model

| member | source | states |
|---|---|---|
| Decimals.RoundHalfEven | CompoundCalc/Models/Responses/CalculationResult.cs:21 | the result is within half a unit of `x`, and a tie goes to the even neighbour; RoundHalfEvenUnique shows these two facts fix the result |
| Decimals.RoundHalfEvenUnique | CompoundCalc/Models/Responses/CalculationResult.cs:21 | any integer within half a unit of `x` that is even on a tie is RoundHalfEven(x) |
| Decimals.Round2 | CompoundCalc/Models/Responses/CalculationResult.cs:21 | `Math.Round(x, 2, ToEven)` has at most two decimals, moves `x` by at most 0.005, and is the half-even rounding of `x·100`, divided by 100 |
| Decimals.Round2Idempotent | CompoundCalc/Models/Responses/CalculationResult.cs:21 | a value with at most two decimals is kept as it is |
| Decimals.Round2Monotone | CompoundCalc/Models/Responses/CalculationResult.cs:21 | rounding to cents preserves order |
| Decimals.Round2TieToEven | CompoundCalc/Models/Responses/CalculationResult.cs:21 | an exact half cent goes to the even one of its two neighbouring cents |
| Decimals.RoundHalfAwayFromZero | CompoundCalc/Helpers/Conversions.cs:12-13 | the "C" format's rounding of a non-negative amount: the nearest integer, a tie going up |
| Integers.WrapIsCongruent | CompoundCalc/Services/CalculationService.cs:21 | unchecked `int` arithmetic keeps a result that fits and otherwise changes it by a multiple of 2^32 |
| Integers.WrapUnique | CompoundCalc/Services/CalculationService.cs:21 | Wrap(x) is the only `int` congruent to `x` modulo 2^32 |
| Integers.WrapOverflowExample | CompoundCalc/Services/CalculationService.cs:21 | 200,000,000 × 12 wraps to -1,894,967,296 |
| CalculationService.PeriodsPerYear | CompoundCalc/Services/CalculationService.cs:18 | a canonical cadence's period count is the count its own table entry lists (1, 2, 4 or 12), and `GetPeriodsPerYear` succeeds with it |
| CalculationService.AccrueInterest | CompoundCalc/Services/CalculationService.cs:23-27 | the `for` loop leaves the balance after `totalPeriods` compounding steps when that is positive, and after none otherwise |
| CalculationService.AccrueClosedForm | CompoundCalc/Services/CalculationService.cs:23-27 | n steps of `balance += balance·r` give `principal·(1 + r)^n` |
| CalculationService.GrowOnePeriod | CompoundCalc/Services/CalculationService.cs:26 | one pass of `balance += balance·r` multiplies the closed form by one more factor `1 + r` |
| CalculationService.AccrueNeverShrinks | CompoundCalc/Services/CalculationService.cs:23-27 | with a non-negative principal and rate, no step lowers the balance and the balance never drops below the principal |
| CalculationService.AccrueMonotone | CompoundCalc/Services/CalculationService.cs:23-27 | with a non-negative principal and rate, a later period's balance is never below an earlier one |
| CalculationService.AccrueCheckedMeaning | CompoundCalc/Services/CalculationService.cs:23-27 | the passes in decimal arithmetic end with the exact balance when every pass stays within decimal's range, and with OverflowException otherwise |
| CalculationService.OverflowPersists | CompoundCalc/Services/CalculationService.cs:23-27 | once a pass has overflowed, every longer run ends in OverflowException |
| CalculationService.OverflowExactlyWhenBalanceExceedsRange | CompoundCalc/Services/CalculationService.cs:26 | from a principal decimal can hold at a non-negative rate, the loop overflows exactly when the exact balance exceeds decimal.MaxValue, and otherwise yields it |
| CalculationService.CalculateCompoundInterest | CompoundCalc/Services/CalculationService.cs:12-37 | a null request fails with ArgumentNull("request"). Otherwise the loop runs in decimal arithmetic: an OverflowException from it is the result; else the result comes from `Create` over the request's principal, rate, cadence and years, the loop's balance, the en-US formatter and version "v1.0". The request is only read (no `modifies`) |
| CalculationService.CheckedEndingBalanceMeaning | CompoundCalc/Services/CalculationService.cs:18-27 | for a request with a principal decimal can hold and a non-negative rate, the engine throws OverflowException exactly when the exact ending balance exceeds decimal.MaxValue, and otherwise ends with that balance |
| CalculationService.DoublingPastDecimalRange | CompoundCalc/Services/CalculationService.cs:26 | at 100% compounded annually, a principal of at least 10,000,000 over 73 or more years ends in OverflowException |
| CalculationService.EndingBalanceOfZeroYears | CompoundCalc/Services/CalculationService.cs:21-27 | at zero years the loop body is skipped and the balance is the principal |
| CalculationService.EndingBalanceIsCompoundFormula | CompoundCalc/Services/CalculationService.cs:18-27 | when `years·periodsPerYear` fits in an `int`, the balance is `principal·(1 + rate/(100·periodsPerYear))^(years·periodsPerYear)` |
| CalculationService.ValidRequestsDoNotWrap | CompoundCalc/Services/CalculationService.cs:21 | with fewer than 100 years the period count does not wrap, and the loop makes `years·periodsPerYear` passes |
| CalculationService.WrappedPeriodCountSkipsLoop | CompoundCalc/Services/CalculationService.cs:21-27 | 200,000,000 monthly years (possible through a setter) wrap to a negative count, so the loop is skipped |
| CalculationService.EndingBalanceAtLeastPrincipal | CompoundCalc/Services/CalculationService.cs:23-27 | with a non-negative principal and rate, the ending balance is at least the principal |
| CalculationService.TenYearsAtFiveAndAHalfPercent | CompoundInterestCalculatorTests/Services/CalculationServiceTests.cs:14-21 | 10,000 at 5.5% for 10 annual years is stored as 17,081.44 and shown as "$17,081.44" |
| CalculationService.TenYearsAtFivePercent | CompoundInterestCalculatorTests/Services/CalcServiceTests.cs:10 | 1,000 at 5% for 10 years is shown as "$1,628.89" |
| CalculationService.TenYearsEndToEnd | CompoundInterestCalculatorTests/Services/CalculationServiceTests.cs:14-21 | a request built by the constructor with the default cadence and passed to the engine displays "$17,081.44" |
| CompoundingCadenceOptions.FirstMatch | CompoundCalc/Helpers/CompoundingCadenceOptions.cs:47-57 | a hit is a table entry that matches; a miss means no later entry matches |
| CompoundingCadenceOptions.Resolve | CompoundCalc/Helpers/CompoundingCadenceOptions.cs:39-58 | finds an entry iff the input is not null or blank and some table name equals it ignoring case; what it finds is a matching table entry |
| CompoundingCadenceOptions.IsSupported | CompoundCalc/Helpers/CompoundingCadenceOptions.cs:20-21 | the probe succeeds exactly when the table lookup finds an entry; SupportedExactlyWhenSomeNameMatches gives the closed form |
| CompoundingCadenceOptions.SupportedExactlyWhenSomeNameMatches | CompoundCalc/Helpers/CompoundingCadenceOptions.cs:41-53 | an input is supported iff it is not null or blank and equals some table name ignoring case |
| CompoundingCadenceOptions.TryResolveSchedule | CompoundCalc/Helpers/CompoundingCadenceOptions.cs:39-58 | the `foreach` with early return reports exactly what Resolve finds, and leaves `default` in the out-parameter on a miss |
| CompoundingCadenceOptions.ResolveSchedule | CompoundCalc/Helpers/CompoundingCadenceOptions.cs:29-37 | succeeds iff IsSupported, returning a matching table entry; otherwise fails with ArgumentException for `cadence` |
| CompoundingCadenceOptions.GetPeriodsPerYear | CompoundCalc/Helpers/CompoundingCadenceOptions.cs:23-24 | succeeds iff IsSupported, with the period count of the entry whose name matches ignoring case (a value in {1, 2, 4, 12} that divides 12); otherwise fails with ArgumentException for `cadence` |
| CompoundingCadenceOptions.NormalizeName | CompoundCalc/Helpers/CompoundingCadenceOptions.cs:26-27 | succeeds iff IsSupported, with a canonical name equal to the input ignoring case; otherwise fails with ArgumentException for `cadence` |
| CompoundingCadenceOptions.TableShape | CompoundCalc/Helpers/CompoundingCadenceOptions.cs:9-18 | SupportedCadences lists the table's names in table order, and every period count is positive and divides 12 |
| CompoundingCadenceOptions.AtMostOneMatch | CompoundCalc/Helpers/CompoundingCadenceOptions.cs:9-15 | no input matches two table entries |
| CompoundingCadenceOptions.OnlyMatch | CompoundCalc/Helpers/CompoundingCadenceOptions.cs:47-53 | an entry that matches the input is the only entry that matches it, so the first match is the match |
| CompoundingCadenceOptions.PeriodsOfTableNames | CompoundCalc/Helpers/CompoundingCadenceOptions.cs:9-15 | Annual gives 1, SemiAnnual 2, Quarterly 4 and Monthly 12 periods per year |
| CompoundingCadenceOptions.ResolveTableName | CompoundCalc/Helpers/CompoundingCadenceOptions.cs:39-58 | a table name resolves to its own entry |
| CompoundingCadenceOptions.BlankIsNeverSupported | CompoundCalc/Helpers/CompoundingCadenceOptions.cs:41-45 | null, empty or white-space input is unsupported, and the period lookup throws for it |
| CompoundingCadenceOptions.NormalizeMatchingName | CompoundCalc/Helpers/CompoundingCadenceOptions.cs:47-53 | an input that matches an entry and does not start with white space normalises to that entry's name |
| CompoundingCadenceOptions.LowerCaseIsSupported | CompoundCalc/Helpers/CompoundingCadenceOptions.cs:47-53 | "monthly" is supported and normalises to "Monthly" |
| CompoundingCadenceOptions.UpperCaseIsSupported | CompoundCalc/Helpers/CompoundingCadenceOptions.cs:47-53 | "QUARTERLY" normalises to "Quarterly" |
| CompoundingCadenceOptions.PaddedIsNotSupported | CompoundCalc/Helpers/CompoundingCadenceOptions.cs:47-53 | no trimming: " Monthly" is unsupported, and so is "Weekly" |
| CompoundingCadenceOptions.SupportedIffLookupsSucceed | CompoundCalc/Helpers/CompoundingCadenceOptions.cs:20-37 | IsSupported holds iff GetPeriodsPerYear succeeds, iff NormalizeName succeeds; otherwise both throw ArgumentException for `cadence` |
| CompoundingCadenceOptions.NormalizeNameIdempotent | CompoundCalc/Helpers/CompoundingCadenceOptions.cs:23-27 | normalising twice equals normalising once, and the normalised name has the same period count as the input |
| CompoundingCadenceOptions.CanonicalNamesAreFixedPoints | CompoundCalc/Helpers/CompoundingCadenceOptions.cs:17-27 | the names in SupportedCadences are exactly the inputs NormalizeName returns unchanged |
| CompoundingCadenceOptions.CadenceNameResolves | CompoundCalc/Helpers/CompoundingCadenceOptions.cs:17-24 | every canonical name is supported and has a positive period count |
| Conversions.ConvertPercentageToDecimal | CompoundCalc/Helpers/Conversions.cs:9-10 | the fraction times 100 gives the percentage back |
| Conversions.PercentageConversionIsLinear | CompoundCalc/Helpers/Conversions.cs:9-10 | the conversion is additive and commutes with scaling |
| Conversions.NatDigitsAreDigits | CompoundCalc/Helpers/Conversions.cs:12-13 | the dollar digits are decimal digits with no leading zero |
| Conversions.GroupThousandsOnlyInsertsSeparators | CompoundCalc/Helpers/Conversions.cs:12-13 | the en-US grouping only inserts commas: removing them gives back the digits |
| Conversions.GroupThousandsLayout | CompoundCalc/Helpers/Conversions.cs:12-13 | the `#,##0` grouping of n ≥ 1 digits has n + (n-1)/3 characters, with a comma at exactly the positions a multiple of four from the end, never first |
| Conversions.GroupedLayoutIsUnique | CompoundCalc/Helpers/Conversions.cs:12-13 | `GroupThousands` writes the grouped layout of a digit string, and it is the only text in that layout that loses its commas to give those digits |
| Conversions.FormatCentsLayout | CompoundCalc/Helpers/Conversions.cs:12-13 | a formatted amount is "$", the dollars grouped by threes with commas and no leading zero, ".", and two cent digits |
| Conversions.CurrencyTextIsUnique | CompoundCalc/Helpers/Conversions.cs:12-13 | any text in that currency layout that reads back as `c` cents is `FormatCents(c)`: the format fixes every character, commas included |
| Conversions.FormatCents | CompoundCalc/Helpers/Conversions.cs:12-13 | a formatted amount is "$", then dollars, then "." and exactly two cent digits |
| Conversions.ConvertDecimalToCurrency | CompoundCalc/Helpers/Conversions.cs:12-13 | a non-negative amount is shown in the currency layout ("$", dollars grouped by threes with commas, ".", two cent digits), reading back as the amount rounded to whole cents (half away from zero); a negative one as "-" before such text |
| Conversions.DigitsValueOfNatDigits | CompoundCalc/Helpers/Conversions.cs:12-13 | reading the written dollar digits gives the number back |
| Conversions.FormatCentsRoundTrip | CompoundCalc/Helpers/Conversions.cs:12-13 | parsing a formatted amount gives back exactly the cents that were formatted |
| Conversions.FormatCentsInjective | CompoundCalc/Helpers/Conversions.cs:12-13 | different amounts format differently |
| Conversions.CurrencyOfCentExactAmount | CompoundCalc/Helpers/Conversions.cs:12-13 | `ToString("C", en-US)` of a non-negative amount with two decimals shows exactly that amount, and parses back to its cents |
| Conversions.WholeCentsAreNotRounded | CompoundCalc/Helpers/Conversions.cs:12-13 | the currency format's rounding keeps a whole number of cents unchanged |
| Conversions.FormatCentsExampleThousands | CompoundInterestCalculatorTests/Services/CalculationServiceTests.cs:45 | 2,500.00 is written "$2,500.00" |
| Conversions.FormatCentsExampleHundredThousands | CompoundInterestCalculatorTests/Integration/MortgageControllerTests.cs:43 | 300,000.00 is written "$300,000.00" |
| Conversions.FormatCentsExampleTenYears | CompoundInterestCalculatorTests/Services/CalculationServiceTests.cs:21 | 17,081.44 is written "$17,081.44" |
| Conversions.FormatCentsExampleTenYearsAtFive | CompoundInterestCalculatorTests/Services/CalcServiceTests.cs:10 | 1,628.89 is written "$1,628.89" |
| Conversions.FormatCentsExampleNoSeparator | CompoundInterestCalculatorTests/Integration/DebtControllerTests.cs:40 | 10.01 is written "$10.01" and zero "$0.00" |
| Conversions.CurrencyOfAmountExamples | CompoundInterestCalculatorTests/Integration/DebtControllerTests.cs:40 | the formatter shows 2500 as "$2,500.00" and 10.01 as "$10.01" |
| DebtPayoffMath.FirstMonthInterest | CompoundCalc/Helpers/DebtPayoffMath.cs:25 | the rounded first month's interest is non-negative, has two decimals, stays so with a cent added, and is within half a cent of the exact interest |
| DebtPayoffMath.FirstMonthInterestIsRounded | CompoundCalc/Helpers/DebtPayoffMath.cs:25 | for a positive debt and rate, the first month's interest is the half-even rounding of `debt·rate` |
| DebtPayoffMath.CalculateMinimumPaymentRequired | CompoundCalc/Helpers/DebtPayoffMath.cs:7-27 | debt ≤ 0 throws for `totalDebt` before the rate is looked at; a rate outside [0, 100] throws for `monthlyRatePercent`; otherwise it succeeds with at least 0.01 and at most two decimals |
| DebtPayoffMath.ZeroRateGivesOneCent | CompoundCalc/Helpers/DebtPayoffMath.cs:19-23 | a zero rate gives exactly 0.01 |
| DebtPayoffMath.PositiveRateGivesInterestPlusCent | CompoundCalc/Helpers/DebtPayoffMath.cs:19-26 | a positive rate gives `Round2(debt·rate/100) + 0.01` |
| DebtPayoffMath.MinimumExceedsMonthlyInterest | CompoundCalc/Helpers/DebtPayoffMath.cs:7-27 | the minimum exceeds the exact month's interest by at least half a cent, so paying it lowers the balance |
| DebtPayoffMath.MinimumPaymentExample | CompoundInterestCalculatorTests/Integration/DebtControllerTests.cs:39 | 1,000 at 1% a month needs 10.01 |
| CalculationResults.Create | CompoundCalc/Models/Responses/CalculationResult.cs:12-30 | the balance is rounded half-even to cents and moves by at most 0.005; the display is the formatter on the rounded balance; every other field is passed through |
| CalculationResults.CreateKeepsCentExactBalance | CompoundCalc/Models/Responses/CalculationResult.cs:21-28 | a balance with two decimals is stored, and formatted, unchanged |
| CalculationResults.CreateIsIdempotent | CompoundCalc/Models/Responses/CalculationResult.cs:12-30 | rebuilding a result from its own fields gives the same result |
| CalculationResults.CreateRoundsTiesToEven | CompoundCalc/Models/Responses/CalculationResult.cs:21 | 0.125 is stored as 0.12 and 0.135 as 0.14 |
| DebtPayoffResults.Create | CompoundCalc/Models/Responses/DebtPayoffResult.cs:16-43 | total paid, total interest and minimum payment are each rounded half-even to cents and move by at most 0.005; each display formats its own rounded value; the rest is passed through |
| DebtPayoffResults.CreateKeepsCentExactAmounts | CompoundCalc/Models/Responses/DebtPayoffResult.cs:27-29 | amounts with two decimals are stored unchanged |
| DebtPayoffResults.CreateIsIdempotent | CompoundCalc/Models/Responses/DebtPayoffResult.cs:16-43 | rebuilding a result from its own fields gives the same result |
| MortgageResults.Create | CompoundCalc/Models/Responses/MortgageResult.cs:24-67 | the seven money amounts are each rounded half-even to cents on their own; each display formats its own rounded amount; price, down payment, rate, term and version are passed through |
| MortgageResults.MonthlyTotalNearSumOfRoundedParts | CompoundCalc/Models/Responses/MortgageResult.cs:40-43 | when the raw total is the sum of the raw parts, the stored total is within two cents of the sum of the stored parts |
| MortgageResults.MonthlyTotalIsNotSumOfRoundedParts | CompoundCalc/Models/Responses/MortgageResult.cs:40-43 | the stored total is rounded on its own: half-cent parts round to 0.00 while their total stays 0.01 |
| MortgageResults.CreateIsIdempotent | CompoundCalc/Models/Responses/MortgageResult.cs:24-67 | rebuilding a result from its own fields gives the same result |
| MortgageResults.CreateKeepsCentExactFigures | CompoundInterestCalculatorTests/Integration/MortgageControllerTests.cs:38-42 | the 300,000 loan's figures are stored as they come |
| InterestCalcReqs.CheckParams | CompoundCalc/Models/Requests/InterestCalcReq.cs:39-66 | passes iff balance ≥ 0, rate ≥ 0, 0 ≤ years < 100 and contribution ≥ 0; otherwise the first failing check, in source order, decides the fault |
| InterestCalcReqs.InterestCalcReq.ValidateParams | CompoundCalc/Models/Requests/InterestCalcReq.cs:39-66 | checks the current fields as CheckParams does, and passes iff the request is Valid |
| InterestCalcReqs.InterestCalcReq.New | CompoundCalc/Models/Requests/InterestCalcReq.cs:9-23 | an unsupported cadence fails in NormalizeName; otherwise the request succeeds iff CheckParams passes, and fails with CheckParams' fault. On success it is fresh and Valid, every field equals its argument, and the cadence is the normalised name |
| InterestCalcReqs.InterestCalcReq.Init | CompoundCalc/Models/Requests/InterestCalcReq.cs:16-20 | the field assignments: every field holds its argument |
| InterestCalcReqs.NoUpperBounds | CompoundCalc/Models/Requests/InterestCalcReq.cs:39-66 | there is no upper bound on balance, rate or contribution |
| InterestCalcReqs.CheckParamsTestCases | CompoundInterestCalculatorTests/Models/Requests/InterestCalcReqTests.cs:8-29 | negative balance, negative rate, -5 years and 105 years are rejected with ArgumentOutOfRange; 99 years passes |
| InterestCalcReqs.ReassignedYearsFailValidation | CompoundCalc/Models/Requests/InterestCalcReq.cs:31-39 | after a setter puts the years at 150, a request that passed validation fails it |
| SavingsCalcReqs.Validate | CompoundCalc/Models/Requests/SavingsCalcReq.cs:34-55 | passes iff the request is Valid; otherwise the first failing check decides the fault. The cadence check can never fail on a canonical name |
| SavingsCalcReqs.New | CompoundCalc/Models/Requests/SavingsCalcReq.cs:8-20 | an unsupported cadence fails in NormalizeName before any other check. Otherwise it succeeds iff balance, rate and years are in range, with the fault of the first failing check. On success the request is Valid and stores the arguments and the canonical cadence |
| SavingsCalcReqs.DefaultCadenceIsMonthly | CompoundCalc/Models/Requests/SavingsCalcReq.cs:12 | without a cadence argument the request compounds monthly |
| SavingsCalcReqs.CadenceIsStoredCanonically | CompoundCalc/Models/Requests/SavingsCalcReq.cs:17 | "monthly" is stored as "Monthly" |
| DebtPayoffRequests.New | CompoundCalc/Models/Requests/DebtPayoffRequest.cs:7-41 | succeeds iff debt > 0, payment > 0 and 0 ≤ rate ≤ 100; the checks run debt, payment, rate and the first failure decides; success is Valid and stores the arguments |
| DebtPayoffRequests.AcceptedRequestsHaveAMinimumPayment | CompoundCalc/Models/Requests/DebtPayoffRequest.cs:25-41 | every accepted request is one the minimum-payment helper accepts |
| DebtPayoffRequests.PaymentBelowMinimumIsAccepted | CompoundCalc/Models/Requests/DebtPayoffRequest.cs:25-41 | the request does not compare the payment with the minimum: 5.00 on 1,000 at 1% is accepted though the minimum is 10.01 |
| MortgageRequests.New | CompoundCalc/Models/Requests/MortgageRequest.cs:7-77 | succeeds iff price > 0, 0 ≤ down payment ≤ price, rate in [0, 100], term in 1..40, and tax and PMI absent or non-negative. The checks run in source order and the first failure decides. Success is Valid and stores the arguments |
| MortgageRequests.MortgageRequestCases | CompoundCalc/Models/Requests/MortgageRequest.cs:48-76 | absent charges are accepted; a down payment above the price and a negative tax are rejected with their own parameter names |
| MortgageEstimateRequestValidation.Failures | api/CompoundInterestCalculator.Api/Validation/MortgageEstimateRequestValidator.cs:10-78 | a property is reported iff one of its rules fails; the two pair rules report under the request |
| MortgageEstimateRequestValidation.IsSupportedType | api/CompoundInterestCalculator.Api/Validation/MortgageEstimateRequestValidator.cs:81-83 | a supported type is never null or blank, and trims to six or seven characters ("Amount" or "Percent" ignoring case) |
| MortgageEstimateRequestValidation.IsPercentType | api/CompoundInterestCalculator.Api/Validation/MortgageEstimateRequestValidator.cs:85-86 | a percentage type is never null or blank, and trims to seven characters |
| MortgageEstimateRequestValidation.IsPairValid | api/CompoundInterestCalculator.Api/Validation/MortgageEstimateRequestValidator.cs:95-96 | a pair is valid iff the value is present exactly when the type is non-null with something left after trimming |
| MortgageEstimateRequestValidation.PercentTypeIsSupported | api/CompoundInterestCalculator.Api/Validation/MortgageEstimateRequestValidator.cs:81-86 | a percentage type is also a supported type |
| MortgageEstimateRequestValidation.EffectiveDownPayment | api/CompoundInterestCalculator.Api/Validation/MortgageEstimateRequestValidator.cs:29-31 | for a Percent type the amount is the price times the value over 100; for any other type it is the value itself |
| MortgageEstimateRequestValidation.Validate | api/CompoundInterestCalculator.Api/Validation/MortgageEstimateRequestValidator.cs:26-34 | validation throws OverflowException exactly when the Percent conversion `HomePrice * (value / 100m)` leaves decimal's range; otherwise it reports exactly the properties whose rules fail |
| MortgageEstimateRequestValidation.OverflowOnlyOnOutOfRangeFigures | api/CompoundInterestCalculator.Api/Validation/MortgageEstimateRequestValidator.cs:10-31 | a price and down payment within their range rules never make the conversion overflow, so such a request is always reported on, never thrown out |
| MortgageEstimateRequestValidation.HugePercentDownPaymentThrows | api/CompoundInterestCalculator.Api/Validation/MortgageEstimateRequestValidator.cs:29-31 | a 10^20 percent down payment on a 10^20 price throws OverflowException instead of being reported |
| MortgageEstimateRequestValidation.TypeRulesReportUnsupportedTypes | api/CompoundInterestCalculator.Api/Validation/MortgageEstimateRequestValidator.cs:13-16 | the down-payment type is reported iff it does not trim to Amount or Percent ignoring case; a blank tax or PMI type is never reported |
| MortgageEstimateRequestValidation.AcceptedRequestsSatisfyDomainRules | api/CompoundInterestCalculator.Api/Validation/MortgageEstimateRequestValidator.cs:10-78 | an accepted request, with the down payment converted to an amount, passes the domain mortgage constructor |
| MortgageEstimateRequestValidation.PassingValuesSatisfyDomainRules | api/CompoundInterestCalculator.Api/Validation/MortgageEstimateRequestValidator.cs:10-57 | the price, down-payment, rate, term and charge rules together imply the domain constructor's checks |
| MortgageEstimateRequestValidation.EffectiveDownPaymentIsNotNegative | api/CompoundInterestCalculator.Api/Validation/MortgageEstimateRequestValidator.cs:29-31 | the converted down payment of a non-negative price and value is non-negative |
| MortgageEstimateRequestValidation.DownPaymentAbovePriceIsRejected | api/CompoundInterestCalculator.Api/Validation/MortgageEstimateRequestValidator.cs:26-35 | 250,000 down on a 200,000 home is reported on the down payment only |
| MortgageEstimateRequestValidation.PercentDownPaymentIsAccepted | api/CompoundInterestCalculator.Api/Validation/MortgageEstimateRequestValidator.cs:21-35 | a percentage of at most 100 never exceeds the price, so a percentage down payment with in-range figures and no charges passes |
| MortgageEstimateRequestValidation.PaddedLowerCasePercentIsAccepted | api/CompoundInterestCalculator.Api/Validation/MortgageEstimateRequestValidator.cs:85-86 | " percent " is a percentage type: 20 on 300,000 is 60,000 down, and the request passes |
| MortgageEstimateRequestValidation.TaxTypeWithoutValueIsReported | api/CompoundInterestCalculator.Api/Validation/MortgageEstimateRequestValidator.cs:59-61 | a tax type without a value is reported under the request only |
| MortgageEstimateRequestValidation.PmiValueWithoutTypeIsReported | api/CompoundInterestCalculator.Api/Validation/MortgageEstimateRequestValidator.cs:76-78 | a PMI value without a type is reported under the request only |
| MortgageEstimateRequestValidation.BlankTypesWithoutValuesPass | api/CompoundInterestCalculator.Api/Validation/MortgageEstimateRequestValidator.cs:95-106 | blank types without values count as absent pairs and pass |
| MortgageEstimateRequestValidation.AmountIsSupported | api/CompoundInterestCalculator.Api/Validation/MortgageEstimateRequestValidator.cs:81-86 | "Amount" is a supported type and not a percentage |
| MortgageEstimateRequestValidation.PaddedPercentIsPercent | api/CompoundInterestCalculator.Api/Validation/MortgageEstimateRequestValidator.cs:85-86 | " percent " trims and folds to "Percent" |
| DebtPayoffRequestValidation.MinimumPaymentRule | api/CompoundInterestCalculator.Api/Validation/DebtPayoffRequestValidator.cs:27-36 | where the guard applies with a rate up to 100, the rule passes iff the payment is at least one rounded month of interest plus a cent; with a rate above 100 the helper's ArgumentOutOfRangeException escapes |
| DebtPayoffRequestValidation.Failures | api/CompoundInterestCalculator.Api/Validation/DebtPayoffRequestValidator.cs:12-42 | the helper throws out of validation exactly when debt > 0 and rate > 100. Otherwise each property is reported iff its range fails, and the payment also when the rule applies and it is below the minimum |
| DebtPayoffRequestValidation.MinimumPaymentMessage | api/CompoundInterestCalculator.Api/Validation/DebtPayoffRequestValidator.cs:37-41 | the message exists iff the helper succeeds; it is the prefix, then `ConvertDecimalToCurrency` of the minimum (so "$", comma-grouped dollars and two cent digits), then the suffix, and that text reads back as the minimum to the cent |
| DebtPayoffRequestValidation.AcceptedRequestsSatisfyDomainRules | api/CompoundInterestCalculator.Api/Validation/DebtPayoffRequestValidator.cs:12-42 | an accepted request passes the domain constructor and, at a positive rate, pays at least the helper's minimum |
| DebtPayoffRequestValidation.PaymentBelowMinimumIsRejected | CompoundInterestCalculatorTests/Integration/DebtControllerTests.cs:45-63 | 5.00 on 1,000 at 1% is reported on the payment alone, although the domain request accepts it |
| DebtPayoffRequestValidation.MinimumPaymentMessageExample | api/CompoundInterestCalculator.Api/Validation/DebtPayoffRequestValidator.cs:37-41 | the message for 1,000 at 1% names "$10.01" |
| DebtPayoffRequestValidation.ZeroRateHasNoMinimum | api/CompoundInterestCalculator.Api/Validation/DebtPayoffRequestValidator.cs:29-32 | at a zero rate the rule does not apply: any in-range payment passes |
| DebtPayoffRequestValidation.RateAboveHundredThrows | api/CompoundInterestCalculator.Api/Validation/DebtPayoffRequestValidator.cs:34 | a rate of 150 on a positive debt ends in the helper's ArgumentOutOfRange, not in a message |
| ContributionGrowthRequestValidation.Failures | api/CompoundInterestCalculator.Api/Validation/ContributionGrowthRequestValidator.cs:11-29 | a property is reported iff its rule fails; every failing property is reported |
| ContributionGrowthRequestValidation.FailingRules | api/CompoundInterestCalculator.Api/Validation/ContributionGrowthRequestValidator.cs:11-29 | each property's failure condition in closed form; the cadence fails iff it is unsupported |
| ContributionGrowthRequestValidation.AcceptedExactlyWhenInRange | api/CompoundInterestCalculator.Api/Validation/ContributionGrowthRequestValidator.cs:11-29 | a request is accepted iff every figure is in range, the cadence is supported and the reference has at most 64 characters |
| ContributionGrowthRequestValidation.ToContributionDomain | api/CompoundInterestCalculator.Api/Mappers/CalculationMapper.cs:10-16 | on a request the automatic validation has accepted, the mapper builds a domain InterestCalcReq holding the request's principal, rate, years and contribution, and a cadence equal to the request's ignoring case |
| ContributionGrowthRequestValidation.CalculationRulesAreTighter | api/CompoundInterestCalculator.Api/Validation/CalculationRequestValidator.cs:11-12 | what the calculation rules accept, the growth rules accept with no contribution |
| ContributionGrowthRequestValidation.LargePrincipalOnlyPassesGrowthRules | api/CompoundInterestCalculator.Api/Validation/ContributionGrowthRequestValidator.cs:11-12 | a principal between 10,000,000 and 1,000,000,000 passes the growth rules and fails the calculation rules on the principal alone |
| ContributionGrowthRequestValidation.EveryFailingFieldIsReported | CompoundInterestCalculatorTests/Integration/GrowthControllerValidationTests.cs:23-44 | the invalid payload is reported on principal, rate, cadence, duration and contribution together |
| CalculationRequestValidation.Failures | api/CompoundInterestCalculator.Api/Validation/CalculationRequestValidator.cs:11-26 | a property is reported iff its rule fails |
| CalculationRequestValidation.FailingRules | api/CompoundInterestCalculator.Api/Validation/CalculationRequestValidator.cs:11-26 | each property's failure condition in closed form; the principal's bound is 10,000,000 |
| CalculationRequestValidation.AcceptedRequestsSatisfyDomainRules | api/CompoundInterestCalculator.Api/Validation/CalculationRequestValidator.cs:11-26 | an accepted request passes the domain request's checks with no contribution, and its cadence normalises |
| CalculationRequestValidation.EveryFailingFieldIsReported | CompoundInterestCalculatorTests/Integration/CalculationsControllerValidationTests.cs:23-42 | the invalid payload is reported on principal, rate, cadence and duration together |
| CalculationRequestValidation.AcceptedRequestCanOverflow | api/CompoundInterestCalculator.Api/Validation/CalculationRequestValidator.cs:11-26 | the rules accept 10,000,000 at 100% annually for 73 to 99 years, and the engine throws OverflowException on it |
| ValidationRules.BlankCadenceFails | api/CompoundInterestCalculator.Api/Validation/ContributionGrowthRequestValidator.cs:17-19 | a cadence that fails NotEmpty also fails IsSupported |
| Text.TrimStart | api/CompoundInterestCalculator.Api/Validation/MortgageEstimateRequestValidator.cs:82 | drops exactly the leading white space |
| Text.TrimEnd | api/CompoundInterestCalculator.Api/Validation/MortgageEstimateRequestValidator.cs:82 | drops exactly the trailing white space |
| Text.Trim | api/CompoundInterestCalculator.Api/Validation/MortgageEstimateRequestValidator.cs:82 | the result is the slice of the input left after removing white space before and after it; it neither starts nor ends with white space, and is empty exactly when the input is blank |
| Text.EqualsIgnoreCaseAt | CompoundCalc/Helpers/CompoundingCadenceOptions.cs:49 | ordinal case-insensitive equality is same length and equal folded characters position by position |
| Text.EqualsIgnoreCaseIsEquivalence | CompoundCalc/Helpers/CompoundingCadenceOptions.cs:49 | case-insensitive equality is reflexive, symmetric and transitive |
| Text.EqualsIgnoreCase | CompoundCalc/Helpers/CompoundingCadenceOptions.cs:49 | equal ignoring case implies equal length |
| Text.IsNullOrWhiteSpace | CompoundCalc/Helpers/CompoundingCadenceOptions.cs:41 | null, or white space only; NullOrWhiteSpaceExactlyWhenTrimmedEmpty shows that is exactly when trimming leaves nothing |
| Text.NullOrWhiteSpaceExactlyWhenTrimmedEmpty | CompoundCalc/Helpers/CompoundingCadenceOptions.cs:41 | null or blank exactly when the string is null or trims to the empty string |
| Text.TrimOfSpacePadded | api/CompoundInterestCalculator.Api/Validation/MortgageEstimateRequestValidator.cs:82 | one space on each side of an unpadded word is trimmed away |
| DigitsRegex.MatchesFromSuffix | CompoundCalc/Helpers/InputCheck.cs:9 | the matcher from position `i` accepts iff the rest is digits, optionally followed by one final "\n" |
| DigitsRegex.IsMatchMeaning | CompoundCalc/Helpers/InputCheck.cs:9 | `^[0-9]*$` accepts exactly digit strings, with or without one trailing "\n" |
| InputCheck.CheckInput | CompoundCalc/Helpers/InputCheck.cs:7-16 | null throws ArgumentNull("input") from the regex; a mismatch throws NotSupported; NullReference happens iff the input is ""; success iff non-empty and matching, returning the input |
| InputCheck.NonDigitIsNotSupported | CompoundCalc/Helpers/InputCheck.cs:9-10 | a non-digit anywhere but as a final "\n" is refused as not supported |
| InputCheck.DigitStringsAreReturned | CompoundCalc/Helpers/InputCheck.cs:9-15 | every non-empty digit string is returned unchanged |
| InputCheck.CheckInputExamples | CompoundCalc/Helpers/InputCheck.cs:9-15 | "" throws NullReference, "123\n" is returned with its newline, and "12a" throws NotSupported |
| InputCheck.NewlineAloneIsAccepted | CompoundCalc/Helpers/InputCheck.cs:9-15 | a lone "\n" is accepted |
| InputCheck.CheckDigitsOnly | CompoundCalc/Helpers/InputCheck.cs:7-16 | the intended check: success iff the input is a non-empty string of digits only, returned unchanged |
| InputCheck.CheckDigitsOnlyRefinesCheckInput | CompoundCalc/Helpers/InputCheck.cs:9 | the intended check agrees with CheckInput except on inputs ending in "\n", which it refuses |
| GeneratedInputCheck.CheckInput | CompoundInterestCalculator/Helpers/InputCheck.cs:7-19 | the generated-regex variant: the same faults in the same order, and success iff non-empty and matching |
| GeneratedInputCheck.AgreesWithLibraryCheck | CompoundInterestCalculator/Helpers/InputCheck.cs:7-19 | it behaves exactly as the library's CheckInput on every input |
| GeneratedInputCheck.TrailingNewlineIsKept | CompoundInterestCalculator/Helpers/InputCheck.cs:18-19 | "2024\n" is accepted and returned with its newline |

## Left out

- The other engine operations are not part of this model: contribution growth, savings growth, debt payoff and the mortgage estimate. Their code is not among the files modelled.
- The API mappers are not part of this model, except `CalculationMapper.ToContributionDomain` (Mappers/CalculationMapper.cs:10-16), modelled as `ContributionGrowthRequestValidation.ToContributionDomain` on requests the automatic FluentValidation step (Program.cs:26-28) has accepted. The mortgage validator's conversion of a percentage down payment (lines 29-31) stands in for the mortgage mapper in `MortgageEstimateRequestValidation.AcceptedRequestsSatisfyDomainRules`.
- HTTP plumbing is left out: controllers, middleware, Swagger, logging and health checks. So are the Azure Function wrappers, the web front ends and the legacy console project, except its `InputCheck` (modelled as `GeneratedInputCheck`). They are I/O around the core.
- System.Decimal's 28–29 significant digits, and its rounding after each multiply and divide, are left out. Amounts are exact rationals. So `(rate/100)/periods` and `rate/(100·periods)` are equal here, but may differ in the last digit on .NET. Decimal's range, ±79,228,162,514,264,337,593,543,950,335, is kept where a product can leave it: the compound-interest loop and the mortgage validator's percentage conversion. Elsewhere the core only takes percentages of at most 100, divides and rounds, which stay within the magnitude of their inputs.
- `DebtPayoffMath.CalculateMinimumPaymentRequired`: the added cent is exact. On .NET, a first month's interest within a cent of decimal.MaxValue would need that sum rounded. No request the validators accept comes near it.
- `Conversions.ConvertDecimalToCurrency`: negative amounts are written with a leading "-". .NET's en-US negative currency pattern depends on the platform, and no caller passes a negative amount.
- `Text.EqualsIgnoreCase`: folds ASCII letters only. Ordinal case-insensitive comparison of other scripts is left out.
- FluentValidation messages (other than the minimum-payment message), cascade modes and localisation are left out. Only which properties fail is modelled.
- DataAnnotations attributes (`[Required]`) are left out; no code path in the core evaluates them.
- Null values of non-nullable strings are left out. Strings in the model are never null, except where the source declares `string?`, and at `InputCheck.CheckInput`'s parameter.
- String lengths count `char`s, as UTF-16 code units do; surrogate pairs are not distinguished.
- The tests call `InterestCalcReq` with three arguments, but its constructor requires four: only the cadence has a default. The model follows the constructor, and the test examples pass a monthly contribution of 0.

## Findings

| source | as written | input that shows it | evidently intended | confidence | as-written member | corrected member |
|---|---|---|---|---|---|---|
| CompoundCalc/Helpers/InputCheck.cs:9 | `^[0-9]*$` under .NET rules lets `$` match before a final "\n", so a trailing newline passes the digits-only check and is returned to the caller | "\n" (and "123\n") | only non-empty strings of the digits 0-9 are accepted, as the "Input must only contains numbers" message says | medium, not executed | InputCheck.NewlineAloneIsAccepted | InputCheck.CheckDigitsOnlyRefinesCheckInput |
