/** The savings request (CompoundCalc/Models/Requests/SavingsCalcReq.cs).
    Every property is get-only, so a request is a value: once the smart
    constructor has returned it, its invariant holds for good. */
module SavingsCalcReqs {
  import opened Wrappers
  import opened Faults
  import opened Integers
  import opened CompoundingCadenceOptions
  import Text

  datatype SavingsCalcReq = SavingsCalcReq(
    StartingBalance: real,
    InterestRate: real,
    Years: Int32,
    CompoundingCadence: CadenceName)
  {
    /** The invariant `Validate` establishes. */
    predicate Valid() {
      StartingBalance >= 0.0 && InterestRate >= 0.0 && 0 <= Years < 100
      && IsSupported(Some(CompoundingCadence))
    }
  }

  /** The checks of the private `Validate`, in source order; the first
      failing check decides the fault. */
  function Validate(request: SavingsCalcReq): (o: Outcome<Fault>)
    ensures o.Pass? <==> request.Valid()
    ensures request.StartingBalance < 0.0 ==> o == Fail(ArgumentOutOfRange("StartingBalance"))
    ensures request.StartingBalance >= 0.0 && request.InterestRate < 0.0 ==>
      o == Fail(ArgumentOutOfRange("InterestRate"))
    ensures request.StartingBalance >= 0.0 && request.InterestRate >= 0.0 && !(0 <= request.Years < 100) ==>
      o == Fail(ArgumentOutOfRange("Years"))
    ensures o != Fail(Argument("CompoundingCadence"))
  {
    CadenceNameResolves(request.CompoundingCadence);
    if request.StartingBalance < 0.0 then Fail(ArgumentOutOfRange("StartingBalance"))
    else if request.InterestRate < 0.0 then Fail(ArgumentOutOfRange("InterestRate"))
    else if request.Years < 0 || request.Years >= 100 then Fail(ArgumentOutOfRange("Years"))
    else if !IsSupported(Some(request.CompoundingCadence)) then Fail(Argument("CompoundingCadence"))
    else Pass
  }

  /** The constructor: the cadence (by default "Monthly") is normalised
      first, so an unsupported one fails in `NormalizeName` before any other
      check; then `Validate` runs on the stored fields. */
  function New(startingBalance: real, interestRate: real, years: Int32,
               compoundingCadence: string := "Monthly"): (r: Result<SavingsCalcReq, Fault>)
    ensures !IsSupported(Some(compoundingCadence)) ==> r == Failure(Argument("cadence"))
    ensures r.Success? <==>
      IsSupported(Some(compoundingCadence)) && startingBalance >= 0.0 && interestRate >= 0.0 && 0 <= years < 100
    ensures IsSupported(Some(compoundingCadence)) && startingBalance < 0.0 ==>
      r == Failure(ArgumentOutOfRange("StartingBalance"))
    ensures IsSupported(Some(compoundingCadence)) && startingBalance >= 0.0 && interestRate < 0.0 ==>
      r == Failure(ArgumentOutOfRange("InterestRate"))
    ensures IsSupported(Some(compoundingCadence)) && startingBalance >= 0.0 && interestRate >= 0.0
            && !(0 <= years < 100) ==>
      r == Failure(ArgumentOutOfRange("Years"))
    ensures r.Success? ==>
      r.value.Valid()
      && r.value.StartingBalance == startingBalance && r.value.InterestRate == interestRate
      && r.value.Years == years
      && NormalizeName(compoundingCadence) == Success(r.value.CompoundingCadence)
      && Text.EqualsIgnoreCase(r.value.CompoundingCadence, compoundingCadence)
  {
    match NormalizeName(compoundingCadence)
    case Failure(e) => Failure(e)
    case Success(cadence) =>
      var request := SavingsCalcReq(startingBalance, interestRate, years, cadence);
      match Validate(request)
      case Fail(e) => Failure(e)
      case Pass => Success(request)
  }

  /** Without a cadence argument the request compounds monthly. */
  lemma DefaultCadenceIsMonthly(startingBalance: real, interestRate: real, years: Int32)
    requires startingBalance >= 0.0 && interestRate >= 0.0 && 0 <= years < 100
    ensures New(startingBalance, interestRate, years)
         == Success(SavingsCalcReq(startingBalance, interestRate, years, "Monthly"))
  {
    CanonicalNamesAreFixedPoints("Monthly");
  }

  /** Any spelling of a supported cadence is stored in its table spelling:
      "monthly" becomes "Monthly". */
  lemma CadenceIsStoredCanonically()
    ensures New(100.0, 5.0, 5, "monthly") == Success(SavingsCalcReq(100.0, 5.0, 5, "Monthly"))
  {
    LowerCaseIsSupported();
  }
}
