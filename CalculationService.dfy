/** The compound-interest engine (CompoundCalc/Services/CalculationService.cs). */
module CalculationService {
  import opened Wrappers
  import opened Faults
  import opened Decimals
  import opened Integers
  import opened CompoundingCadenceOptions
  import Conversions
  import Text
  import opened CalculationResults
  import opened InterestCalcReqs

  const DefaultCalculationVersion := "v1.0"

  /** Periods per year of a canonical cadence name: the count its table
      entry lists. */
  function PeriodsPerYear(cadence: CadenceName): (n: int)
    ensures n in {1, 2, 4, 12}
    ensures forall i | 0 <= i < |Schedules| && Schedules[i].Name == cadence :: n == Schedules[i].PeriodsPerYear
    ensures GetPeriodsPerYear(cadence) == Success(n)
  {
    CadenceNameResolves(cadence);
    Text.EqualsIgnoreCaseIsEquivalence(cadence, cadence, cadence);
    GetPeriodsPerYear(cadence).value
  }

  /** How often `for (period = 0; period < totalPeriods; period++)` runs. */
  function Runs(totalPeriods: Int32): nat {
    if totalPeriods > 0 then totalPeriods else 0
  }

  /** How often the period loop runs: `years * periodsPerYear` is computed in
      32-bit `int` arithmetic. */
  function LoopCount(years: Int32, periodsPerYear: int): nat {
    Runs(Wrap(years * periodsPerYear))
  }

  /** The rate applied once per period: the annual percentage as a fraction,
      divided by the number of periods in a year. */
  function RatePerPeriod(annualRatePercent: real, periodsPerYear: int): real
    requires periodsPerYear >= 1
  {
    Conversions.ConvertPercentageToDecimal(annualRatePercent) / periodsPerYear as real
  }

  /** The balance after `periods` runs of `balance += balance * ratePerPeriod`,
      one run at a time. */
  function Accrue(principal: real, ratePerPeriod: real, periods: nat): real {
    if periods == 0 then principal
    else
      var previous := Accrue(principal, ratePerPeriod, periods - 1);
      previous + Interest(previous, ratePerPeriod)
  }

  /** The unrounded ending balance the engine computes for a request. */
  function EndingBalance(principal: real, annualRatePercent: real, years: Int32, periodsPerYear: int): real
    requires periodsPerYear >= 1
  {
    Accrue(principal, RatePerPeriod(annualRatePercent, periodsPerYear), LoopCount(years, periodsPerYear))
  }

  /** One more period multiplies the closed form by one more factor. */
  lemma GrowOnePeriod(principal: real, ratePerPeriod: real, period: nat, balance: real)
    requires balance == principal * Pow(1.0 + ratePerPeriod, period)
    ensures balance + balance * ratePerPeriod == principal * Pow(1.0 + ratePerPeriod, period + 1)
  {
    var p := Pow(1.0 + ratePerPeriod, period);
    assert Pow(1.0 + ratePerPeriod, period + 1) == (1.0 + ratePerPeriod) * p;
    calc {
      balance + balance * ratePerPeriod;
      principal * p * (1.0 + ratePerPeriod);
      principal * ((1.0 + ratePerPeriod) * p);
    }
  }

  /** The loop computes compound interest in closed form:
      `principal * (1 + ratePerPeriod)^periods`. */
  lemma {:induction false} AccrueClosedForm(principal: real, ratePerPeriod: real, periods: nat)
    ensures Accrue(principal, ratePerPeriod, periods) == principal * Pow(1.0 + ratePerPeriod, periods)
    decreases periods
  {
    if periods > 0 {
      AccrueClosedForm(principal, ratePerPeriod, periods - 1);
      GrowOnePeriod(principal, ratePerPeriod, periods - 1, Accrue(principal, ratePerPeriod, periods - 1));
    }
  }

  /** With a non-negative principal and rate the balance never falls below
      the principal, and each further period can only add to it. */
  lemma {:induction false} AccrueNeverShrinks(principal: real, ratePerPeriod: real, periods: nat)
    requires principal >= 0.0 && ratePerPeriod >= 0.0
    ensures Accrue(principal, ratePerPeriod, periods) >= principal
    ensures Accrue(principal, ratePerPeriod, periods + 1) >= Accrue(principal, ratePerPeriod, periods)
    decreases periods
  {
    if periods > 0 {
      AccrueNeverShrinks(principal, ratePerPeriod, periods - 1);
    }
    var b := Accrue(principal, ratePerPeriod, periods);
    assert b >= 0.0;
    assert b * ratePerPeriod >= 0.0;
  }

  /** One period's interest, `balance * ratePerPeriod`. */
  function Interest(balance: real, ratePerPeriod: real): real {
    balance * ratePerPeriod
  }

  /** Whether one pass `balance += balance * ratePerPeriod` stays inside
      decimal's range: both the product and the sum must. */
  predicate PassFits(balance: real, ratePerPeriod: real) {
    InRange(Interest(balance, ratePerPeriod)) && InRange(balance + Interest(balance, ratePerPeriod))
  }

  /** `periods` passes in decimal arithmetic: the first pass whose product or
      sum leaves decimal's range throws `OverflowException`. */
  function AccrueChecked(principal: real, ratePerPeriod: real, periods: nat): Result<real, Fault> {
    if periods == 0 then Success(principal)
    else
      match AccrueChecked(principal, ratePerPeriod, periods - 1)
      case Failure(e) => Failure(e)
      case Success(previous) =>
        if PassFits(previous, ratePerPeriod) then Success(previous + Interest(previous, ratePerPeriod))
        else Failure(Overflow)
  }

  /** Every one of the first `periods` passes stays in range. */
  predicate AllPassesFit(principal: real, ratePerPeriod: real, periods: nat) {
    forall k | 0 <= k < periods :: PassFits(Accrue(principal, ratePerPeriod, k), ratePerPeriod)
  }

  /** The passes in decimal arithmetic give the exact balance when every pass
      stays in range, and `OverflowException` otherwise. */
  lemma {:induction false} AccrueCheckedMeaning(principal: real, ratePerPeriod: real, periods: nat)
    ensures AccrueChecked(principal, ratePerPeriod, periods)
         == if AllPassesFit(principal, ratePerPeriod, periods)
            then Success(Accrue(principal, ratePerPeriod, periods))
            else Failure(Overflow)
    decreases periods
  {
    if periods > 0 {
      var n := periods - 1;
      AccrueCheckedMeaning(principal, ratePerPeriod, n);
      assert AllPassesFit(principal, ratePerPeriod, periods)
         <==> AllPassesFit(principal, ratePerPeriod, n) && PassFits(Accrue(principal, ratePerPeriod, n), ratePerPeriod);
    }
  }

  /** Once a pass has overflowed, later periods end in the same exception. */
  lemma OverflowPersists(principal: real, ratePerPeriod: real, k: nat, n: nat)
    requires k <= n && AccrueChecked(principal, ratePerPeriod, k).Failure?
    ensures AccrueChecked(principal, ratePerPeriod, n) == Failure(Overflow)
  {
    AccrueCheckedMeaning(principal, ratePerPeriod, k);
    AccrueCheckedMeaning(principal, ratePerPeriod, n);
  }

  /** With a non-negative principal and rate, a later balance is never
      smaller than an earlier one. */
  lemma {:induction false} AccrueMonotone(principal: real, ratePerPeriod: real, m: nat, n: nat)
    requires principal >= 0.0 && ratePerPeriod >= 0.0 && m <= n
    ensures Accrue(principal, ratePerPeriod, m) <= Accrue(principal, ratePerPeriod, n)
    decreases n
  {
    if m < n {
      AccrueMonotone(principal, ratePerPeriod, m, n - 1);
      AccrueNeverShrinks(principal, ratePerPeriod, n - 1);
    }
  }

  /** For a principal decimal can hold and a non-negative rate, the loop
      overflows exactly when the exact ending balance exceeds
      `decimal.MaxValue`; otherwise it computes that balance. */
  lemma OverflowExactlyWhenBalanceExceedsRange(principal: real, ratePerPeriod: real, periods: nat)
    requires 0.0 <= principal <= MaxValue && ratePerPeriod >= 0.0
    ensures AccrueChecked(principal, ratePerPeriod, periods)
         == if Accrue(principal, ratePerPeriod, periods) <= MaxValue
            then Success(Accrue(principal, ratePerPeriod, periods))
            else Failure(Overflow)
  {
    AccrueCheckedMeaning(principal, ratePerPeriod, periods);
    AccrueNeverShrinks(principal, ratePerPeriod, periods);
    if Accrue(principal, ratePerPeriod, periods) <= MaxValue {
      assert AllPassesFit(principal, ratePerPeriod, periods) by {
        forall k | 0 <= k < periods
          ensures PassFits(Accrue(principal, ratePerPeriod, k), ratePerPeriod)
        {
          var b := Accrue(principal, ratePerPeriod, k);
          AccrueNeverShrinks(principal, ratePerPeriod, k);
          AccrueMonotone(principal, ratePerPeriod, k + 1, periods);
          assert Interest(b, ratePerPeriod) >= 0.0;
        }
      }
    } else if periods > 0 {
      assert !PassFits(Accrue(principal, ratePerPeriod, periods - 1), ratePerPeriod);
    }
  }

  /** The period loop `for (period = 0; period < totalPeriods; period++)
      balance += balance * ratePerPeriod;` on its own, in decimal
      arithmetic: it makes `totalPeriods` passes when that is positive and
      none otherwise, and stops with `OverflowException` at the first pass
      that leaves decimal's range. */
  method AccrueInterest(principal: real, ratePerPeriod: real, totalPeriods: Int32) returns (r: Result<real, Fault>)
    ensures r == AccrueChecked(principal, ratePerPeriod, Runs(totalPeriods))
  {
    var balance := principal;
    var period := 0;
    while period < totalPeriods
      invariant 0 <= period <= Runs(totalPeriods)
      invariant AccrueChecked(principal, ratePerPeriod, period) == Success(balance)
    {
      var interest := Interest(balance, ratePerPeriod);
      if !InRange(interest) {
        OverflowPersists(principal, ratePerPeriod, period + 1, Runs(totalPeriods));
        return Failure(Overflow);
      }
      var next := balance + interest;
      if !InRange(next) {
        OverflowPersists(principal, ratePerPeriod, period + 1, Runs(totalPeriods));
        return Failure(Overflow);
      }
      assert PassFits(balance, ratePerPeriod);
      assert AccrueChecked(principal, ratePerPeriod, period + 1) == Success(next);
      balance := next;
      period := period + 1;
    }
    return Success(balance);
  }

  /** The ending balance as the engine's decimal loop computes it. */
  function CheckedEndingBalance(principal: real, annualRatePercent: real, years: Int32, periodsPerYear: int): Result<real, Fault>
    requires periodsPerYear >= 1
  {
    AccrueChecked(principal, RatePerPeriod(annualRatePercent, periodsPerYear), LoopCount(years, periodsPerYear))
  }

  /** A null request fails before any work. Otherwise the cadence's period
      count and the per-period rate are derived and the loop runs; an
      overflow in the loop propagates, and a finished loop's balance goes to
      the result factory, which rounds it and echoes the request. The request
      is only read: the method modifies nothing. */
  method CalculateCompoundInterest(request: InterestCalcReq?) returns (r: Result<CalculationResult, Fault>)
    ensures request == null ==> r == Failure(ArgumentNull("request"))
    ensures request != null ==>
      match CheckedEndingBalance(request.StartingBalance, request.InterestRate, request.Years,
                                 PeriodsPerYear(request.CompoundingCadence))
      case Failure(e) => r == Failure(e)
      case Success(balance) =>
        r == Success(Create(request.StartingBalance, request.InterestRate, request.CompoundingCadence,
                            request.Years, balance, Conversions.ConvertDecimalToCurrency, DefaultCalculationVersion))
  {
    if request == null {
      return Failure(ArgumentNull("request"));
    }
    var principal := request.StartingBalance;
    var cadenceName := request.CompoundingCadence;
    var periodsPerYear := PeriodsPerYear(cadenceName);
    var ratePerPeriod := RatePerPeriod(request.InterestRate, periodsPerYear);
    var totalPeriods: Int32 := Wrap(request.Years * periodsPerYear);

    var balance := AccrueInterest(principal, ratePerPeriod, totalPeriods);
    if balance.Failure? {
      return Failure(balance.error);
    }

    return Success(Create(
      principal, request.InterestRate, cadenceName, request.Years, balance.value,
      Conversions.ConvertDecimalToCurrency, DefaultCalculationVersion));
  }

  /** For a principal decimal can hold and a non-negative rate, the engine
      throws `OverflowException` exactly when the exact ending balance
      exceeds `decimal.MaxValue`, and otherwise ends with that balance. */
  lemma CheckedEndingBalanceMeaning(principal: real, annualRatePercent: real, years: Int32, periodsPerYear: int)
    requires periodsPerYear >= 1 && 0.0 <= principal <= MaxValue && annualRatePercent >= 0.0
    ensures CheckedEndingBalance(principal, annualRatePercent, years, periodsPerYear)
         == if EndingBalance(principal, annualRatePercent, years, periodsPerYear) <= MaxValue
            then Success(EndingBalance(principal, annualRatePercent, years, periodsPerYear))
            else Failure(Overflow)
  {
    var a := Conversions.ConvertPercentageToDecimal(annualRatePercent);
    assert a >= 0.0;
    OverflowExactlyWhenBalanceExceedsRange(principal, RatePerPeriod(annualRatePercent, periodsPerYear),
                                           LoopCount(years, periodsPerYear));
  }

  /** At 100% compounded annually the balance doubles every year: from
      10,000,000, which both request validators accept, any term of 73 years
      or more (they accept up to 99) passes `decimal.MaxValue`, and the
      engine throws `OverflowException`. */
  lemma DoublingPastDecimalRange(principal: real, years: Int32)
    requires 10_000_000.0 <= principal <= MaxValue && 73 <= years
    ensures CheckedEndingBalance(principal, 100.0, years, 1) == Failure(Overflow)
  {
    EndingBalanceIsCompoundFormula(principal, 100.0, years, 1);
    assert 1.0 + 100.0 / (100.0 * 1 as real) == 2.0 && years * 1 == years;
    var growth := Pow(2.0, years);
    assert EndingBalance(principal, 100.0, years, 1) == principal * growth;
    SeventyThreeDoublings();
    PowMonotoneInExponent(2.0, 73, years);
    assert (principal - 10_000_000.0) * growth >= 0.0;
    assert principal * growth >= 10_000_000.0 * growth;
    CheckedEndingBalanceMeaning(principal, 100.0, years, 1);
  }

  /** 2^73, computed by adding exponents. */
  lemma SeventyThreeDoublings()
    ensures Pow(2.0, 73) == 9_444_732_965_739_290_427_392.0
  {
    assert Pow(2.0, 10) == 1024.0;
    assert Pow(2.0, 3) == 8.0;
    PowAdd(2.0, 10, 10);
    PowAdd(2.0, 20, 20);
    PowAdd(2.0, 10, 3);
    PowAdd(2.0, 20, 13);
    PowAdd(2.0, 40, 33);
  }

  /** A request of zero years skips the loop: the balance is the principal. */
  lemma EndingBalanceOfZeroYears(principal: real, annualRatePercent: real, periodsPerYear: int)
    requires periodsPerYear >= 1
    ensures EndingBalance(principal, annualRatePercent, 0, periodsPerYear) == principal
  {
    WrapIsCongruent(0);
  }

  /** When `years * periodsPerYear` fits in an `int`, the engine computes the
      textbook compound-interest formula
      `principal * (1 + rate / (100 * periodsPerYear))^(years * periodsPerYear)`,
      with the per-period rate written as a single division. */
  lemma EndingBalanceIsCompoundFormula(principal: real, annualRatePercent: real, years: Int32, periodsPerYear: int)
    requires periodsPerYear >= 1 && 0 <= years * periodsPerYear < 0x8000_0000
    ensures EndingBalance(principal, annualRatePercent, years, periodsPerYear)
         == principal * Pow(1.0 + annualRatePercent / (100.0 * periodsPerYear as real), years * periodsPerYear)
  {
    WrapIsCongruent(years * periodsPerYear);
    assert LoopCount(years, periodsPerYear) == years * periodsPerYear;
    var ppy := periodsPerYear as real;
    assert RatePerPeriod(annualRatePercent, periodsPerYear) == annualRatePercent / (100.0 * ppy) by {
      var a := Conversions.ConvertPercentageToDecimal(annualRatePercent);
      assert a * 100.0 == annualRatePercent;
      assert a / ppy * (100.0 * ppy) == a * 100.0;
    }
    AccrueClosedForm(principal, RatePerPeriod(annualRatePercent, periodsPerYear), years * periodsPerYear);
  }

  /** Every request the constructor accepts has at most 99 years, so the
      period count never wraps and the loop runs `years * periodsPerYear`
      times. */
  lemma ValidRequestsDoNotWrap(years: Int32, cadence: CadenceName)
    requires 0 <= years < 100
    ensures LoopCount(years, PeriodsPerYear(cadence)) == years * PeriodsPerYear(cadence)
  {
    WrapIsCongruent(years * PeriodsPerYear(cadence));
  }

  /** A year count assigned after construction is not checked again: at
      200,000,000 years compounded monthly the period count wraps to a
      negative `int` and the loop does not run at all. */
  lemma WrappedPeriodCountSkipsLoop(principal: real, annualRatePercent: real)
    ensures LoopCount(200_000_000, 12) == 0
    ensures EndingBalance(principal, annualRatePercent, 200_000_000, 12) == principal
  {
    WrapOverflowExample();
  }

  /** With a non-negative principal and rate the ending balance is at least
      the principal, and a longer term never gives less. */
  lemma EndingBalanceAtLeastPrincipal(principal: real, annualRatePercent: real, years: Int32, periodsPerYear: int)
    requires principal >= 0.0 && annualRatePercent >= 0.0 && periodsPerYear >= 1
    ensures EndingBalance(principal, annualRatePercent, years, periodsPerYear) >= principal
  {
    var a := Conversions.ConvertPercentageToDecimal(annualRatePercent);
    assert a >= 0.0;
    assert RatePerPeriod(annualRatePercent, periodsPerYear) >= 0.0;
    AccrueNeverShrinks(principal, RatePerPeriod(annualRatePercent, periodsPerYear), LoopCount(years, periodsPerYear));
  }

  /** 10,000 at 5.5% compounded annually for ten years: 17,081.4445... is
      stored as 17,081.44 and shown as "$17,081.44". */
  lemma TenYearsAtFiveAndAHalfPercent()
    ensures var r := Create(10000.0, 5.5, "Annual", 10, EndingBalance(10000.0, 5.5, 10, 1),
                            Conversions.ConvertDecimalToCurrency, DefaultCalculationVersion);
            r.EndingBalance == 17081.44 && r.CurrencyDisplay == "$17,081.44"
    ensures EndingBalance(10000.0, 5.5, 10, 1) < 17082.0
  {
    WrapIsCongruent(10);
    var exact := Accrue(10000.0, 0.055, 10);
    assert EndingBalance(10000.0, 5.5, 10, 1) == exact;
    assert Accrue(10000.0, 0.055, 1) == 10550.0;
    assert Accrue(10000.0, 0.055, 2) == 11130.25;
    assert Accrue(10000.0, 0.055, 3) == 11742.41375;
    assert Accrue(10000.0, 0.055, 4) == 12388.24650625;
    assert Accrue(10000.0, 0.055, 5) == 13069.60006409375;
    assert Accrue(10000.0, 0.055, 6) == 13788.42806761890625;
    assert Accrue(10000.0, 0.055, 7) == 14546.79161133794609375;
    assert Accrue(10000.0, 0.055, 8) == 15346.86514996153312890625;
    assert Accrue(10000.0, 0.055, 9) == 16190.94273320941745099609375;
    assert Accrue(10000.0, 0.055, 10) == 17081.44458353593541080087890625;
    RoundHalfEvenUnique(exact * 100.0, 1708144);
    assert Round2(exact) == 17081.44;
    assert RoundHalfAwayFromZero(17081.44 * 100.0) == 1708144;
    Conversions.FormatCentsExampleTenYears();
  }

  /** 1,000 at 5% compounded annually for ten years is shown as "$1,628.89". */
  lemma TenYearsAtFivePercent()
    ensures Create(1000.0, 5.0, "Annual", 10, EndingBalance(1000.0, 5.0, 10, 1),
                   Conversions.ConvertDecimalToCurrency, DefaultCalculationVersion).CurrencyDisplay
         == "$1,628.89"
  {
    WrapIsCongruent(10);
    var exact := Accrue(1000.0, 0.05, 10);
    assert EndingBalance(1000.0, 5.0, 10, 1) == exact;
    assert Accrue(1000.0, 0.05, 1) == 1050.0;
    assert Accrue(1000.0, 0.05, 2) == 1102.5;
    assert Accrue(1000.0, 0.05, 3) == 1157.625;
    assert Accrue(1000.0, 0.05, 4) == 1215.50625;
    assert Accrue(1000.0, 0.05, 5) == 1276.2815625;
    assert Accrue(1000.0, 0.05, 6) == 1340.095640625;
    assert Accrue(1000.0, 0.05, 7) == 1407.10042265625;
    assert Accrue(1000.0, 0.05, 8) == 1477.4554437890625;
    assert Accrue(1000.0, 0.05, 9) == 1551.328215978515625;
    assert Accrue(1000.0, 0.05, 10) == 1628.89462677744140625;
    RoundHalfEvenUnique(exact * 100.0, 162889);
    assert Round2(exact) == 1628.89;
    assert RoundHalfAwayFromZero(1628.89 * 100.0) == 162889;
    Conversions.FormatCentsExampleTenYearsAtFive();
  }

  /** A request built through the constructor and passed to the engine:
      10,000 at 5.5% for ten years with the default annual cadence shows
      "$17,081.44". */
  method TenYearsEndToEnd() returns (display: string)
    ensures display == "$17,081.44"
  {
    CadenceNameResolves("Annual");
    CanonicalNamesAreFixedPoints("Annual");
    var request := InterestCalcReq.New(10000.0, 5.5, 10, 0.0);
    if request.Failure? {
      assert false;
      return "";
    }
    var result := CalculateCompoundInterest(request.value);
    TenYearsAtFiveAndAHalfPercent();
    CheckedEndingBalanceMeaning(10000.0, 5.5, 10, 1);
    assert request.value.StartingBalance == 10000.0;
    display := result.value.CurrencyDisplay;
  }
}
