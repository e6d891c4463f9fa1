/** The compound-interest response record (CompoundCalc/Models/Responses/CalculationResult.cs). */
module CalculationResults {
  import opened Decimals
  import opened Integers

  datatype CalculationResult = CalculationResult(
    StartingPrincipal: real,
    AnnualRatePercent: real,
    CompoundingCadence: string,
    DurationYears: Int32,
    EndingBalance: real,
    CurrencyDisplay: string,
    CalculationVersion: string)

  /** The factory: the ending balance is rounded half-to-even to cents, the
      display is the formatter applied to that rounded value, and every other
      argument is stored as given. */
  function Create(
    startingPrincipal: real,
    annualRatePercent: real,
    compoundingCadence: string,
    durationYears: Int32,
    endingBalance: real,
    currencyFormatter: real -> string,
    calculationVersion: string): (r: CalculationResult)
    ensures IsCents(r.EndingBalance) && -0.005 <= r.EndingBalance - endingBalance <= 0.005
    ensures r.EndingBalance * 100.0 == RoundHalfEven(endingBalance * 100.0) as real
    ensures r.CurrencyDisplay == currencyFormatter(r.EndingBalance)
    ensures r.StartingPrincipal == startingPrincipal && r.AnnualRatePercent == annualRatePercent
    ensures r.CompoundingCadence == compoundingCadence && r.DurationYears == durationYears
    ensures r.CalculationVersion == calculationVersion
  {
    var roundedEndingBalance := Round2(endingBalance);
    CalculationResult(
      StartingPrincipal := startingPrincipal,
      AnnualRatePercent := annualRatePercent,
      CompoundingCadence := compoundingCadence,
      DurationYears := durationYears,
      EndingBalance := roundedEndingBalance,
      CurrencyDisplay := currencyFormatter(roundedEndingBalance),
      CalculationVersion := calculationVersion)
  }

  /** A balance that already has two decimals is stored unchanged. */
  lemma CreateKeepsCentExactBalance(
    startingPrincipal: real, annualRatePercent: real, compoundingCadence: string,
    durationYears: Int32, endingBalance: real, currencyFormatter: real -> string,
    calculationVersion: string)
    requires IsCents(endingBalance)
    ensures Create(startingPrincipal, annualRatePercent, compoundingCadence, durationYears,
                   endingBalance, currencyFormatter, calculationVersion).EndingBalance == endingBalance
    ensures Create(startingPrincipal, annualRatePercent, compoundingCadence, durationYears,
                   endingBalance, currencyFormatter, calculationVersion).CurrencyDisplay
         == currencyFormatter(endingBalance)
  {
    Round2Idempotent(endingBalance);
  }

  /** Building a result again from the fields of a result gives that result
      back: the factory is idempotent. */
  lemma CreateIsIdempotent(
    startingPrincipal: real, annualRatePercent: real, compoundingCadence: string,
    durationYears: Int32, endingBalance: real, currencyFormatter: real -> string,
    calculationVersion: string)
    ensures var r := Create(startingPrincipal, annualRatePercent, compoundingCadence, durationYears,
                            endingBalance, currencyFormatter, calculationVersion);
            Create(r.StartingPrincipal, r.AnnualRatePercent, r.CompoundingCadence, r.DurationYears,
                   r.EndingBalance, currencyFormatter, r.CalculationVersion) == r
  {
    Round2Idempotent(Round2(endingBalance));
  }

  /** A half-cent tie goes to the even cent: 0.125 is stored as 0.12 and
      0.135 as 0.14. */
  lemma CreateRoundsTiesToEven(currencyFormatter: real -> string)
    ensures Create(0.0, 0.0, "Annual", 0, 0.125, currencyFormatter, "v1.0").EndingBalance == 0.12
    ensures Create(0.0, 0.0, "Annual", 0, 0.135, currencyFormatter, "v1.0").EndingBalance == 0.14
  {
    RoundHalfEvenUnique(12.5, 12);
    RoundHalfEvenUnique(13.5, 14);
  }
}
