/** The debt-payoff response record (CompoundCalc/Models/Responses/DebtPayoffResult.cs). */
module DebtPayoffResults {
  import opened Decimals
  import opened Integers

  datatype DebtPayoffResult = DebtPayoffResult(
    StartingDebt: real,
    MonthlyPayment: real,
    MonthlyRatePercent: real,
    MinimumPaymentRequired: real,
    MinimumPaymentDisplay: string,
    MonthsToPayoff: Int32,
    TotalPaid: real,
    TotalInterestPaid: real,
    TotalPaidDisplay: string,
    TotalInterestDisplay: string,
    CalculationVersion: string)

  /** The factory: the total paid, the total interest and the minimum payment
      are each rounded half-to-even to cents, each display is the formatter
      applied to its own rounded value, and the rest is stored as given. */
  function Create(
    startingDebt: real,
    monthlyPayment: real,
    monthlyRatePercent: real,
    minimumPaymentRequired: real,
    monthsToPayoff: Int32,
    totalPaid: real,
    totalInterestPaid: real,
    currencyFormatter: real -> string,
    calculationVersion: string): (r: DebtPayoffResult)
    ensures IsCents(r.TotalPaid) && -0.005 <= r.TotalPaid - totalPaid <= 0.005
    ensures IsCents(r.TotalInterestPaid) && -0.005 <= r.TotalInterestPaid - totalInterestPaid <= 0.005
    ensures IsCents(r.MinimumPaymentRequired) && -0.005 <= r.MinimumPaymentRequired - minimumPaymentRequired <= 0.005
    ensures r.TotalPaid * 100.0 == RoundHalfEven(totalPaid * 100.0) as real
    ensures r.TotalInterestPaid * 100.0 == RoundHalfEven(totalInterestPaid * 100.0) as real
    ensures r.MinimumPaymentRequired * 100.0 == RoundHalfEven(minimumPaymentRequired * 100.0) as real
    ensures r.MinimumPaymentDisplay == currencyFormatter(r.MinimumPaymentRequired)
    ensures r.TotalPaidDisplay == currencyFormatter(r.TotalPaid)
    ensures r.TotalInterestDisplay == currencyFormatter(r.TotalInterestPaid)
    ensures r.StartingDebt == startingDebt && r.MonthlyPayment == monthlyPayment
    ensures r.MonthlyRatePercent == monthlyRatePercent && r.MonthsToPayoff == monthsToPayoff
    ensures r.CalculationVersion == calculationVersion
  {
    var roundedTotalPaid := Round2(totalPaid);
    var roundedTotalInterest := Round2(totalInterestPaid);
    var roundedMinimumPayment := Round2(minimumPaymentRequired);
    DebtPayoffResult(
      StartingDebt := startingDebt,
      MonthlyPayment := monthlyPayment,
      MonthlyRatePercent := monthlyRatePercent,
      MinimumPaymentRequired := roundedMinimumPayment,
      MinimumPaymentDisplay := currencyFormatter(roundedMinimumPayment),
      MonthsToPayoff := monthsToPayoff,
      TotalPaid := roundedTotalPaid,
      TotalInterestPaid := roundedTotalInterest,
      TotalPaidDisplay := currencyFormatter(roundedTotalPaid),
      TotalInterestDisplay := currencyFormatter(roundedTotalInterest),
      CalculationVersion := calculationVersion)
  }

  /** Amounts that already have two decimals are stored unchanged; the
      starting debt and the payment are never rounded, even when they have
      more decimals. */
  lemma CreateKeepsCentExactAmounts(
    startingDebt: real, monthlyPayment: real, monthlyRatePercent: real,
    minimumPaymentRequired: real, monthsToPayoff: Int32, totalPaid: real,
    totalInterestPaid: real, currencyFormatter: real -> string, calculationVersion: string)
    requires IsCents(minimumPaymentRequired) && IsCents(totalPaid) && IsCents(totalInterestPaid)
    ensures var r := Create(startingDebt, monthlyPayment, monthlyRatePercent, minimumPaymentRequired,
                            monthsToPayoff, totalPaid, totalInterestPaid, currencyFormatter, calculationVersion);
            r.MinimumPaymentRequired == minimumPaymentRequired && r.TotalPaid == totalPaid
            && r.TotalInterestPaid == totalInterestPaid
  {
    Round2Idempotent(minimumPaymentRequired);
    Round2Idempotent(totalPaid);
    Round2Idempotent(totalInterestPaid);
  }

  /** Building a result again from the fields of a result gives that result
      back: the factory is idempotent. */
  lemma CreateIsIdempotent(
    startingDebt: real, monthlyPayment: real, monthlyRatePercent: real,
    minimumPaymentRequired: real, monthsToPayoff: Int32, totalPaid: real,
    totalInterestPaid: real, currencyFormatter: real -> string, calculationVersion: string)
    ensures var r := Create(startingDebt, monthlyPayment, monthlyRatePercent, minimumPaymentRequired,
                            monthsToPayoff, totalPaid, totalInterestPaid, currencyFormatter, calculationVersion);
            Create(r.StartingDebt, r.MonthlyPayment, r.MonthlyRatePercent, r.MinimumPaymentRequired,
                   r.MonthsToPayoff, r.TotalPaid, r.TotalInterestPaid, currencyFormatter,
                   r.CalculationVersion) == r
  {
    Round2Idempotent(Round2(minimumPaymentRequired));
    Round2Idempotent(Round2(totalPaid));
    Round2Idempotent(Round2(totalInterestPaid));
  }
}
