/** The mortgage-estimate response record (CompoundCalc/Models/Responses/MortgageResult.cs). */
module MortgageResults {
  import opened Decimals
  import opened Integers

  datatype MortgageResult = MortgageResult(
    HomePrice: real,
    DownPayment: real,
    LoanAmount: real,
    AnnualRatePercent: real,
    TermYears: Int32,
    MonthlyPrincipalAndInterest: real,
    MonthlyPropertyTax: real,
    MonthlyPmi: real,
    MonthlyTotalPayment: real,
    TotalPaid: real,
    TotalInterest: real,
    LoanAmountDisplay: string,
    MonthlyPrincipalAndInterestDisplay: string,
    MonthlyPropertyTaxDisplay: string,
    MonthlyPmiDisplay: string,
    MonthlyTotalPaymentDisplay: string,
    TotalPaidDisplay: string,
    TotalInterestDisplay: string,
    CalculationVersion: string)

  /** `rounded` is what `Math.Round(raw, 2, MidpointRounding.ToEven)` gives. */
  predicate RoundedFrom(rounded: real, raw: real) {
    IsCents(rounded) && -0.005 <= rounded - raw <= 0.005
    && rounded * 100.0 == RoundHalfEven(raw * 100.0) as real
  }

  /** The factory: the seven money amounts are each rounded half-to-even to
      cents on their own, each display is the formatter applied to its own
      rounded amount, and the price, down payment, rate, term and version are
      stored as given. */
  function Create(
    homePrice: real,
    downPayment: real,
    loanAmount: real,
    annualRatePercent: real,
    termYears: Int32,
    monthlyPrincipalAndInterest: real,
    monthlyPropertyTax: real,
    monthlyPmi: real,
    monthlyTotalPayment: real,
    totalPaid: real,
    totalInterest: real,
    currencyFormatter: real -> string,
    calculationVersion: string): (r: MortgageResult)
    ensures RoundedFrom(r.LoanAmount, loanAmount)
    ensures RoundedFrom(r.MonthlyPrincipalAndInterest, monthlyPrincipalAndInterest)
    ensures RoundedFrom(r.MonthlyPropertyTax, monthlyPropertyTax)
    ensures RoundedFrom(r.MonthlyPmi, monthlyPmi)
    ensures RoundedFrom(r.MonthlyTotalPayment, monthlyTotalPayment)
    ensures RoundedFrom(r.TotalPaid, totalPaid)
    ensures RoundedFrom(r.TotalInterest, totalInterest)
    ensures r.LoanAmountDisplay == currencyFormatter(r.LoanAmount)
    ensures r.MonthlyPrincipalAndInterestDisplay == currencyFormatter(r.MonthlyPrincipalAndInterest)
    ensures r.MonthlyPropertyTaxDisplay == currencyFormatter(r.MonthlyPropertyTax)
    ensures r.MonthlyPmiDisplay == currencyFormatter(r.MonthlyPmi)
    ensures r.MonthlyTotalPaymentDisplay == currencyFormatter(r.MonthlyTotalPayment)
    ensures r.TotalPaidDisplay == currencyFormatter(r.TotalPaid)
    ensures r.TotalInterestDisplay == currencyFormatter(r.TotalInterest)
    ensures r.HomePrice == homePrice && r.DownPayment == downPayment
    ensures r.AnnualRatePercent == annualRatePercent && r.TermYears == termYears
    ensures r.CalculationVersion == calculationVersion
  {
    var roundedLoanAmount := Round2(loanAmount);
    var roundedMonthlyPrincipalAndInterest := Round2(monthlyPrincipalAndInterest);
    var roundedMonthlyPropertyTax := Round2(monthlyPropertyTax);
    var roundedMonthlyPmi := Round2(monthlyPmi);
    var roundedMonthlyTotal := Round2(monthlyTotalPayment);
    var roundedTotalPaid := Round2(totalPaid);
    var roundedTotalInterest := Round2(totalInterest);
    MortgageResult(
      HomePrice := homePrice,
      DownPayment := downPayment,
      LoanAmount := roundedLoanAmount,
      AnnualRatePercent := annualRatePercent,
      TermYears := termYears,
      MonthlyPrincipalAndInterest := roundedMonthlyPrincipalAndInterest,
      MonthlyPropertyTax := roundedMonthlyPropertyTax,
      MonthlyPmi := roundedMonthlyPmi,
      MonthlyTotalPayment := roundedMonthlyTotal,
      TotalPaid := roundedTotalPaid,
      TotalInterest := roundedTotalInterest,
      LoanAmountDisplay := currencyFormatter(roundedLoanAmount),
      MonthlyPrincipalAndInterestDisplay := currencyFormatter(roundedMonthlyPrincipalAndInterest),
      MonthlyPropertyTaxDisplay := currencyFormatter(roundedMonthlyPropertyTax),
      MonthlyPmiDisplay := currencyFormatter(roundedMonthlyPmi),
      MonthlyTotalPaymentDisplay := currencyFormatter(roundedMonthlyTotal),
      TotalPaidDisplay := currencyFormatter(roundedTotalPaid),
      TotalInterestDisplay := currencyFormatter(roundedTotalInterest),
      CalculationVersion := calculationVersion)
  }

  /** The stored monthly total is the raw total rounded on its own. When the
      raw total is the sum of the raw parts, it stays within two cents of the
      sum of the rounded parts. */
  lemma MonthlyTotalNearSumOfRoundedParts(
    homePrice: real, downPayment: real, loanAmount: real, annualRatePercent: real,
    termYears: Int32, monthlyPrincipalAndInterest: real, monthlyPropertyTax: real,
    monthlyPmi: real, totalPaid: real, totalInterest: real,
    currencyFormatter: real -> string, calculationVersion: string)
    ensures var r := Create(homePrice, downPayment, loanAmount, annualRatePercent, termYears,
                            monthlyPrincipalAndInterest, monthlyPropertyTax, monthlyPmi,
                            monthlyPrincipalAndInterest + monthlyPropertyTax + monthlyPmi,
                            totalPaid, totalInterest, currencyFormatter, calculationVersion);
            -0.02 <= r.MonthlyTotalPayment - (r.MonthlyPrincipalAndInterest + r.MonthlyPropertyTax + r.MonthlyPmi) <= 0.02
  {
  }

  /** The two-cent bound cannot be dropped: with half a cent of principal and
      interest and half a cent of tax, both parts round down to zero while
      their one-cent total is kept. */
  lemma MonthlyTotalIsNotSumOfRoundedParts(currencyFormatter: real -> string)
    ensures var r := Create(0.0, 0.0, 0.0, 0.0, 1, 0.005, 0.005, 0.0, 0.01, 0.0, 0.0,
                            currencyFormatter, "v1.0");
            r.MonthlyTotalPayment == 0.01
            && r.MonthlyPrincipalAndInterest + r.MonthlyPropertyTax + r.MonthlyPmi == 0.0
  {
    RoundHalfEvenUnique(0.5, 0);
    assert Round2(0.005) == 0.0;
    Round2Idempotent(0.0);
    Round2Idempotent(0.01);
  }

  /** Building a result again from the fields of a result gives that result
      back: the factory is idempotent. */
  lemma CreateIsIdempotent(
    homePrice: real, downPayment: real, loanAmount: real, annualRatePercent: real,
    termYears: Int32, monthlyPrincipalAndInterest: real, monthlyPropertyTax: real,
    monthlyPmi: real, monthlyTotalPayment: real, totalPaid: real, totalInterest: real,
    currencyFormatter: real -> string, calculationVersion: string)
    ensures var r := Create(homePrice, downPayment, loanAmount, annualRatePercent, termYears,
                            monthlyPrincipalAndInterest, monthlyPropertyTax, monthlyPmi,
                            monthlyTotalPayment, totalPaid, totalInterest, currencyFormatter,
                            calculationVersion);
            Create(r.HomePrice, r.DownPayment, r.LoanAmount, r.AnnualRatePercent, r.TermYears,
                   r.MonthlyPrincipalAndInterest, r.MonthlyPropertyTax, r.MonthlyPmi,
                   r.MonthlyTotalPayment, r.TotalPaid, r.TotalInterest, currencyFormatter,
                   r.CalculationVersion) == r
  {
    Round2Idempotent(Round2(loanAmount));
    Round2Idempotent(Round2(monthlyPrincipalAndInterest));
    Round2Idempotent(Round2(monthlyPropertyTax));
    Round2Idempotent(Round2(monthlyPmi));
    Round2Idempotent(Round2(monthlyTotalPayment));
    Round2Idempotent(Round2(totalPaid));
    Round2Idempotent(Round2(totalInterest));
  }

  /** The figures of a 300,000 loan are stored as they come when they already
      have two decimals. */
  lemma CreateKeepsCentExactFigures(currencyFormatter: real -> string)
    ensures var r := Create(375000.0, 75000.0, 300000.0, 6.0, 30, 1798.65, 0.0, 0.0, 1798.65,
                            647514.57, 347514.57, currencyFormatter, "v1.0");
            r.LoanAmount == 300000.0 && r.MonthlyTotalPayment == 1798.65
            && r.TotalPaid == 647514.57 && r.TotalInterest == 347514.57
  {
    Round2Idempotent(300000.0);
    Round2Idempotent(1798.65);
    Round2Idempotent(647514.57);
    Round2Idempotent(347514.57);
  }
}
