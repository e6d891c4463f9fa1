/** Percent-to-fraction conversion and en-US currency formatting
    (`decimal.ToString("C", new CultureInfo("en-US"))`). */
module Conversions {
  import opened Wrappers
  import opened Decimals
  import opened Text

  /** `interestPercentage / 100`, exactly: the fraction times 100 gives the
      percentage back. */
  function ConvertPercentageToDecimal(interestPercentage: real): (r: real)
    ensures r * 100.0 == interestPercentage
  {
    interestPercentage / 100.0
  }

  /** The conversion is linear. */
  lemma PercentageConversionIsLinear(p: real, q: real, k: real)
    ensures ConvertPercentageToDecimal(p + q) == ConvertPercentageToDecimal(p) + ConvertPercentageToDecimal(q)
    ensures ConvertPercentageToDecimal(k * p) == k * ConvertPercentageToDecimal(p)
  {
  }

  // ---------------------------------------------------------------------
  // Currency formatting

  function DigitChar(d: int): (c: char)
    requires 0 <= d < 10
    ensures IsDigit(c)
  {
    ('0' as int + d) as char
  }

  function DigitValue(c: char): (d: nat)
    requires IsDigit(c)
    ensures d < 10 && DigitChar(d) == c
  {
    c as int - '0' as int
  }

  /** The decimal digits of `n`, most significant first, without leading zeros. */
  function NatDigits(n: nat): (s: string)
    ensures |s| >= 1
  {
    if n < 10 then [DigitChar(n)] else NatDigits(n / 10) + [DigitChar(n % 10)]
  }

  /** `NatDigits` writes only digits, and no leading zero. */
  lemma {:induction false} NatDigitsAreDigits(n: nat)
    ensures AllDigits(NatDigits(n))
    ensures |NatDigits(n)| > 1 ==> NatDigits(n)[0] != '0'
  {
    if n >= 10 {
      NatDigitsAreDigits(n / 10);
      var s := NatDigits(n);
      assert s[0] == NatDigits(n / 10)[0];
      if n / 10 < 10 {
        assert n / 10 != 0;
      }
    }
  }

  /** The en-US group separator: a comma before every block of three digits,
      counted from the right. */
  function GroupThousands(digits: string): (s: string)
    ensures |s| >= |digits|
  {
    if |digits| <= 3 then digits
    else GroupThousands(digits[..|digits| - 3]) + [','] + digits[|digits| - 3..]
  }

  /** The grouped text has one comma for every full block of three digits
      after the first digit, and the commas sit exactly every fourth place
      counted from the right. */
  lemma {:induction false} GroupThousandsLayout(digits: string)
    requires |digits| >= 1 && forall k | 0 <= k < |digits| :: digits[k] != ','
    ensures var s := GroupThousands(digits);
      && |s| == |digits| + (|digits| - 1) / 3
      && forall k | 0 <= k < |s| :: s[k] == ',' <==> k > 0 && (|s| - k) % 4 == 0
  {
    if |digits| > 3 {
      var head, tail := digits[..|digits| - 3], digits[|digits| - 3..];
      assert digits == head + tail;
      GroupThousandsLayout(head);
      SeparatorAfterGroups(GroupThousands(head), head, tail);
    }
  }

  /** One more comma and block of three keeps the grouped layout. */
  lemma {:induction false} SeparatorAfterGroups(grouped: string, head: string, tail: string)
    requires |head| >= 1 && |grouped| == |head| + (|head| - 1) / 3 && |tail| == 3
    requires forall k | 0 <= k < |grouped| :: grouped[k] == ',' <==> k > 0 && (|grouped| - k) % 4 == 0
    requires forall k | 0 <= k < 3 :: tail[k] != ','
    ensures var digits, s := head + tail, grouped + [','] + tail;
      && |s| == |digits| + (|digits| - 1) / 3
      && forall k | 0 <= k < |s| :: s[k] == ',' <==> k > 0 && (|s| - k) % 4 == 0
  {
    var s := grouped + [','] + tail;
    assert (|head| + 3 - 1) / 3 == (|head| - 1) / 3 + 1;
    forall k | 0 <= k < |s|
      ensures s[k] == ',' <==> k > 0 && (|s| - k) % 4 == 0
    {
      if k < |grouped| {
        assert s[k] == grouped[k];
        ModFourShift(|grouped| - k);
      } else if k > |grouped| {
        assert s[k] == tail[k - |grouped| - 1];
        assert 0 < |s| - k < 4;
      }
    }
  }

  lemma ModFourShift(x: int)
    ensures (x + 4) % 4 == x % 4
  {
  }

  /** `g` writes `digits` the en-US way: a comma before every block of three
      digits counted from the right, and nowhere else. */
  predicate GroupedAs(g: string, digits: string) {
    && |digits| >= 1 && |g| == |digits| + (|digits| - 1) / 3
    && (forall k | 0 <= k < |g| :: g[k] == ',' <==> k > 0 && (|g| - k) % 4 == 0)
    && StripSeparators(g) == digits
  }

  /** Grouping only inserts separators: removing them gives the input back. */
  lemma {:induction false} GroupThousandsOnlyInsertsSeparators(digits: string)
    ensures StripSeparators(GroupThousands(digits)) == StripSeparators(digits)
  {
    if |digits| > 3 {
      var head, tail := digits[..|digits| - 3], digits[|digits| - 3..];
      assert digits == head + tail;
      GroupThousandsOnlyInsertsSeparators(head);
      StripSeparatorsAppend(head, tail);
      StripSeparatorsAppend(GroupThousands(head) + [','], tail);
      StripSeparatorsAppend(GroupThousands(head), [',']);
    }
  }

  /** The grouped form of a digit string is unique: `GroupThousands` writes
      it, and any text laid out that way is what `GroupThousands` writes. */
  lemma {:induction false} GroupedLayoutIsUnique(g: string, digits: string)
    requires |digits| >= 1 && AllDigits(digits)
    ensures GroupedAs(GroupThousands(digits), digits)
    ensures GroupedAs(g, digits) <==> g == GroupThousands(digits)
  {
    GroupThousandsLayout(digits);
    GroupThousandsOnlyInsertsSeparators(digits);
    StripSeparatorsOfPlain(digits);
    if GroupedAs(g, digits) {
      GroupedAsIsGroupThousands(g, digits);
    }
  }

  lemma {:induction false} GroupedAsIsGroupThousands(g: string, digits: string)
    requires GroupedAs(g, digits)
    ensures g == GroupThousands(digits)
    decreases |digits|
  {
    if |digits| <= 3 {
      forall k | 0 <= k < |g|
        ensures g[k] != ','
      {
        assert k == 0 || 0 < |g| - k < 4;
      }
      StripSeparatorsOfPlain(g);
    } else {
      GroupedAsSplits(g, digits);
      GroupedAsIsGroupThousands(g[..|g| - 4], digits[..|digits| - 3]);
    }
  }

  /** A grouped text of more than three digits is a grouped text of all but
      the last three, a comma, and those three. */
  lemma {:induction false} GroupedAsSplits(g: string, digits: string)
    requires GroupedAs(g, digits) && |digits| > 3
    ensures var front := g[..|g| - 4];
      g == front + [','] + digits[|digits| - 3..] && GroupedAs(front, digits[..|digits| - 3])
  {
    var front, last := g[..|g| - 4], g[|g| - 3..];
    LastBlockOfGrouped(g, digits);
    StripAroundSeparator(front, last);
    SplitOfConcat(StripSeparators(front), last, digits);
    CommasOfFront(g, front, |digits|);
  }

  lemma LastBlockOfGrouped(g: string, digits: string)
    requires GroupedAs(g, digits) && |digits| > 3
    ensures |g| >= 5
    ensures g == g[..|g| - 4] + [','] + g[|g| - 3..]
    ensures forall k | |g| - 3 <= k < |g| :: g[k] != ','
  {
    assert g[|g| - 4] == ',';
  }

  lemma SplitOfConcat(front: string, last: string, whole: string)
    requires whole == front + last && |last| == 3
    ensures last == whole[|whole| - 3..] && front == whole[..|whole| - 3]
  {
  }

  lemma CommasOfFront(g: string, front: string, n: nat)
    requires n > 3 && |g| == n + (n - 1) / 3
    requires forall k | 0 <= k < |g| :: g[k] == ',' <==> k > 0 && (|g| - k) % 4 == 0
    requires front == g[..|g| - 4]
    ensures |front| == (n - 3) + (n - 4) / 3
    ensures forall k | 0 <= k < |front| :: front[k] == ',' <==> k > 0 && (|front| - k) % 4 == 0
  {
    assert (n - 1) / 3 == (n - 4) / 3 + 1;
    forall k | 0 <= k < |front|
      ensures front[k] == ',' <==> k > 0 && (|front| - k) % 4 == 0
    {
      assert front[k] == g[k];
      ModFourShift(|front| - k);
    }
  }

  lemma {:induction false} StripAroundSeparator(front: string, last: string)
    requires forall k | 0 <= k < |last| :: last[k] != ','
    ensures StripSeparators(front + [','] + last) == StripSeparators(front) + last
  {
    var comma: string := [','];
    assert StripSeparators(comma) == [] by {
      assert comma[1..] == [];
    }
    var withComma := front + comma;
    StripSeparatorsAppend(front, comma);
    StripSeparatorsAppend(withComma, last);
    StripSeparatorsOfPlain(last);
    assert StripSeparators(withComma) == StripSeparators(front) + [];
  }

  /** "$" + grouped dollars + "." + exactly two cent digits, the dollars
      without a leading zero. */
  function FormatCents(cents: nat): (s: string)
    ensures |s| >= 5 && s[0] == '$' && s[|s| - 3] == '.'
    ensures IsDigit(s[|s| - 2]) && IsDigit(s[|s| - 1])
  {
    "$" + GroupThousands(NatDigits(cents / 100)) + "." + [DigitChar(cents % 100 / 10), DigitChar(cents % 10)]
  }

  /** The formatter writes the currency layout. */
  lemma {:induction false} FormatCentsLayout(cents: nat)
    ensures IsCurrencyText(FormatCents(cents))
  {
    var digits := NatDigits(cents / 100);
    NatDigitsAreDigits(cents / 100);
    GroupedLayoutIsUnique(GroupThousands(digits), digits);
    SliceParts(GroupThousands(digits), [DigitChar(cents % 100 / 10), DigitChar(cents % 10)]);
  }

  /** The en-US currency layout: "$", the dollars grouped by threes with no
      leading zero, ".", and two cent digits. */
  predicate IsCurrencyText(s: string) {
    && |s| >= 5 && s[0] == '$' && s[|s| - 3] == '.'
    && IsDigit(s[|s| - 2]) && IsDigit(s[|s| - 1])
    && var dollars := StripSeparators(s[1..|s| - 3]);
       && AllDigits(dollars) && (|dollars| > 1 ==> dollars[0] != '0')
       && GroupedAs(s[1..|s| - 3], dollars)
  }

  /** `money.ToString("C", en-US)`: rounds to cents (number formatting rounds
      half away from zero) and formats. Negative amounts carry a leading '-'
      (the .NET en-US negative currency pattern on ICU). The text reads back
      as the amount rounded to cents. */
  function ConvertDecimalToCurrency(money: real): (s: string)
    ensures money >= 0.0 ==>
      IsCurrencyText(s) && ParseCurrency(s) == Some(RoundHalfAwayFromZero(money * 100.0))
    ensures money < 0.0 ==>
      && |s| > 1 && s[0] == '-' && IsCurrencyText(s[1..])
      && ParseCurrency(s[1..]) == Some(RoundHalfAwayFromZero(-money * 100.0))
  {
    if money >= 0.0 then
      FormatCentsRoundTrip(RoundHalfAwayFromZero(money * 100.0));
      FormatCentsLayout(RoundHalfAwayFromZero(money * 100.0));
      FormatCents(RoundHalfAwayFromZero(money * 100.0))
    else
      var shown := FormatCents(RoundHalfAwayFromZero(-money * 100.0));
      FormatCentsRoundTrip(RoundHalfAwayFromZero(-money * 100.0));
      FormatCentsLayout(RoundHalfAwayFromZero(-money * 100.0));
      assert ("-" + shown)[1..] == shown;
      "-" + shown
  }

  // ---------------------------------------------------------------------
  // Reading a currency string back, the inverse of FormatCents

  /** Removes the group separators. */
  function StripSeparators(s: string): string {
    if s == [] then [] else (if s[0] == ',' then [] else [s[0]]) + StripSeparators(s[1..])
  }

  lemma {:induction false} StripSeparatorsAppend(a: string, b: string)
    ensures StripSeparators(a + b) == StripSeparators(a) + StripSeparators(b)
  {
    if a == [] {
      assert a + b == b;
    } else {
      assert (a + b)[1..] == a[1..] + b;
      StripSeparatorsAppend(a[1..], b);
    }
  }

  lemma {:induction false} StripSeparatorsOfPlain(s: string)
    requires forall k | 0 <= k < |s| :: s[k] != ','
    ensures StripSeparators(s) == s
  {
    if s != [] {
      assert forall k | 0 <= k < |s| - 1 :: s[1..][k] == s[k + 1];
      StripSeparatorsOfPlain(s[1..]);
    }
  }

  /** The number written by a string of digits. */
  function DigitsValue(s: string): nat
    requires AllDigits(s)
  {
    if s == [] then 0 else DigitsValue(s[..|s| - 1]) * 10 + DigitValue(s[|s| - 1])
  }

  /** The number of cents a currency string "$d,ddd.cc" stands for. */
  function ParseCurrency(s: string): Option<nat> {
    if |s| >= 5 && s[0] == '$' && s[|s| - 3] == '.' then
      var dollars := StripSeparators(s[1..|s| - 3]);
      var cents := s[|s| - 2..];
      if dollars != [] && AllDigits(dollars) && AllDigits(cents) then Some(DigitsValue(dollars + cents))
      else None
    else None
  }

  lemma {:induction false} DigitsValueOfNatDigits(n: nat)
    ensures AllDigits(NatDigits(n)) && DigitsValue(NatDigits(n)) == n
  {
    NatDigitsAreDigits(n);
    if n >= 10 {
      var s := NatDigits(n);
      assert s[..|s| - 1] == NatDigits(n / 10);
      DigitsValueOfNatDigits(n / 10);
    }
  }

  /** Reading a formatted amount gives back the cents that were formatted. */
  lemma {:induction false} FormatCentsRoundTrip(cents: nat)
    ensures ParseCurrency(FormatCents(cents)) == Some(cents)
  {
    var digits := NatDigits(cents / 100);
    var tail := [DigitChar(cents % 100 / 10), DigitChar(cents % 10)];
    FormattedParts(cents);
    NatDigitsAreDigits(cents / 100);
    DigitsValueAppendTwo(digits, tail[0], tail[1]);
    assert digits + [tail[0], tail[1]] == digits + tail;
    DigitsValueOfNatDigits(cents / 100);
    CentsFromParts(cents);
  }

  /** The pieces `ParseCurrency` cuts a formatted amount into. */
  lemma {:induction false} FormattedParts(cents: nat)
    ensures var s := FormatCents(cents);
      && StripSeparators(s[1..|s| - 3]) == NatDigits(cents / 100)
      && s[|s| - 2..] == [DigitChar(cents % 100 / 10), DigitChar(cents % 10)]
  {
    var digits := NatDigits(cents / 100);
    SliceParts(GroupThousands(digits), [DigitChar(cents % 100 / 10), DigitChar(cents % 10)]);
    GroupThousandsOnlyInsertsSeparators(digits);
    NatDigitsAreDigits(cents / 100);
    StripSeparatorsOfPlain(digits);
  }

  lemma SliceParts(grouped: string, tail: string)
    requires |tail| == 2
    ensures var s := "$" + grouped + "." + tail;
      s[1..|s| - 3] == grouped && s[|s| - 2..] == tail
  {
    var s := "$" + grouped + "." + tail;
    assert s[1..|s| - 3] == grouped;
    assert s[|s| - 2..] == tail;
  }

  /** Two more digits on the right multiply the value by a hundred. */
  lemma DigitsValueAppendTwo(digits: string, tens: char, units: char)
    requires AllDigits(digits) && IsDigit(tens) && IsDigit(units)
    ensures AllDigits(digits + [tens, units])
    ensures DigitsValue(digits + [tens, units]) == DigitsValue(digits) * 100 + DigitValue(tens) * 10 + DigitValue(units)
  {
    var all := digits + [tens, units];
    assert all[..|all| - 1] == digits + [tens];
    assert (digits + [tens])[..|digits|] == digits;
  }

  lemma CentsFromParts(cents: nat)
    ensures (cents / 100) * 100 + (cents % 100 / 10) * 10 + cents % 10 == cents
  {
    var q, m := cents / 100, cents % 100;
    var t, u := m / 10, m % 10;
    assert cents == 100 * q + m;
    assert m == 10 * t + u;
    LastDigit(10 * q + t, u);
    assert cents == 10 * (10 * q + t) + u;
  }

  lemma LastDigit(a: int, u: int)
    requires 0 <= u < 10
    ensures (10 * a + u) % 10 == u
  {
  }

  /** `FormatCents(cents)` is the only text in the currency layout that reads
      back as `cents`. */
  lemma {:induction false} CurrencyTextIsUnique(s: string, cents: nat)
    requires IsCurrencyText(s) && ParseCurrency(s) == Some(cents)
    ensures s == FormatCents(cents)
  {
    var grouped := s[1..|s| - 3];
    var dollars := StripSeparators(grouped);
    var tens, units := s[|s| - 2], s[|s| - 1];
    assert s[|s| - 2..] == [tens, units];
    DigitsValueAppendTwo(dollars, tens, units);
    SplitCents(DigitsValue(dollars), DigitValue(tens), DigitValue(units));
    NatDigitsOfDigitsValue(dollars);
    GroupedAsIsGroupThousands(grouped, dollars);
    assert s == "$" + grouped + "." + [tens, units];
  }

  lemma SplitCents(dollars: nat, tens: nat, units: nat)
    requires tens < 10 && units < 10
    ensures var cents := dollars * 100 + tens * 10 + units;
      cents / 100 == dollars && cents % 100 / 10 == tens && cents % 10 == units
  {
    var cents := dollars * 100 + tens * 10 + units;
    assert cents % 100 == tens * 10 + units;
    LastDigit(dollars * 10 + tens, units);
    assert cents == 10 * (dollars * 10 + tens) + units;
  }

  /** A digit string with no leading zero is what `NatDigits` writes for its value. */
  lemma {:induction false} NatDigitsOfDigitsValue(d: string)
    requires AllDigits(d) && |d| >= 1 && (|d| > 1 ==> d[0] != '0')
    ensures NatDigits(DigitsValue(d)) == d
  {
    var last := d[|d| - 1];
    var front := d[..|d| - 1];
    if |d| == 1 {
      assert front == [];
    } else {
      assert front[0] == d[0];
      DigitsValueOfLeadingNonZero(front);
      NatDigitsOfDigitsValue(front);
      var v := DigitsValue(d);
      assert v == DigitsValue(front) * 10 + DigitValue(last);
      LastDigit(DigitsValue(front), DigitValue(last));
      assert d == front + [last];
    }
  }

  lemma {:induction false} DigitsValueOfLeadingNonZero(d: string)
    requires AllDigits(d) && |d| >= 1 && d[0] != '0'
    ensures DigitsValue(d) >= 1
  {
    var front := d[..|d| - 1];
    if |d| > 1 {
      assert front[0] == d[0];
      DigitsValueOfLeadingNonZero(front);
    } else {
      assert front == [];
    }
  }

  /** Distinct amounts format differently. */
  lemma FormatCentsInjective(a: nat, b: nat)
    requires FormatCents(a) == FormatCents(b)
    ensures a == b
  {
    FormatCentsRoundTrip(a);
    FormatCentsRoundTrip(b);
  }

  /** On an amount that already has two decimals, the formatter shows exactly
      that amount. */
  lemma CurrencyOfCentExactAmount(money: real)
    requires money >= 0.0 && IsCents(money)
    ensures (money * 100.0).Floor >= 0
    ensures ConvertDecimalToCurrency(money) == FormatCents((money * 100.0).Floor)
    ensures ParseCurrency(ConvertDecimalToCurrency(money)) == Some((money * 100.0).Floor)
  {
    WholeCentsAreNotRounded(money * 100.0);
    FormatCentsRoundTrip((money * 100.0).Floor);
  }

  lemma WholeCentsAreNotRounded(y: real)
    requires y >= 0.0 && y.Floor as real == y
    ensures y.Floor >= 0 && RoundHalfAwayFromZero(y) == y.Floor
  {
  }

  /** `FormatCents` with its dollars already grouped. */
  lemma {:induction false} GroupedDollars(cents: nat, grouped: string)
    requires GroupThousands(NatDigits(cents / 100)) == grouped
    ensures FormatCents(cents) == "$" + grouped + "." + [DigitChar(cents % 100 / 10), DigitChar(cents % 10)]
  {
  }

  lemma Grouping2500()
    ensures GroupThousands(NatDigits(2500)) == "2,500"
  {
  }

  lemma Grouping300000()
    ensures GroupThousands(NatDigits(300000)) == "300,000"
  {
  }

  lemma Grouping17081()
    ensures GroupThousands(NatDigits(17081)) == "17,081"
  {
  }

  lemma Grouping1628()
    ensures GroupThousands(NatDigits(1628)) == "1,628"
  {
  }

  lemma FormatCentsExampleThousands()
    ensures FormatCents(250000) == "$2,500.00"
  {
    Grouping2500();
    GroupedDollars(250000, "2,500");
  }

  lemma FormatCentsExampleHundredThousands()
    ensures FormatCents(30000000) == "$300,000.00"
  {
    Grouping300000();
    GroupedDollars(30000000, "300,000");
  }

  /** The figures of the compound-interest examples. */
  lemma FormatCentsExampleTenYears()
    ensures FormatCents(1708144) == "$17,081.44"
  {
    Grouping17081();
    GroupedDollars(1708144, "17,081");
  }

  lemma FormatCentsExampleTenYearsAtFive()
    ensures FormatCents(162889) == "$1,628.89"
  {
    Grouping1628();
    GroupedDollars(162889, "1,628");
  }

  lemma FormatCentsExampleNoSeparator()
    ensures FormatCents(1001) == "$10.01"
    ensures FormatCents(0) == "$0.00"
  {
  }

  /** The formatter on amounts that come out of rounding, as the results show them. */
  lemma CurrencyOfAmountExamples()
    ensures ConvertDecimalToCurrency(2500.0) == "$2,500.00"
    ensures ConvertDecimalToCurrency(10.01) == "$10.01"
  {
    FormatCentsExampleThousands();
    FormatCentsExampleNoSeparator();
    assert RoundHalfAwayFromZero(2500.0 * 100.0) == 250000;
    assert RoundHalfAwayFromZero(10.01 * 100.0) == 1001;
  }
}
