/** The parts of System.Decimal the core relies on, over exact rationals:
    `Math.Round(x, 2, MidpointRounding.ToEven)`, the half-away-from-zero
    rounding of number formatting, and repeated multiplication. */
module Decimals {

  /** Nearest integer to `x`; an exact tie goes to the even neighbour. The two
      ensures clauses determine the result (see RoundHalfEvenUnique). */
  function RoundHalfEven(x: real): (n: int)
    ensures x - 0.5 <= n as real <= x + 0.5
    ensures (n as real - x == 0.5 || x - n as real == 0.5) ==> n % 2 == 0
  {
    var f := x.Floor;
    var frac := x - f as real;
    if frac < 0.5 then f
    else if frac > 0.5 then f + 1
    else if f % 2 == 0 then f else f + 1
  }

  /** Nearest integer to a non-negative `y`; a tie goes up (away from zero). */
  function RoundHalfAwayFromZero(y: real): (n: int)
    requires y >= 0.0
    ensures n >= 0
    ensures y - 0.5 < n as real <= y + 0.5
  {
    (y + 0.5).Floor
  }

  /** `decimal.MaxValue`, 2^96 - 1; `decimal.MinValue` is its negation. */
  const MaxValue: real := 79_228_162_514_264_337_593_543_950_335.0

  /** A value System.Decimal can hold; arithmetic whose result lies outside
      throws `OverflowException`. */
  predicate InRange(x: real) {
    -MaxValue <= x <= MaxValue
  }

  /** `x` has at most two decimal places. */
  predicate IsCents(x: real) {
    (x * 100.0).Floor as real == x * 100.0
  }

  /** `Math.Round(x, 2, MidpointRounding.ToEven)` expressed in cents. */
  function Cents(x: real): int {
    RoundHalfEven(x * 100.0)
  }

  /** `Math.Round(x, 2, MidpointRounding.ToEven)`. */
  function Round2(x: real): (r: real)
    ensures -0.005 <= r - x <= 0.005
    ensures IsCents(r)
    ensures r * 100.0 == Cents(x) as real
  {
    Cents(x) as real / 100.0
  }

  /** `x` raised to the power `n` by repeated multiplication. */
  function Pow(x: real, n: nat): real {
    if n == 0 then 1.0 else x * Pow(x, n - 1)
  }

  /** The two ensures of RoundHalfEven leave exactly one candidate. */
  lemma RoundHalfEvenUnique(x: real, n: int)
    requires x - 0.5 <= n as real <= x + 0.5
    requires (n as real - x == 0.5 || x - n as real == 0.5) ==> n % 2 == 0
    ensures n == RoundHalfEven(x)
  {
  }

  /** Rounding is monotone. */
  lemma RoundHalfEvenMonotone(x: real, y: real)
    requires x <= y
    ensures RoundHalfEven(x) <= RoundHalfEven(y)
  {
  }

  /** An integer is its own rounding. */
  lemma RoundHalfEvenOfInt(k: int)
    ensures RoundHalfEven(k as real) == k
  {
    RoundHalfEvenUnique(k as real, k);
  }

  /** Rounding to two places is idempotent: a value that already has at most
      two decimals is kept as it is. */
  lemma Round2Idempotent(x: real)
    requires IsCents(x)
    ensures Round2(x) == x
  {
    var k := (x * 100.0).Floor;
    RoundHalfEvenOfInt(k);
  }

  /** Rounding to two places is monotone. */
  lemma Round2Monotone(x: real, y: real)
    requires x <= y
    ensures Round2(x) <= Round2(y)
  {
    RoundHalfEvenMonotone(x * 100.0, y * 100.0);
  }

  /** An exact half cent goes to the even cent. */
  lemma Round2TieToEven(x: real)
    requires x * 100.0 - (x * 100.0).Floor as real == 0.5
    ensures Cents(x) % 2 == 0
    ensures Cents(x) == (x * 100.0).Floor || Cents(x) == (x * 100.0).Floor + 1
  {
  }

  /** Two-decimal values are closed under addition. */
  lemma CentsAdd(a: real, b: real)
    requires IsCents(a) && IsCents(b)
    ensures IsCents(a + b)
  {
    var m, n := (a * 100.0).Floor, (b * 100.0).Floor;
    assert (a + b) * 100.0 == (m + n) as real;
  }

  /** A whole number of cents is a two-decimal value. */
  lemma CentsOfInt(k: int)
    ensures IsCents(k as real / 100.0)
  {
    assert k as real / 100.0 * 100.0 == k as real;
  }

  /** A power of a factor at least one is at least one. */
  lemma {:induction false} PowAtLeastOne(x: real, n: nat)
    requires x >= 1.0
    ensures Pow(x, n) >= 1.0
  {
    if n > 0 {
      PowAtLeastOne(x, n - 1);
      assert x * Pow(x, n - 1) >= Pow(x, n - 1);
    }
  }

  /** A power of a factor at least one does not decrease with the exponent. */
  lemma {:induction false} PowMonotoneInExponent(x: real, m: nat, n: nat)
    requires x >= 1.0 && m <= n
    ensures Pow(x, m) <= Pow(x, n)
  {
    if m < n {
      PowMonotoneInExponent(x, m, n - 1);
      PowAtLeastOne(x, n - 1);
      assert x * Pow(x, n - 1) >= Pow(x, n - 1);
    }
  }

  /** Exponents add under multiplication. */
  lemma {:induction false} PowAdd(x: real, a: nat, b: nat)
    ensures Pow(x, a + b) == Pow(x, a) * Pow(x, b)
    decreases b
  {
    if b > 0 {
      PowAdd(x, a, b - 1);
    }
  }
}
