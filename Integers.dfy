/** The 32-bit `int` of the source and its unchecked (wrapping) arithmetic. */
module Integers {

  /** A value of C#'s `int`. */
  type Int32 = x: int | -0x8000_0000 <= x < 0x8000_0000

  /** The result of an unchecked C# `int` operation whose exact value is `x`:
      `x` brought into the `int` range by adding or subtracting 2^32. */
  function Wrap(x: int): Int32
    decreases if x < 0 then -2 * x else 2 * x + 1
  {
    if x < -0x8000_0000 then Wrap(x + 0x1_0000_0000)
    else if x >= 0x8000_0000 then Wrap(x - 0x1_0000_0000)
    else x
  }

  /** A result that fits is kept, and any result changes by a multiple of
      2^32. */
  lemma {:induction false} WrapIsCongruent(x: int)
    decreases if x < 0 then -2 * x else 2 * x + 1
    ensures -0x8000_0000 <= x < 0x8000_0000 ==> Wrap(x) == x
    ensures (Wrap(x) - x) % 0x1_0000_0000 == 0
  {
    if x < -0x8000_0000 {
      WrapIsCongruent(x + 0x1_0000_0000);
    } else if x >= 0x8000_0000 {
      WrapIsCongruent(x - 0x1_0000_0000);
    }
  }

  /** The congruence determines Wrap: it is the only `int` congruent to `x`
      modulo 2^32. */
  lemma WrapUnique(x: int, r: Int32)
    requires (r - x) % 0x1_0000_0000 == 0
    ensures r == Wrap(x)
  {
    WrapIsCongruent(x);
    var w := Wrap(x);
    var k := (r - x) / 0x1_0000_0000;
    var j := (w - x) / 0x1_0000_0000;
    assert r - w == (k - j) * 0x1_0000_0000;
  }

  /** A product that leaves the `int` range comes back negative. */
  lemma WrapOverflowExample()
    ensures Wrap(200_000_000 * 12) == -1_894_967_296
  {
  }
}
