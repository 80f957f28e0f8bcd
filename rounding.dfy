/**
 * Division of a fixed-point amount by a count, rounded to the amount's own scale
 * with the HALF_UP rule: to the nearest representable value, and when both
 * neighbours are equally near, away from zero.
 */
module Rounding {

  /** `n / d` rounded to an integer, half-up. */
  function RoundHalfUp(n: int, d: int): (q: int)
    requires d > 0
    ensures -d <= 2 * (n - q * d) <= d
    ensures 2 * (n - q * d) == d ==> n < 0
    ensures 2 * (n - q * d) == -d ==> n > 0
  {
    if n >= 0 then RoundNonNegative(n, d) else -RoundNonNegative(-n, d)
  }

  /** The non-negative case: adding half the divisor before dividing rounds halves up. */
  function RoundNonNegative(n: nat, d: int): (q: int)
    requires d > 0
    ensures -d <= 2 * (n - q * d) < d
    ensures 2 * (n - q * d) == -d ==> n > 0
  {
    var q := (2 * n + d) / (2 * d);
    DivBounds(2 * n + d, 2 * d, q);
    q
  }

  /** The defining bounds of Euclidean division by a positive divisor. */
  lemma DivBounds(a: int, b: int, q: int)
    requires b > 0 && q == a / b
    ensures q * b <= a < q * b + b
  {
  }

  /** A positive multiple of a positive `d` is at least `d`. */
  lemma {:induction false} PositiveMultiple(d: int, k: int)
    requires d > 0 && k >= 1
    ensures d * k >= d
  {
    if k > 1 {
      PositiveMultiple(d, k - 1);
      assert d * k == d * (k - 1) + d;
    }
  }

  /** A non-zero multiple of a positive `d` is at least `d` away from zero. */
  lemma MultipleAwayFromZero(d: int, k: int)
    requires d > 0
    ensures k != 0 ==> d * k >= d || d * k <= -d
  {
    if k > 0 {
      PositiveMultiple(d, k);
    } else if k < 0 {
      PositiveMultiple(d, -k);
      assert d * k == -(d * -k);
    }
  }

  /** The three conditions of RoundHalfUp's contract single out its result. */
  lemma RoundHalfUpUnique(n: int, d: int, q: int)
    requires d > 0
    requires -d <= 2 * (n - q * d) <= d
    requires 2 * (n - q * d) == d ==> n < 0
    requires 2 * (n - q * d) == -d ==> n > 0
    ensures q == RoundHalfUp(n, d)
  {
    var p := RoundHalfUp(n, d);
    var e, f := 2 * (n - q * d), 2 * (n - p * d);
    assert e - f == 2 * (d * (p - q)) by {
      assert p * d - q * d == d * (p - q);
    }
    MultipleAwayFromZero(d, p - q);
  }
}
