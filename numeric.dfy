/** Arithmetic the calculator borrows from JavaScript's Math object, over exact reals. */
module Numeric {

  /** `Math.pow(x, n)` for a whole exponent. */
  function Pow(x: real, n: nat): (p: real)
    ensures x > 0.0 ==> p > 0.0
    ensures x >= 1.0 ==> p >= 1.0
    ensures x > 1.0 && n >= 1 ==> p > 1.0
  {
    if n == 0 then 1.0 else x * Pow(x, n - 1)
  }

  /** Products of factors that are at least one stay at least one, and grow past one when one factor does. */
  lemma AtLeastOneProduct(x: real, q: real)
    ensures x > 0.0 && q > 0.0 ==> x * q > 0.0
    ensures x >= 1.0 && q >= 1.0 ==> x * q >= q
    ensures x > 1.0 && q >= 1.0 ==> x * q > q >= 1.0
  {
    if x >= 1.0 && q >= 1.0 {
      assert x * q - q == (x - 1.0) * q;
      if x > 1.0 {
        assert (x - 1.0) * q > 0.0;
      }
    }
  }

  /** Anything at most `q` stays below `x * q` when `x` is at least one (strictly when `x` exceeds one). */
  lemma BelowProduct(a: real, q: real, x: real)
    requires a <= q && q >= 1.0 && x >= 1.0
    ensures a <= x * q
    ensures x > 1.0 ==> a < x * q
  {
    assert x * q - q == (x - 1.0) * q;
    if x > 1.0 {
      assert (x - 1.0) * q > 0.0;
    }
  }

  /** A base of at least one never makes the power smaller as the exponent grows; above one it grows strictly. */
  lemma {:induction false} PowMonotone(x: real, k: nat, n: nat)
    requires x >= 1.0 && k <= n
    ensures Pow(x, k) <= Pow(x, n)
    ensures x > 1.0 && k < n ==> Pow(x, k) < Pow(x, n)
    decreases n
  {
    if k < n {
      PowMonotone(x, k, n - 1);
      var q := Pow(x, n - 1);
      BelowProduct(Pow(x, k), q, x);
      assert Pow(x, n) == x * q;
    }
  }

  /** A quotient of a part by a positive whole lies between zero and one. */
  lemma FractionBounds(a: real, d: real)
    requires 0.0 <= a <= d && d > 0.0
    ensures 0.0 <= a / d <= 1.0
    ensures a > 0.0 ==> a / d > 0.0
  {
    var q := a / d;
    assert q * d == a;
  }

  /** Scaling a fraction of `c` by `b`: `b * (a / c) == (b * a) / c`. */
  lemma ScaleFraction(a: real, b: real, c: real)
    requires c != 0.0
    ensures b * (a / c) == (b * a) / c
  {
    var q := a / c;
    assert q * c == a;
    assert (b * q) * c == b * a;
  }

  /** A non-negative amount over a positive divisor is non-negative, and zero only when the amount is. */
  lemma NonNegativeFraction(a: real, d: real)
    requires a >= 0.0 && d > 0.0
    ensures a / d >= 0.0
    ensures a == 0.0 ==> a / d == 0.0
  {
    var q := a / d;
    assert q * d == a;
    if a == 0.0 {
      Cancel(q, 0.0, d);
    }
  }

  /** A sum over a common non-zero divisor splits: `(a + b) / c == a / c + b / c`. */
  lemma AddFraction(a: real, b: real, c: real)
    requires c != 0.0
    ensures (a + b) / c == a / c + b / c
  {
    var p, q := a / c, b / c;
    assert p * c == a && q * c == b;
    assert (p + q) * c == a + b;
  }

  /** A non-negative amount scaled by a fraction between zero and one stays between zero and itself. */
  lemma ScaleBounded(a: real, s: real)
    requires a >= 0.0 && 0.0 <= s <= 1.0
    ensures 0.0 <= a * s <= a
    ensures a > 0.0 && s > 0.0 ==> a * s > 0.0
  {
    assert a - a * s == a * (1.0 - s);
    assert a * (1.0 - s) >= 0.0;
  }

  /** Equal products with the same non-zero factor have equal cofactors. */
  lemma Cancel(a: real, b: real, c: real)
    requires c != 0.0 && a * c == b * c
    ensures a == b
  {
    assert (a - b) * c == 0.0;
  }

  /** Products with the same positive factor keep the order of the cofactors. */
  lemma CancelOrder(a: real, b: real, c: real)
    requires c > 0.0 && a * c <= b * c
    ensures a <= b
  {
    assert (b - a) * c >= 0.0;
  }

  /** Products with the same positive factor keep the strict order of the cofactors. */
  lemma StrictCancelOrder(a: real, b: real, c: real)
    requires c > 0.0 && a * c < b * c
    ensures a < b
  {
    assert (b - a) * c > 0.0;
  }

  /** `Math.round(x)`: the nearest integer, halves rounded up. */
  function Round(x: real): (n: int)
    ensures x - 0.5 < n as real <= x + 0.5
    ensures x >= 0.0 ==> n >= 0
  {
    (x + 0.5).Floor
  }

  /** `Math.max(a, b)`. */
  function Max(a: int, b: int): (m: int)
    ensures m >= a && m >= b && (m == a || m == b)
  {
    if a >= b then a else b
  }
}
