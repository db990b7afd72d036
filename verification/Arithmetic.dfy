/** Powers of two and the few facts about division that address arithmetic needs. */
module Arithmetic {

  function Pow2(n: nat): (p: nat)
    ensures p >= 1
  {
    if n == 0 then 1 else 2 * Pow2(n - 1)
  }

  lemma {:induction false} Pow2Add(m: nat, n: nat)
    ensures Pow2(m + n) == Pow2(m) * Pow2(n)
    decreases m
  {
    if m > 0 {
      Pow2Add(m - 1, n);
      calc {
        Pow2(m + n);
        2 * Pow2(m - 1 + n);
        2 * (Pow2(m - 1) * Pow2(n));
        Pow2(m) * Pow2(n);
      }
    }
  }

  lemma MulMonotone(a: int, b: int, d: nat)
    requires a <= b
    ensures a * d <= b * d
  {
  }

  lemma MulAssociative(a: int, b: int, c: int)
    ensures a * (b * c) == (a * b) * c
  {
  }

  lemma MulDistributes(a: int, b: int, d: int)
    ensures (a + b) * d == a * d + b * d
  {
  }

  /** `q` and `r` are quotient and remainder as soon as they fit. */
  lemma DivModUnique(x: int, d: int, q: int, r: int)
    requires d > 0 && x == q * d + r && 0 <= r < d
    ensures x / d == q && x % d == r
  {
    var k, m := x / d, x % d;
    assert x == k * d + m;
    assert (q + 1) * d == q * d + d && (k + 1) * d == k * d + d;
    if k > q {
      MulMonotone(q + 1, k, d);
    } else if k < q {
      MulMonotone(k + 1, q, d);
    }
  }

  lemma DivDiv(x: nat, b: int, c: int)
    requires b > 0 && c > 0
    ensures b * c > 0 && x / b / c == x / (b * c)
    ensures x % (b * c) == x / b % c * b + x % b
  {
    MulMonotone(1, c, b);
    var y := x / b;
    var q, r, r' := y / c, y % c, x % b;
    assert x == y * b + r' && y == q * c + r;
    MulDistributes(q * c, r, b);
    MulAssociative(q, c, b);
    MulMonotone(0, r, b);
    MulMonotone(r, c - 1, b);
    MulDistributes(c, -1, b);
    DivModUnique(x, b * c, q, r * b + r');
  }

  /** The greatest multiple of `d` that is at most `x`. */
  function RoundDown(x: nat, d: int): (r: nat)
    requires d > 0
    ensures r <= x < r + d && x / d >= 0
  {
    MulMonotone(0, x / d, d);
    x / d * d
  }

  /** The numbers that round down to the same multiple of `d`. */
  lemma SameQuotient(x: nat, y: nat, d: int)
    requires d > 0
    ensures x / d == y / d <==> RoundDown(x, d) <= y < RoundDown(x, d) + d
  {
    var base := RoundDown(x, d);
    if base <= y < base + d {
      DivModUnique(y, d, x / d, y - base);
    }
  }

  lemma MulDiv(q: nat, d: int)
    requires d > 0
    ensures q * d / d == q && q * d % d == 0
  {
    DivModUnique(q * d, d, q, 0);
  }

  /** Blocks of size `d` tile the numbers below `n * d`. */
  lemma Tiles(v: nat, n: nat, d: int)
    requires d > 0 && v < n * d
    ensures v / d < n
    ensures RoundDown(v, d) + d <= n * d
  {
    var q := v / d;
    if q >= n {
      MulMonotone(n, q, d);
    }
    MulMonotone(q + 1, n, d);
    assert (q + 1) * d == q * d + d;
  }

  lemma RoundDownShift(k: nat, v: nat, d: int)
    requires d > 0
    ensures RoundDown(k * d + v, d) == k * d + RoundDown(v, d)
  {
    var q := v / d;
    assert (k + q) * d == k * d + q * d;
    DivModUnique(k * d + v, d, k + q, v % d);
  }

  /** A clear bit of weight `d` below `2 * n` can be set without reaching `2 * n`. */
  lemma ClearBitFits(x: nat, n: nat, d: int, e: nat)
    requires d > 0 && n == e * d && x < 2 * n && x / d % 2 == 0
    ensures x + d < 2 * n
  {
    var q := x / d;
    MulAssociative(2, e, d);
    Tiles(x, 2 * e, d);
    MulMonotone(q + 2, 2 * e, d);
    MulDistributes(q, 2, d);
  }

  /** A bit of weight `d` below `2 * n` does not depend on multiples of `2 * n`. */
  lemma LowBit(hi: nat, x: nat, n: nat, d: int, e: nat)
    requires d > 0 && n == e * d
    ensures (hi * (2 * n) + x) / d % 2 == x / d % 2
  {
    MulAssociative(2 * hi, e, d);
    MulAssociative(hi, 2, n);
    var q := 2 * hi * e;
    MulAssociative(2, hi, e);
    MulDistributes(q, x / d, d);
    DivModUnique(hi * (2 * n) + x, d, q + x / d, x % d);
  }
}
