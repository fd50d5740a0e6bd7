/** Facts about Euclidean division and powers of ten that the codec proofs share. */
module Arith {

  /** Division is determined by any decomposition x == d * q + r with 0 <= r < d. */
  lemma DivModUnique(x: int, d: int, q: int, r: int)
    requires d > 0 && 0 <= r < d && x == d * q + r
    ensures x / d == q && x % d == r
  {
    var q', r' := x / d, x % d;
    assert x == d * q' + r';
    if q' > q {
      MulAtLeast(d, q' - q);
    } else if q' < q {
      MulAtLeast(d, q - q');
    }
  }

  lemma MulAtLeast(d: int, k: int)
    requires d > 0 && k >= 1
    ensures d * k >= d
  {
  }

  /** x < a * b with b > 0 bounds the quotient by b below a. */
  lemma DivBelow(x: int, a: int, b: int)
    requires b > 0 && 0 <= x < a * b
    ensures 0 <= x / b < a
  {
    var q := x / b;
    assert x == b * q + x % b;
    if q >= a {
      MulMono(b, a, q);
    }
    if q < 0 {
      MulAtLeast(b, -q);
    }
  }

  lemma MulMono(b: int, a: int, q: int)
    requires b > 0 && a <= q
    ensures b * a <= b * q
  {
    assert b * q - b * a == b * (q - a);
  }

  /** Rounding a non-negative x down to a multiple of d stays within [0, x]. */
  lemma RoundDownBelow(x: int, d: int)
    requires x >= 0 && d > 0
    ensures 0 <= x / d * d <= x
  {
    assert x == d * (x / d) + x % d;
  }

  /** Below a, scaled by b, stays below a * b. */
  lemma ScaledBelow(v: int, a: int, b: int, c: int)
    requires 0 <= v < a && b > 0 && a * b == c
    ensures 0 <= v * b < c
  {
    MulMono(b, v, a - 1);
    MulMono(b, 0, v);
  }

  /** A number written as high * d + low with 0 <= low < d has quotient high by d. */
  lemma DivideSplit(v: int, high: int, low: int, d: int)
    requires v == high * d + low && 0 <= low < d
    ensures v / d == high
  {
    DivModUnique(v, d, high, low);
  }

  /** Scaling both sides of a division by the same positive factor leaves the quotient unchanged. */
  lemma DivScaled(v: int, d: int, k: int, x: int, y: int)
    requires v >= 0 && d >= 1 && k >= 1 && x == v * k && y == d * k
    ensures x / y == v / d
  {
    var q, r := v / d, v % d;
    assert x == y * q + r * k by {
      assert v == d * q + r;
    }
    assert 0 <= r * k < y by { MulMono(k, r, d - 1); }
    DivModUnique(x, y, q, r * k);
  }

  /** Multiplying by d and dividing by d again is the identity. */
  lemma MulDivCancel(x: int, d: int)
    requires d > 0
    ensures (x * d) / d == x && (x * d) % d == 0
  {
    DivModUnique(x * d, d, x, 0);
  }

  /** Stepping x by one raises x / d by one exactly when x + 1 is a multiple of d. */
  lemma DivStep(x: int, d: int)
    requires d > 0
    ensures (x + 1) / d == x / d + (if (x + 1) % d == 0 then 1 else 0)
  {
    var q, r := x / d, x % d;
    if r < d - 1 {
      DivModUnique(x + 1, d, q, r + 1);
    } else {
      DivModUnique(x + 1, d, q + 1, 0);
    }
  }

  /** A multiple of d * e is a multiple of d. */
  lemma MultipleOfFactor(x: int, d: int, e: int)
    requires d > 0 && e > 0 && x % (d * e) == 0
    ensures x % d == 0
  {
    var q := x / (d * e);
    assert x == (d * e) * q;
    assert x == d * (e * q);
    DivModUnique(x, d, e * q, 0);
  }

  /** Scaling a bounded x by a positive factor at most m keeps it within the bounds scaled by m. */
  lemma MulBounds(x: int, lo: int, hi: int, s: int, m: int)
    requires lo < 0 < hi && lo <= x <= hi && 0 < s <= m
    ensures lo * m <= x * s <= hi * m
  {
    if x >= 0 {
      MulMono(s, x, hi);
      MulMono(hi, s, m);
      MulMono(s, 0, x);
      MulMono(-lo, 0, m);
    } else {
      MulMono(s, lo, x);
      MulMono(-lo, s, m);
      MulMono(-x, 0, s);
      MulMono(hi, 0, m);
    }
  }

  function Pow10(n: nat): (r: nat)
    ensures r >= 1
  {
    if n == 0 then 1 else 10 * Pow10(n - 1)
  }

  lemma {:induction false} Pow10Add(a: nat, b: nat)
    ensures Pow10(a + b) == Pow10(a) * Pow10(b)
    decreases a
  {
    if a > 0 {
      Pow10Add(a - 1, b);
      assert Pow10(a + b) == 10 * Pow10(a - 1 + b);
    }
  }

  lemma {:induction false} Pow10Mono(a: nat, b: nat)
    requires a <= b
    ensures Pow10(a) <= Pow10(b)
    decreases b - a
  {
    if a < b {
      Pow10Mono(a, b - 1);
    }
  }
}
