/** Small facts about Swift's `abs`, `max`, `min` and `truncatingRemainder`
    over exact reals, shared by the colour conversions and the interpolation. */
module RealMath {

  /** Swift `abs` on a real. */
  function Abs(x: real): (r: real)
    ensures r >= 0.0
    ensures r == x || r == -x
  {
    if x < 0.0 then -x else x
  }

  /** Swift `max(a, b, c)`: the largest argument, and one of them. */
  function Max3(a: real, b: real, c: real): (r: real)
    ensures r >= a && r >= b && r >= c
    ensures r == a || r == b || r == c
  {
    if a >= b && a >= c then a else if b >= c then b else c
  }

  /** Swift `min(a, b, c)`: the smallest argument, and one of them. */
  function Min3(a: real, b: real, c: real): (r: real)
    ensures r <= a && r <= b && r <= c
    ensures r == a || r == b || r == c
  {
    if a <= b && a <= c then a else if b <= c then b else c
  }

  /** Rounding toward zero, as a Swift `Double` division truncates. */
  function Trunc(x: real): (k: int)
    ensures x >= 0.0 ==> k as real <= x < k as real + 1.0
    ensures x < 0.0 ==> k as real - 1.0 < x <= k as real
  {
    if x >= 0.0 then x.Floor else -((-x).Floor)
  }

  /** `a.truncatingRemainder(dividingBy: 2)`: `a - 2q` with `q` the quotient
      `a / 2` rounded toward zero, so the remainder has the sign of `a` and
      differs from `a` by a whole multiple of 2. */
  function TruncRem2(a: real): (r: real)
    ensures a >= 0.0 ==> 0.0 <= r < 2.0
    ensures a < 0.0 ==> -2.0 < r <= 0.0
    ensures ((a - r) / 2.0).Floor as real == (a - r) / 2.0
  {
    a - 2.0 * Trunc(a / 2.0) as real
  }

  /** On `[2k, 2k + 2)` the remainder is `a - 2k`. */
  lemma {:induction false} TruncRem2OnPiece(a: real, k: nat)
    requires 2.0 * k as real <= a < 2.0 * k as real + 2.0
    ensures TruncRem2(a) == a - 2.0 * k as real
  {
    assert Trunc(a / 2.0) == k;
  }

  /** The sign of a product with a positive factor is the sign of the other. */
  lemma ProductSign(p: real, d: real)
    requires d > 0.0
    ensures p * d < 0.0 ==> p < 0.0
    ensures p * d >= 0.0 ==> p >= 0.0
    ensures p * d <= 0.0 ==> p <= 0.0
    ensures p * d > 0.0 ==> p > 0.0
  {
  }

  /** Sign and size of a quotient by a positive divisor. */
  lemma QuotientBounds(x: real, d: real)
    requires d > 0.0
    ensures x <= d ==> x / d <= 1.0
    ensures x < d ==> x / d < 1.0
    ensures -d <= x ==> -1.0 <= x / d
    ensures 0.0 <= x ==> 0.0 <= x / d
    ensures x < 0.0 ==> x / d < 0.0
    ensures (x / d) * d == x
  {
    var q := x / d;
    assert q * d == x;
    ProductSign(q, d);
    assert (q - 1.0) * d == x - d;
    ProductSign(q - 1.0, d);
    assert (q + 1.0) * d == x + d;
    ProductSign(q + 1.0, d);
  }

  /** Scaling a non-negative value by a factor in [0, 1] keeps it in [0, c].
      The product is passed as `p`, so callers name it once. */
  lemma ScaleBelow(c: real, f: real, p: real)
    requires 0.0 <= c && 0.0 <= f <= 1.0 && p == c * f
    ensures 0.0 <= p <= c
  {
    assert c * f <= c * 1.0;
  }

  /** A product is zero exactly when one of its factors is. */
  lemma ZeroProduct(a: real, b: real)
    ensures a * b == 0.0 <==> a == 0.0 || b == 0.0
  {
  }

  /** Multiplying by a non-negative factor keeps an inequality. */
  lemma MulLeMono(a: real, b: real, k: real)
    requires a <= b && 0.0 <= k
    ensures a * k <= b * k
  {
  }

  /** A product divided by `n` is the first factor times the second over `n`. */
  lemma MulDivAssoc(a: real, b: real, n: real)
    requires n != 0.0
    ensures a * (b / n) == a * b / n
  {
  }

  /** The fraction `i * d / n` grows with `i` when `d` is non-negative and
      shrinks with `i` when `d` is negative. */
  lemma FractionMono(i: real, j: real, d: real, n: real)
    requires 0.0 <= i <= j && n > 0.0
    ensures 0.0 <= d ==> i * d / n <= j * d / n
    ensures d < 0.0 ==> j * d / n <= i * d / n
  {
    MulDivAssoc(i, d, n);
    MulDivAssoc(j, d, n);
    var f := d / n;
    if 0.0 <= d {
      QuotientBounds(d, n);
      MulLeMono(i, j, f);
    } else {
      QuotientBounds(d, n);
      MulLeMono(i, j, -f);
    }
  }

  /** Cubing is monotone on non-negative reals. */
  lemma {:induction false} CubeMono(w: real, v: real)
    requires 0.0 <= w <= v
    ensures w * w * w <= v * v * v
  {
    MulLeMono(w, v, w);
    MulLeMono(w, v, v);
    MulLeMono(w * w, v * v, w);
    MulLeMono(w, v, v * v);
  }
}
