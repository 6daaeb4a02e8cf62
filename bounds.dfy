/** Facts about absolute errors of real numbers, used to bound rounding drift. */
module RealBounds {

  function Abs(x: real): (a: real)
    ensures a >= 0.0 && (a == x || a == -x)
  {
    if x < 0.0 then -x else x
  }

  lemma MultiplyNonnegative(a: real, b: real)
    requires a >= 0.0 && b >= 0.0
    ensures a * b >= 0.0
  {
  }

  /** Multiplying by a nonnegative factor keeps an inequality. */
  lemma MultiplyMonotone(a: real, b: real, c: real)
    requires a <= b && c >= 0.0
    ensures a * c <= b * c
  {
    MultiplyNonnegative(b - a, c);
    assert (b - a) * c == b * c - a * c;
  }

  /** Dividing by a positive number keeps an inequality. */
  lemma DivideMonotone(a: real, b: real, p: real)
    requires a <= b && p > 0.0
    ensures a / p <= b / p
  {
    MultiplyMonotone(a, b, 1.0 / p);
    assert a / p == a * (1.0 / p) && b / p == b * (1.0 / p);
  }

  /** The ratios y / x and x / y of two positive numbers are positive and reciprocal. */
  lemma ReciprocalRatios(x: real, y: real)
    requires x > 0.0 && y > 0.0
    ensures y / x > 0.0 && x / y > 0.0
    ensures (y / x) * (x / y) == 1.0
  {
  }

  /** Dividing a nonnegative number by a positive one and multiplying by another keeps it nonnegative. */
  lemma QuotientProductNonnegative(a: real, p: real, q: real)
    requires a >= 0.0 && p > 0.0 && q > 0.0
    ensures a / p >= 0.0
    ensures a / p * q >= 0.0
  {
    MultiplyNonnegative(a / p, q);
  }

  /** Dividing by p and multiplying by p again gives back the number. */
  lemma QuotientCancels(a: real, p: real)
    requires p > 0.0
    ensures a / p * p == a
  {
  }

  /** |e| <= d and k >= 0 give |e * k| <= d * k. */
  lemma ScaleBound(e: real, d: real, k: real)
    requires Abs(e) <= d && k >= 0.0
    ensures Abs(e * k) <= d * k
  {
    MultiplyMonotone(Abs(e), d, k);
    if e < 0.0 {
      assert Abs(e * k) == (-e) * k;
    } else {
      MultiplyNonnegative(e, k);
    }
  }

  /** |x| <= d and |y| <= d give |x * y| <= d * d. */
  lemma ProductBound(x: real, y: real, d: real)
    requires Abs(x) <= d && Abs(y) <= d
    ensures Abs(x * y) <= d * d
  {
    ScaleBound(x, d, Abs(y));
    MultiplyMonotone(Abs(y), d, d);
    assert Abs(x * Abs(y)) == Abs(x * y);
    assert d * Abs(y) == Abs(y) * d;
  }

  /** With k * w == 1, the error of u * v from 1 is at most the errors e1 of u and e2 of v scaled, plus their product. */
  lemma ErrorOfProduct(u: real, v: real, k: real, w: real, e1: real, e2: real)
    requires k * w == 1.0 && e1 == u - k && e2 == v - w
    ensures Abs(u * v - 1.0) <= Abs(e2 * k) + Abs(e1 * w) + Abs(e1 * e2)
  {
    assert u * v - 1.0 == e2 * k + e1 * w + e1 * e2;
  }

  /** If u approximates k and v approximates w == 1/k, each within d, then u * v approximates 1. */
  lemma ProductOfApproximations(u: real, v: real, k: real, w: real, d: real)
    requires k > 0.0 && w > 0.0 && k * w == 1.0
    requires Abs(u - k) <= d && Abs(v - w) <= d
    ensures Abs(u * v - 1.0) <= d * k + d * w + d * d
  {
    var e1, e2 := u - k, v - w;
    ErrorOfProduct(u, v, k, w, e1, e2);
    ScaleBound(e2, d, k);
    ScaleBound(e1, d, w);
    ProductBound(e1, e2, d);
  }
}
