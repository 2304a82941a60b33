/** Facts of real and integer arithmetic that the geometric proofs rely on. */
module Arith {

  // ------------------------------------------------------------- products

  /** A product of two positive reals is positive. */
  lemma PositiveProduct(a: real, b: real, p: real)
    requires a > 0.0 && b > 0.0 && a * b == p
    ensures p > 0.0
  {
  }

  /** The square of a positive real is positive. */
  lemma PositiveSquare(a: real, sq: real)
    requires a > 0.0 && a * a == sq
    ensures sq > 0.0
  {
    PositiveProduct(a, a, sq);
  }

  /** The square of a non-zero real is positive. */
  lemma SquarePositive(a: real)
    requires a != 0.0
    ensures a * a > 0.0
  {
    assert a > 0.0 ==> a * a > 0.0;
    assert a < 0.0 ==> a * a > 0.0;
  }

  /** `a * b^2 == b^2` with `b != 0` forces `a == 1`. */
  lemma CancelSquare(a: real, b: real)
    requires b != 0.0 && a * (b * b) == b * b
    ensures a == 1.0
  {
    SquarePositive(b);
    assert a > 1.0 ==> a * (b * b) > b * b;
    assert a < 1.0 ==> a * (b * b) < b * b;
  }

  /** A real whose square is at most 1 lies in `[-1, 1]`. */
  lemma SquareBound(a: real, rest: real)
    requires a * a + rest == 1.0
    requires rest >= 0.0
    ensures -1.0 <= a <= 1.0
  {
    assert a > 1.0 ==> a * a > a;
    assert a < -1.0 ==> a * a > -a;
  }

  /** A product with a positive factor is zero only when the other factor is. */
  lemma ZeroFactor(a: real, x: real)
    requires a > 0.0 && a * x == 0.0
    ensures x == 0.0
  {
    assert x > 0.0 ==> a * x > 0.0;
    assert x < 0.0 ==> a * x < 0.0;
  }

  /** A non-positive product with a positive factor has a non-positive other factor. */
  lemma NonPositiveFactor(a: real, b: real, p: real)
    requires b > 0.0 && a * b == p && p <= 0.0
    ensures a <= 0.0
  {
    assert a > 0.0 ==> a * b > 0.0;
  }

  // ----------------------------------------------------------- monotonicity

  /** Multiplying by a positive factor keeps the order of non-negative reals,
      strict and non-strict. */
  lemma MulMonotone(d: real, a: real, b: real)
    requires d > 0.0 && 0.0 <= a <= b
    ensures 0.0 <= d * a <= d * b
    ensures a < b ==> d * a < d * b
  {
  }

  /** Cancelling a positive factor keeps the order. */
  lemma MulCancelMonotone(u: real, v: real, a: real)
    requires a > 0.0 && u * a <= v * a
    ensures u <= v
  {
    assert u > v ==> u * a > v * a;
  }

  /** `x / a` is the unique real whose product with `a` is `x`. */
  lemma DivCancel(x: real, a: real)
    requires a > 0.0
    ensures (x / a) * a == x
  {
  }

  /** Dividing by a positive real keeps the order. */
  lemma DivMonotone(x: real, y: real, a: real)
    requires a > 0.0 && x <= y
    ensures x / a <= y / a
  {
    DivCancel(x, a);
    DivCancel(y, a);
    MulCancelMonotone(x / a, y / a, a);
  }

  // ---------------------------------------------------- integer division

  lemma MulAtLeast(k: int, e: int)
    requires e >= 1
    ensures k >= 1 ==> k * e >= e
  {
  }

  /** The quotient of `i < e * e` by `e` is below `e`. */
  lemma DivBelow(i: int, e: int)
    requires e >= 1 && 0 <= i < e * e
    ensures 0 <= i / e < e
  {
    assert i / e >= e ==> i >= e * e;
  }

  /** Quotient and remainder by `e` are unique. */
  lemma DivModUnique(i: int, e: int, q: int, p: int)
    requires e >= 1 && 0 <= p < e && i == q * e + p
    ensures i / e == q && i % e == p
  {
    var q', p' := i / e, i % e;
    assert i == q' * e + p';
    assert (q - q') * e == p' - p;
    MulAtLeast(q - q', e);
    MulAtLeast(q' - q, e);
  }
}
