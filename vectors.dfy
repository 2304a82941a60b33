/** The 3-vector algebra of `Vec3`: component-wise arithmetic, dot product,
    lengths, normalisation and reflection, all over exact reals.

    `math.sqrt` is a foreign function; it is taken as a parameter `sqrt`
    that satisfies `IsSqrt`: on non-negative arguments it returns the
    non-negative square root. */
module Vectors {
  import opened Arith

  datatype Vec3 = Vec3(x: real, y: real, z: real)

  /** `a + b` (`Vec3.__add__`). */
  function Add(a: Vec3, b: Vec3): Vec3 {
    Vec3(a.x + b.x, a.y + b.y, a.z + b.z)
  }

  /** `a - b` (`Vec3.__sub__`). */
  function Sub(a: Vec3, b: Vec3): Vec3 {
    Vec3(a.x - b.x, a.y - b.y, a.z - b.z)
  }

  /** `v * s` (`Vec3.__mul__`). */
  function Scale(v: Vec3, s: real): Vec3 {
    Vec3(v.x * s, v.y * s, v.z * s)
  }

  /** `s * v` (`Vec3.__rmul__`, which multiplies each component on the right). */
  function ScaleLeft(s: real, v: Vec3): Vec3 {
    Vec3(v.x * s, v.y * s, v.z * s)
  }

  /** `v / s` (`Vec3.__truediv__`); Python raises on `s == 0`. */
  function Div(v: Vec3, s: real): Vec3
    requires s != 0.0
  {
    Vec3(v.x / s, v.y / s, v.z / s)
  }

  function Dot(a: Vec3, b: Vec3): real {
    a.x * b.x + a.y * b.y + a.z * b.z
  }

  function LengthSquared(v: Vec3): real {
    v.x * v.x + v.y * v.y + v.z * v.z
  }

  /** `sqrt` behaves like the exact square root on the non-negative reals. */
  ghost predicate IsSqrt(sqrt: real -> real) {
    forall x :: x >= 0.0 ==> sqrt(x) >= 0.0 && sqrt(x) * sqrt(x) == x
  }

  function Length(sqrt: real -> real, v: Vec3): (r: real)
    requires IsSqrt(sqrt)
    ensures r >= 0.0 && r * r == LengthSquared(v)
  {
    LengthSquaredNonNegative(v);
    sqrt(LengthSquared(v))
  }

  /** `unit(v) = v / length(v)`; Python raises when the length is zero, so
      callers must supply a positive length (a length is never negative). */
  function Unit(sqrt: real -> real, v: Vec3): (u: Vec3)
    requires IsSqrt(sqrt) && Length(sqrt, v) > 0.0
    ensures LengthSquared(u) == 1.0
    ensures Scale(u, Length(sqrt, v)) == v
  {
    DivByLength(sqrt, v);
    Div(v, Length(sqrt, v))
  }

  /** The vector that `reflect` normalises: `v - normal * 2.0 * dot(v, normal)`. */
  function Mirror(v: Vec3, n: Vec3): Vec3 {
    Sub(v, Scale(Scale(n, 2.0), Dot(v, n)))
  }

  /** `reflect(v, normal) = unit(v - normal * 2.0 * dot(v, normal))`. */
  function Reflect(sqrt: real -> real, v: Vec3, n: Vec3): (r: Vec3)
    requires IsSqrt(sqrt) && Length(sqrt, Mirror(v, n)) > 0.0
    ensures LengthSquared(r) == 1.0
  {
    Unit(sqrt, Mirror(v, n))
  }

  // ---------------------------------------------------------------- lemmas

  lemma LengthSquaredNonNegative(v: Vec3)
    ensures LengthSquared(v) >= 0.0
  {
    assert v.x * v.x >= 0.0 && v.y * v.y >= 0.0 && v.z * v.z >= 0.0;
  }

  /** A vector has a positive length exactly when it has a positive squared
      length; only then does `unit` not divide by zero. */
  lemma LengthPositive(sqrt: real -> real, v: Vec3)
    requires IsSqrt(sqrt)
    ensures Length(sqrt, v) > 0.0 <==> LengthSquared(v) > 0.0
  {
    var len := Length(sqrt, v);
    if len > 0.0 {
      PositiveSquare(len, LengthSquared(v));
    }
  }

  lemma DivByLength(sqrt: real -> real, v: Vec3)
    requires IsSqrt(sqrt) && Length(sqrt, v) > 0.0
    ensures LengthSquared(Div(v, Length(sqrt, v))) == 1.0
  {
    DivByNorm(v, Length(sqrt, v));
  }

  /** Dividing by a non-zero `len` with `len * len == |v|^2` normalises `v`. */
  lemma DivByNorm(v: Vec3, len: real)
    requires len != 0.0 && len * len == LengthSquared(v)
    ensures LengthSquared(Div(v, len)) == 1.0
  {
    var d := Div(v, len);
    assert d.x * len == v.x && d.y * len == v.y && d.z * len == v.z;
    calc {
      LengthSquared(d) * (len * len);
      (d.x * len) * (d.x * len) + (d.y * len) * (d.y * len) + (d.z * len) * (d.z * len);
      LengthSquared(v);
      len * len;
    }
    CancelSquare(LengthSquared(d), len);
  }

  lemma DotSymmetric(a: Vec3, b: Vec3)
    ensures Dot(a, b) == Dot(b, a)
  {
  }

  lemma LengthSquaredIsDot(v: Vec3)
    ensures LengthSquared(v) == Dot(v, v) >= 0.0
  {
    LengthSquaredNonNegative(v);
  }

  lemma AddThenSub(a: Vec3, b: Vec3)
    ensures Sub(Add(a, b), b) == a
  {
  }

  lemma ScaleCommutes(v: Vec3, s: real)
    ensures Scale(v, s) == ScaleLeft(s, v)
  {
  }

  lemma DivIsScaleByInverse(v: Vec3, s: real)
    requires s != 0.0
    ensures Div(v, s) == Scale(v, 1.0 / s)
  {
  }

  /** Dividing every component by `s` divides the squared length by `s*s`. */
  lemma LengthSquaredDiv(v: Vec3, s: real)
    requires s != 0.0
    ensures LengthSquared(Div(v, s)) * (s * s) == LengthSquared(v)
  {
    var d := Div(v, s);
    assert d.x * s == v.x && d.y * s == v.y && d.z * s == v.z;
    calc {
      LengthSquared(d) * (s * s);
      (d.x * s) * (d.x * s) + (d.y * s) * (d.y * s) + (d.z * s) * (d.z * s);
      LengthSquared(v);
    }
  }

  lemma UnitIsNormalised(sqrt: real -> real, v: Vec3)
    requires IsSqrt(sqrt) && Length(sqrt, v) > 0.0
    ensures LengthSquared(Unit(sqrt, v)) == 1.0
    ensures Length(sqrt, Unit(sqrt, v)) == 1.0
  {
    UnitLengthIsOne(sqrt, Unit(sqrt, v));
  }

  /** Reflecting about a unit normal flips the normal component and keeps the
      squared length (of the vector before normalisation). */
  lemma MirrorProperties(v: Vec3, n: Vec3)
    requires LengthSquared(n) == 1.0
    ensures Dot(Mirror(v, n), n) == -Dot(v, n)
    ensures LengthSquared(Mirror(v, n)) == LengthSquared(v)
  {
    var d := Dot(v, n);
    var w := Mirror(v, n);
    assert w == Vec3(v.x - 2.0 * d * n.x, v.y - 2.0 * d * n.y, v.z - 2.0 * d * n.z);
    calc {
      Dot(w, n);
      d - 2.0 * d * LengthSquared(n);
      -d;
    }
    calc {
      LengthSquared(w);
      LengthSquared(v) - 4.0 * d * d + 4.0 * d * d * LengthSquared(n);
      LengthSquared(v);
    }
  }

  /** For a unit vector and a unit normal, `reflect` is an involution. */
  lemma ReflectInvolution(sqrt: real -> real, v: Vec3, n: Vec3)
    requires IsSqrt(sqrt) && LengthSquared(n) == 1.0 && LengthSquared(v) == 1.0
    ensures Length(sqrt, Mirror(v, n)) == 1.0
    ensures Length(sqrt, Mirror(Reflect(sqrt, v, n), n)) == 1.0
    ensures Reflect(sqrt, Reflect(sqrt, v, n), n) == v
  {
    MirrorProperties(v, n);
    var w := Mirror(v, n);
    UnitLengthIsOne(sqrt, w);
    assert Reflect(sqrt, v, n) == w by { UnitOfUnit(sqrt, w); }
    MirrorProperties(w, n);
    UnitLengthIsOne(sqrt, Mirror(w, n));
    UnitOfUnit(sqrt, Mirror(w, n));
    assert Mirror(w, n) == v;
  }

  lemma UnitLengthIsOne(sqrt: real -> real, v: Vec3)
    requires IsSqrt(sqrt) && LengthSquared(v) == 1.0
    ensures Length(sqrt, v) == 1.0
  {
    var l := Length(sqrt, v);
    assert l > 1.0 ==> l * l > l;
    assert l < 1.0 ==> l * l <= l;
  }

  lemma UnitOfUnit(sqrt: real -> real, v: Vec3)
    requires IsSqrt(sqrt) && LengthSquared(v) == 1.0
    ensures Length(sqrt, v) == 1.0 && Unit(sqrt, v) == v
  {
    UnitLengthIsOne(sqrt, v);
  }

  /** Every component of a unit vector lies in `[-1, 1]`. */
  lemma UnitComponents(v: Vec3)
    requires LengthSquared(v) == 1.0
    ensures -1.0 <= v.x <= 1.0 && -1.0 <= v.y <= 1.0 && -1.0 <= v.z <= 1.0
  {
    SquareBound(v.x, v.y * v.y + v.z * v.z);
    SquareBound(v.y, v.x * v.x + v.z * v.z);
    SquareBound(v.z, v.x * v.x + v.y * v.y);
  }

}
