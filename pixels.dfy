/** Per-pixel arithmetic of `raytrace`: camera, sample offsets, gamma,
    truncation to a byte and 24-bit RGB packing. */
module Pixels {
  import opened Arith
  import opened Vectors
  import opened Rays

  /** `SAMPLES_PER_EDGE`: the pixel is sampled on a 1 x 1 grid. */
  const SamplesPerEdge: int := 1

  // ---------------------------------------------------------------- camera

  const Origin: Vec3 := Vec3(0.0, 0.0, 0.0)
  const ViewportHeight: real := 2.0
  const FocalLength: real := 1.0

  function ViewportWidth(w: int, h: int): real
    requires h > 0
  {
    (w as real / h as real) * ViewportHeight
  }

  function Horizontal(w: int, h: int): Vec3
    requires h > 0
  {
    Vec3(ViewportWidth(w, h), 0.0, 0.0)
  }

  function Vertical(): Vec3 {
    Vec3(0.0, ViewportHeight, 0.0)
  }

  /** The lower-left corner of the viewport, one unit in front of the eye. */
  function LowerLeftCorner(w: int, h: int): (c: Vec3)
    requires h > 0
    ensures c == Vec3(-ViewportWidth(w, h) / 2.0, -ViewportHeight / 2.0, -FocalLength)
  {
    Sub(Sub(Sub(Origin, Div(Horizontal(w, h), 2.0)), Div(Vertical(), 2.0)), Vec3(0.0, 0.0, FocalLength))
  }

  // ------------------------------------------------------- sample offsets

  /** `aa_dist = 1.0 / SAMPLES_PER_EDGE` */
  function AaDist(e: int): real
    requires e >= 1
  {
    1.0 / e as real
  }

  /** `delta_u = half_aa_dist + i % E * aa_dist` */
  function DeltaU(e: int, i: int): real
    requires e >= 1
  {
    AaDist(e) / 2.0 + (i % e) as real * AaDist(e)
  }

  /** `delta_v = half_aa_dist + i // E * aa_dist` */
  function DeltaV(e: int, i: int): real
    requires e >= 1
  {
    AaDist(e) / 2.0 + (i / e) as real * AaDist(e)
  }

  /** The centre of cell `k` of a row of `e` equal cells lies strictly inside `(0, 1)`. */
  lemma CellCentreInside(e: int, k: int)
    requires e >= 1 && 0 <= k < e
    ensures 0.0 < AaDist(e) / 2.0 + k as real * AaDist(e) < 1.0
  {
    var d := AaDist(e);
    assert d * e as real == 1.0;
    assert d > 0.0;
    MulMonotone(d, k as real + 0.5, e as real);
  }

  /** Both offsets of every sample `i < E * E` lie strictly inside the pixel. */
  lemma OffsetsInsidePixel(e: int, i: int)
    requires e >= 1 && 0 <= i < e * e
    ensures 0.0 < DeltaU(e, i) < 1.0 && 0.0 < DeltaV(e, i) < 1.0
  {
    DivBelow(i, e);
    CellCentreInside(e, i % e);
    CellCentreInside(e, i / e);
  }

  /** The samples `0 .. E*E-1` visit every cell `(p, q)` of the E x E grid,
      at sample `q * E + p`, and no two samples share a cell. */
  lemma SampleGrid(e: int, p: int, q: int)
    requires e >= 1 && 0 <= p < e && 0 <= q < e
    ensures 0 <= q * e + p < e * e
    ensures (q * e + p) % e == p && (q * e + p) / e == q
  {
    MulAtLeast(e - q, e);
    assert q * e + p < e * e;
    DivModUnique(q * e + p, e, q, p);
  }

  lemma SamplesDistinct(e: int, i: int, j: int)
    requires e >= 1 && 0 <= i < e * e && 0 <= j < e * e
    requires i % e == j % e && i / e == j / e
    ensures i == j
  {
  }

  /** The viewport point of sample `i` of pixel `(x, y)`, relative to the eye.
      The vertical coordinate takes `delta_u` and the horizontal `delta_v`. */
  function PrimaryTarget(w: int, h: int, e: int, x: int, y: int, i: int): (t: Vec3)
    requires w > 1 && h > 1 && e >= 1
    ensures t.z == -FocalLength
  {
    var v := (y as real + DeltaU(e, i)) / (h as real - 1.0);
    var u := (x as real + DeltaV(e, i)) / (w as real - 1.0);
    Sub(Add(Add(LowerLeftCorner(w, h), ScaleLeft(u, Horizontal(w, h))), ScaleLeft(v, Vertical())), Origin)
  }

  /** The primary ray of sample `i` of pixel `(x, y)`: from the eye, along
      the normalised target, which is never zero. */
  function PrimaryRay(sqrt: real -> real, w: int, h: int, e: int, x: int, y: int, i: int): (r: Ray)
    requires IsSqrt(sqrt) && w > 1 && h > 1 && e >= 1
    ensures r.orig == Origin && LengthSquared(r.dir) == 1.0
  {
    var t := PrimaryTarget(w, h, e, x, y, i);
    InFrontNonZero(t);
    LengthPositive(sqrt, t);
    Ray(Origin, Unit(sqrt, t))
  }

  lemma InFrontNonZero(v: Vec3)
    requires v.z == -FocalLength
    ensures LengthSquared(v) > 0.0
  {
    LengthSquaredNonNegative(Vec3(v.x, v.y, 0.0));
  }

  // ------------------------------------------------------ gamma and bytes

  /** Gamma 2: `sqrt` of a channel in `[0, 1]` stays in `[0, 1]`. */
  function Gamma(sqrt: real -> real, c: real): (g: real)
    requires IsSqrt(sqrt) && 0.0 <= c <= 1.0
    ensures 0.0 <= g <= 1.0 && g * g == c
  {
    RootAtMostOne(sqrt(c), c);
    sqrt(c)
  }

  lemma RootAtMostOne(s: real, c: real)
    requires s >= 0.0 && s * s == c && c <= 1.0
    ensures s <= 1.0
  {
    NonPositiveFactor(s - 1.0, s + 1.0, c - 1.0);
  }

  /** Python's `int(x)`: truncation toward zero. */
  function Truncate(x: real): (n: int)
    ensures 0.0 <= x ==> 0 <= n && n as real <= x < n as real + 1.0
    ensures x < 0.0 ==> n <= 0 && n as real - 1.0 < x <= n as real
  {
    if x >= 0.0 then x.Floor else -((-x).Floor)
  }

  /** `int(c * 255)` for a channel in `[0, 1]` is a byte. */
  function ToByte(c: real): (b: int)
    requires 0.0 <= c <= 1.0
    ensures 0 <= b <= 255
    ensures b as real <= c * 255.0 < b as real + 1.0
  {
    Truncate(c * 255.0)
  }

  /** `r << 16 | g << 8 | b << 0` for three bytes, as the 32-bit pixel word
      the buffer holds: the bytes side by side in the low 24 bits, each
      recovered by shifting and masking. */
  function Pack(r: bv8, g: bv8, b: bv8): (p: bv32)
    ensures p <= 0xFF_FFFF
    ensures (p >> 16) & 0xFF == r as bv32
    ensures (p >> 8) & 0xFF == g as bv32
    ensures (p >> 0) & 0xFF == b as bv32
  {
    ((r as bv32) << 16) | ((g as bv32) << 8) | ((b as bv32) << 0)
  }

  /** The packed word is `r * 2^16 + g * 2^8 + b`. */
  lemma PackIsPositional(r: bv8, g: bv8, b: bv8)
    ensures Pack(r, g, b) == (r as bv32) * 0x1_0000 + (g as bv32) * 0x100 + (b as bv32)
  {
  }

  /** Pure red with half blue. */
  lemma PackExample()
    ensures Pack(255, 0, 127) == 0xFF007F
  {
  }
}
