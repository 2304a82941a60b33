/** `Hit`, `Sphere` and the analytic ray–sphere intersection `hit_with_ray`. */
module Spheres {
  import opened Arith
  import opened Vectors
  import opened Rays

  /** A ray–surface intersection record. */
  datatype Hit = Hit(point: Vec3, normal: Vec3, t: real, material: int)

  /** The placeholder returned together with `False` when nothing is hit. */
  const DefaultHit: Hit := Hit(Vec3(0.0, 0.0, 0.0), Vec3(0.0, 0.0, 0.0), 0.0, 0)

  /** A sphere with its material id (0 mirror, 1 green diffuse, else grey diffuse). */
  datatype Sphere = Sphere(center: Vec3, radius: real, material: int)

  // The terms of the quadratic `a t^2 + 2 half_b t + c = 0` whose roots are
  // the parameters where the ray meets the sphere.

  function Oc(s: Sphere, ray: Ray): Vec3 {
    Sub(ray.orig, s.center)
  }

  function HalfB(s: Sphere, ray: Ray): real {
    Dot(Oc(s, ray), ray.dir)
  }

  function CTerm(s: Sphere, ray: Ray): real {
    LengthSquared(Oc(s, ray)) - s.radius * s.radius
  }

  function Discriminant(s: Sphere, ray: Ray): real {
    HalfB(s, ray) * HalfB(s, ray) - LengthSquared(ray.dir) * CTerm(s, ray)
  }

  /** The nearer root `(-half_b - sqrt(d)) / a`. */
  function NearRoot(sqrt: real -> real, s: Sphere, ray: Ray): real
    requires LengthSquared(ray.dir) > 0.0
  {
    (-HalfB(s, ray) - sqrt(Discriminant(s, ray))) / LengthSquared(ray.dir)
  }

  /** The farther root `(-half_b + sqrt(d)) / a`. */
  function FarRoot(sqrt: real -> real, s: Sphere, ray: Ray): real
    requires LengthSquared(ray.dir) > 0.0
  {
    (-HalfB(s, ray) + sqrt(Discriminant(s, ray))) / LengthSquared(ray.dir)
  }

  /** The negation of the rejection test `root < t_min or root > t_max`. */
  predicate InInterval(t: real, tMin: real, tMax: real) {
    !(t < tMin || t > tMax)
  }

  /** The outward normal at `at(t)`, flipped when it does not face the ray. */
  function FaceNormal(s: Sphere, ray: Ray, t: real): (n: Vec3)
    requires s.radius != 0.0
    ensures var outward := Div(Sub(At(ray, t), s.center), s.radius);
      n == outward || n == Scale(outward, -1.0)
    ensures Dot(ray.dir, n) <= 0.0
    // a ray grazing the surface (dot product 0) gets the inward normal
    ensures Dot(ray.dir, Div(Sub(At(ray, t), s.center), s.radius)) == 0.0
      ==> n == Scale(Div(Sub(At(ray, t), s.center), s.radius), -1.0)
  {
    var outward := Div(Sub(At(ray, t), s.center), s.radius);
    if Dot(ray.dir, outward) < 0.0 then outward else Scale(outward, -1.0)
  }

  /** `hit_with_ray(sphere, ray, t_min, t_max)`: the flag and the hit record.
      The ray direction must be non-zero: with a zero direction the
      discriminant is 0 and the root divides by zero. The radius must be
      non-zero: with a zero radius the normal divides by zero whenever a root
      lies in `[t_min, t_max]` (otherwise the source reports a miss). */
  function HitWithRay(sqrt: real -> real, s: Sphere, ray: Ray, tMin: real, tMax: real): (r: (bool, Hit))
    requires IsSqrt(sqrt) && LengthSquared(ray.dir) > 0.0 && s.radius != 0.0
    // no real root: no hit
    ensures Discriminant(s, ray) < 0.0 ==> r == (false, DefaultHit)
    // the near root wins whenever it lies in the interval
    ensures Discriminant(s, ray) >= 0.0 && InInterval(NearRoot(sqrt, s, ray), tMin, tMax)
      ==> r.0 && r.1.t == NearRoot(sqrt, s, ray)
    // the far root only when the near one is outside; no hit when both are
    ensures Discriminant(s, ray) >= 0.0 && !InInterval(NearRoot(sqrt, s, ray), tMin, tMax)
            && !InInterval(FarRoot(sqrt, s, ray), tMin, tMax)
      ==> r == (false, DefaultHit)
    ensures Discriminant(s, ray) >= 0.0 && !InInterval(NearRoot(sqrt, s, ray), tMin, tMax)
            && InInterval(FarRoot(sqrt, s, ray), tMin, tMax)
      ==> r.0 && r.1.t == FarRoot(sqrt, s, ray)
    // shape of the result
    ensures !r.0 ==> r.1 == DefaultHit
    ensures r.0 ==> tMin <= r.1.t <= tMax
    ensures r.0 ==> r.1.point == At(ray, r.1.t) && r.1.material == s.material
    ensures r.0 ==> Dot(ray.dir, r.1.normal) <= 0.0
    // the normal is the face normal at the hit: `(point - center) / radius`, or its negation
    ensures r.0 ==> r.1.normal == FaceNormal(s, ray, r.1.t)
  {
    if Discriminant(s, ray) < 0.0 then (false, DefaultHit)
    else
      var root :=
        if InInterval(NearRoot(sqrt, s, ray), tMin, tMax) then NearRoot(sqrt, s, ray)
        else FarRoot(sqrt, s, ray);
      if !InInterval(root, tMin, tMax) then (false, DefaultHit)
      else (true, Hit(At(ray, root), FaceNormal(s, ray, root), root, s.material))
  }

  // ---------------------------------------------------------------- lemmas

  /** The near root never exceeds the far root. */
  lemma NearBeforeFar(sqrt: real -> real, s: Sphere, ray: Ray)
    requires IsSqrt(sqrt) && LengthSquared(ray.dir) > 0.0 && Discriminant(s, ray) >= 0.0
    ensures NearRoot(sqrt, s, ray) <= FarRoot(sqrt, s, ray)
  {
    var a := LengthSquared(ray.dir);
    assert sqrt(Discriminant(s, ray)) >= 0.0;
    DivMonotone(-HalfB(s, ray) - sqrt(Discriminant(s, ray)), -HalfB(s, ray) + sqrt(Discriminant(s, ray)), a);
  }

  /** Both roots solve the quadratic. */
  lemma RootsSolveQuadratic(sqrt: real -> real, s: Sphere, ray: Ray)
    requires IsSqrt(sqrt) && LengthSquared(ray.dir) > 0.0 && Discriminant(s, ray) >= 0.0
    ensures Quadratic(LengthSquared(ray.dir), HalfB(s, ray), CTerm(s, ray), NearRoot(sqrt, s, ray)) == 0.0
    ensures Quadratic(LengthSquared(ray.dir), HalfB(s, ray), CTerm(s, ray), FarRoot(sqrt, s, ray)) == 0.0
  {
    DivCancel(-HalfB(s, ray) - sqrt(Discriminant(s, ray)), LengthSquared(ray.dir));
    DivCancel(-HalfB(s, ray) + sqrt(Discriminant(s, ray)), LengthSquared(ray.dir));
    QuadraticRoot(LengthSquared(ray.dir), HalfB(s, ray), CTerm(s, ray), sqrt(Discriminant(s, ray)), NearRoot(sqrt, s, ray));
    QuadraticRoot(LengthSquared(ray.dir), HalfB(s, ray), CTerm(s, ray), sqrt(Discriminant(s, ray)), FarRoot(sqrt, s, ray));
  }

  function Quadratic(a: real, halfB: real, c: real, t: real): real {
    a * (t * t) + 2.0 * halfB * t + c
  }

  lemma QuadraticRoot(a: real, halfB: real, c: real, sq: real, t: real)
    requires a > 0.0 && sq * sq == halfB * halfB - a * c
    requires t * a == -halfB - sq || t * a == -halfB + sq
    ensures Quadratic(a, halfB, c, t) == 0.0
  {
    assert t * a == -halfB - sq ==> (t * a + halfB) * (t * a + halfB) == sq * sq;
    assert t * a == -halfB + sq ==> (t * a + halfB) * (t * a + halfB) == sq * sq;
    calc {
      a * Quadratic(a, halfB, c, t);
      (t * a + halfB) * (t * a + halfB) - (halfB * halfB - a * c);
      0.0;
    }
    ZeroFactor(a, Quadratic(a, halfB, c, t));
  }

  /** Expanding `|oc + d t|^2`. */
  lemma ShiftedLengthSquared(oc: Vec3, d: Vec3, t: real)
    ensures LengthSquared(Add(oc, Scale(d, t)))
         == LengthSquared(oc) + 2.0 * Dot(oc, d) * t + LengthSquared(d) * (t * t)
  {
  }

  /** A returned hit point lies on the sphere. */
  lemma HitOnSphere(sqrt: real -> real, s: Sphere, ray: Ray, tMin: real, tMax: real)
    requires IsSqrt(sqrt) && LengthSquared(ray.dir) > 0.0 && s.radius != 0.0
    requires HitWithRay(sqrt, s, ray, tMin, tMax).0
    ensures LengthSquared(Sub(HitWithRay(sqrt, s, ray, tMin, tMax).1.point, s.center))
         == s.radius * s.radius
  {
    var h := HitWithRay(sqrt, s, ray, tMin, tMax).1;
    RootsSolveQuadratic(sqrt, s, ray);
    assert Sub(h.point, s.center) == Add(Oc(s, ray), Scale(ray.dir, h.t));
    ShiftedLengthSquared(Oc(s, ray), ray.dir, h.t);
  }

  /** A returned normal has length 1. */
  lemma HitNormalUnit(sqrt: real -> real, s: Sphere, ray: Ray, tMin: real, tMax: real)
    requires IsSqrt(sqrt) && LengthSquared(ray.dir) > 0.0 && s.radius != 0.0
    requires HitWithRay(sqrt, s, ray, tMin, tMax).0
    ensures LengthSquared(HitWithRay(sqrt, s, ray, tMin, tMax).1.normal) == 1.0
  {
    var h := HitWithRay(sqrt, s, ray, tMin, tMax).1;
    HitOnSphere(sqrt, s, ray, tMin, tMax);
    var outward := Div(Sub(h.point, s.center), s.radius);
    assert h.normal == outward || h.normal == Scale(outward, -1.0);
    DivByNorm(Sub(h.point, s.center), s.radius);
    assert LengthSquared(Scale(outward, -1.0)) == LengthSquared(outward);
  }

  /** Querying with a smaller upper bound `c` keeps exactly the hits of the
      full query whose `t` is at most `c`. */
  lemma HitNarrowing(sqrt: real -> real, s: Sphere, ray: Ray, tMin: real, tMax: real, c: real)
    requires IsSqrt(sqrt) && LengthSquared(ray.dir) > 0.0 && s.radius != 0.0
    requires c <= tMax
    ensures HitWithRay(sqrt, s, ray, tMin, c)
         == if HitWithRay(sqrt, s, ray, tMin, tMax).0 && HitWithRay(sqrt, s, ray, tMin, tMax).1.t <= c
            then HitWithRay(sqrt, s, ray, tMin, tMax)
            else (false, DefaultHit)
  {
    if Discriminant(s, ray) >= 0.0 {
      NearBeforeFar(sqrt, s, ray);
    }
  }
}
