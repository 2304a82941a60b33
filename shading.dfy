/** `ray_color`: the depth-bounded recursive shader (sky gradient, material
    scattering and tint, 0.5 attenuation per bounce). */
module Shading {
  import opened Wrappers
  import opened Vectors
  import opened Rays
  import opened Spheres
  import opened Scene
  import opened Randomness

  const BackTopColor: Vec3 := Vec3(1.0, 1.0, 1.0)
  const BackBottomColor: Vec3 := Vec3(0.5, 0.7, 1.0)
  const Black: Vec3 := Vec3(0.0, 0.0, 0.0)
  const MaxDepth: int := 32
  const TMin: real := 0.001
  const TMax: real := 200.0

  /** Every channel lies in `[0, 1]`. */
  predicate InUnitCube(c: Vec3) {
    0.0 <= c.x <= 1.0 && 0.0 <= c.y <= 1.0 && 0.0 <= c.z <= 1.0
  }

  /** Every channel lies in `[0, 0.5]`. */
  predicate AtMostHalf(c: Vec3) {
    0.0 <= c.x <= 0.5 && 0.0 <= c.y <= 0.5 && 0.0 <= c.z <= 0.5
  }

  /** The background: a blend from `BACK_TOP_COLOR` (direction pointing down,
      `dir.y == -1`) to `BACK_BOTTOM_COLOR` (`dir.y == 1`). For directions
      with `-1 <= dir.y <= 1` each channel lies between the two colours'
      channels. */
  function SkyColor(ray: Ray): (c: Vec3)
    ensures -1.0 <= ray.dir.y <= 1.0 ==>
      BackBottomColor.x <= c.x <= BackTopColor.x &&
      BackBottomColor.y <= c.y <= BackTopColor.y &&
      c.z == BackTopColor.z == BackBottomColor.z
    ensures ray.dir.y == -1.0 ==> c == BackTopColor
    ensures ray.dir.y == 1.0 ==> c == BackBottomColor
  {
    var t := 0.5 * (ray.dir.y + 1.0);
    Add(ScaleLeft(1.0 - t, BackTopColor), ScaleLeft(t, BackBottomColor))
  }

  /** Looking further up never makes the red or green channel brighter. */
  lemma SkyColorMonotone(r1: Ray, r2: Ray)
    requires r1.dir.y <= r2.dir.y
    ensures SkyColor(r2).x <= SkyColor(r1).x && SkyColor(r2).y <= SkyColor(r1).y
  {
  }

  /** The colour filter of a material: material 1 keeps 20% of red and blue
      and 99% of green; every other material keeps all of it. */
  function Tint(c: Vec3, material: int): (r: Vec3)
    ensures material != 1 ==> r == c
    ensures material == 1 ==> r == Vec3(c.x * 0.2, c.y * 0.99, c.z * 0.2)
    ensures InUnitCube(c) ==> InUnitCube(r)
  {
    if material == 1 then Vec3(c.x * 0.2, c.y * 0.99, c.z * 0.2) else c
  }

  /** Tinting black gives black, whatever the material. */
  lemma TintBlack(material: int)
    ensures Tint(Black, material) == Black
  {
  }

  /** The diffuse scatter target `hit.point + hit.normal + rnd - hit.point`. */
  function DiffuseTarget(h: Hit, rnd: Vec3): Vec3 {
    Sub(Add(Add(h.point, h.normal), rnd), h.point)
  }

  /** The ray leaving a hit and the next draw position. Material 0 mirrors the
      hit point (not the incoming direction) about the normal; every other
      material scatters towards `normal + random_in_unit_sphere()` and draws
      three or six numbers. Normalising a zero vector is `ZeroDivisionError`. */
  function Scatter(sqrt: real -> real, h: Hit, draws: nat -> real, pos: nat): (r: (Result<Ray>, nat))
    requires IsSqrt(sqrt)
    ensures r.0.Success? ==> r.0.value.orig == h.point && LengthSquared(r.0.value.dir) == 1.0
    ensures h.material == 0 ==> r.1 == pos
    ensures h.material != 0 ==> r.1 == RandomInUnitSphereSpec(draws, pos).1
    ensures h.material == 0 ==> (r.0.Success? <==> LengthSquared(Mirror(h.point, h.normal)) > 0.0)
    ensures h.material != 0 ==>
      (r.0.Success? <==> LengthSquared(DiffuseTarget(h, RandomInUnitSphereSpec(draws, pos).0)) > 0.0)
  {
    if h.material == 0 then
      LengthPositive(sqrt, Mirror(h.point, h.normal));
      if Length(sqrt, Mirror(h.point, h.normal)) > 0.0
      then (Success(Ray(h.point, Reflect(sqrt, h.point, h.normal))), pos)
      else (Failure(ZeroDivision), pos)
    else
      var (rnd, next) := RandomInUnitSphereSpec(draws, pos);
      LengthPositive(sqrt, DiffuseTarget(h, rnd));
      if Length(sqrt, DiffuseTarget(h, rnd)) > 0.0
      then (Success(Ray(h.point, Unit(sqrt, DiffuseTarget(h, rnd)))), next)
      else (Failure(ZeroDivision), next)
  }

  /** `ray_color(ray, depth)` over the scene `scene`, reading random draws from
      position `pos` of `draws`: the colour (or the division by zero that
      aborts it) and the position of the next unused draw. Each bounce draws
      at most six numbers. */
  function RayColorSpec(sqrt: real -> real, scene: seq<Sphere>, ray: Ray, depth: int, draws: nat -> real, pos: nat)
    : (r: (Result<Vec3>, nat))
    requires IsSqrt(sqrt) && LengthSquared(ray.dir) > 0.0 && ValidScene(scene)
    ensures depth <= 0 ==> r == (Success(Black), pos)
    ensures pos <= r.1 <= pos + 6 * (if depth < 0 then 0 else depth)
    decreases depth
  {
    if depth <= 0 then (Success(Black), pos)
    else
      var hit := ClosestHit(sqrt, scene, ray, TMin, TMax, |scene|);
      if hit.None? then (Success(SkyColor(ray)), pos)
      else
        var (next, p1) := Scatter(sqrt, hit.value, draws, pos);
        if next.Failure? then (Failure(next.error), p1)
        else
          var (res, p2) := RayColorSpec(sqrt, scene, next.value, depth - 1, draws, p1);
          if res.Failure? then (res, p2)
          else (Success(Scale(Tint(res.value, hit.value.material), 0.5)), p2)
  }

  /** One level of `ray_color` that misses every sphere returns the sky colour
      without drawing. */
  lemma RayColorSpecMiss(sqrt: real -> real, scene: seq<Sphere>, ray: Ray, depth: int, draws: nat -> real, pos: nat)
    requires IsSqrt(sqrt) && LengthSquared(ray.dir) > 0.0 && ValidScene(scene) && depth > 0
    requires ClosestHit(sqrt, scene, ray, TMin, TMax, |scene|).None?
    ensures RayColorSpec(sqrt, scene, ray, depth, draws, pos) == (Success(SkyColor(ray)), pos)
  {
  }

  /** What `ray_color` does after a hit `h`: scatter, shade the scattered ray
      one level lower, then tint by the hit material and halve. */
  function BounceSpec(sqrt: real -> real, scene: seq<Sphere>, h: Hit, depth: int, draws: nat -> real, pos: nat)
    : (r: (Result<Vec3>, nat))
    requires IsSqrt(sqrt) && ValidScene(scene)
  {
    var next := Scatter(sqrt, h, draws, pos);
    if next.0.Failure? then (Failure(next.0.error), next.1)
    else
      var sub := RayColorSpec(sqrt, scene, next.0.value, depth - 1, draws, next.1);
      if sub.0.Failure? then sub
      else (Success(Scale(Tint(sub.0.value, h.material), 0.5)), sub.1)
  }

  /** One level of `ray_color` that hits a sphere is the bounce off its hit. */
  lemma RayColorSpecHit(sqrt: real -> real, scene: seq<Sphere>, ray: Ray, depth: int, draws: nat -> real, pos: nat)
    requires IsSqrt(sqrt) && LengthSquared(ray.dir) > 0.0 && ValidScene(scene) && depth > 0
    requires ClosestHit(sqrt, scene, ray, TMin, TMax, |scene|).Some?
    ensures RayColorSpec(sqrt, scene, ray, depth, draws, pos)
         == BounceSpec(sqrt, scene, ClosestHit(sqrt, scene, ray, TMin, TMax, |scene|).value, depth, draws, pos)
  {
  }

  /** Recursion bottoms out at depth 0 with black, drawing nothing. */
  lemma RayColorDepthZero(sqrt: real -> real, scene: seq<Sphere>, ray: Ray, draws: nat -> real, pos: nat)
    requires IsSqrt(sqrt) && LengthSquared(ray.dir) > 0.0 && ValidScene(scene)
    ensures RayColorSpec(sqrt, scene, ray, 0, draws, pos) == (Success(Black), pos)
  {
  }

  /** For a unit-direction ray every channel of the colour lies in `[0, 1]`,
      and once the ray hits a sphere every channel is at most 0.5. */
  lemma {:induction false} RayColorChannels(sqrt: real -> real, scene: seq<Sphere>, ray: Ray, depth: int,
                                            draws: nat -> real, pos: nat)
    requires IsSqrt(sqrt) && LengthSquared(ray.dir) == 1.0 && ValidScene(scene)
    requires RayColorSpec(sqrt, scene, ray, depth, draws, pos).0.Success?
    ensures InUnitCube(RayColorSpec(sqrt, scene, ray, depth, draws, pos).0.value)
    ensures depth > 0 && ClosestHit(sqrt, scene, ray, TMin, TMax, |scene|).Some? ==>
      AtMostHalf(RayColorSpec(sqrt, scene, ray, depth, draws, pos).0.value)
    decreases depth
  {
    if depth > 0 {
      var hit := ClosestHit(sqrt, scene, ray, TMin, TMax, |scene|);
      if hit.None? {
        UnitComponents(ray.dir);
      } else {
        var (next, p1) := Scatter(sqrt, hit.value, draws, pos);
        RayColorChannels(sqrt, scene, next.value, depth - 1, draws, p1);
      }
    }
  }

  /** A mutable colour, as the source's `Vec3` objects are: the shader tints
      its result in place. */
  class Vec3Cell {
    var x: real
    var y: real
    var z: real

    constructor (v: Vec3)
      ensures Value() == v
    {
      x, y, z := v.x, v.y, v.z;
    }

    function Value(): Vec3
      reads this
    {
      Vec3(x, y, z)
    }
  }

  /** The colour a result holds, read out of its cell. */
  function Contents(r: Result<Vec3Cell>): (c: Result<Vec3>)
    reads if r.Success? then {r.value} else {}
    ensures c.Success? == r.Success?
  {
    match r
    case Success(cell) => Success(cell.Value())
    case Failure(e) => Failure(e)
  }

  /** The scatter step of `ray_color` (source lines choosing `new_ray`),
      drawing from `rng` for the diffuse materials. */
  method ScatterRay(sqrt: real -> real, h: Hit, rng: Rng) returns (next: Result<Ray>)
    requires IsSqrt(sqrt)
    modifies rng
    ensures (next, rng.pos) == Scatter(sqrt, h, rng.draws, old(rng.pos))
  {
    if h.material == 0 {
      if !(Length(sqrt, Mirror(h.point, h.normal)) > 0.0) {
        return Failure(ZeroDivision);
      }
      return Success(Ray(h.point, Reflect(sqrt, h.point, h.normal)));
    }
    var rnd := RandomInUnitSphere(rng);
    var target := DiffuseTarget(h, rnd);
    if !(Length(sqrt, target) > 0.0) {
      return Failure(ZeroDivision);
    }
    return Success(Ray(h.point, Unit(sqrt, target)));
  }

  /** The material-1 tint, applied in place to `c`. */
  method TintInPlace(c: Vec3Cell, material: int)
    modifies c
    ensures c.Value() == Tint(old(c.Value()), material)
  {
    if material == 1 {
      c.x := c.x * 0.2;
      c.y := c.y * 0.99;
      c.z := c.z * 0.2;
    }
  }

  /** The part of `ray_color` after a hit `h`, with the in-place tint of the
      colour the recursive call returns. */
  method Bounce(sqrt: real -> real, scene: seq<Sphere>, h: Hit, depth: int, rng: Rng, noHit: Vec3Cell)
    returns (result: Result<Vec3Cell>)
    requires IsSqrt(sqrt) && ValidScene(scene) && depth > 0
    requires noHit.Value() == Black
    modifies rng, noHit
    ensures noHit.Value() == Black
    ensures (Contents(result), rng.pos) == BounceSpec(sqrt, scene, h, depth, rng.draws, old(rng.pos))
    ensures result.Success? ==> fresh(result.value)
    decreases depth, 0
  {
    var next := ScatterRay(sqrt, h, rng);
    if next.Failure? {
      return Failure(next.error);
    }
    var sub := RayColor(sqrt, scene, next.value, depth - 1, rng, noHit);
    if sub.Failure? {
      return Failure(sub.error);
    }
    var res := sub.value;
    TintInPlace(res, h.material);
    TintBlack(h.material);
    // `result *= 0.5` rebinds `result` to a new object
    var scaled := new Vec3Cell(Scale(res.Value(), 0.5));
    return Success(scaled);
  }

  /** `ray_color(ray, depth)`. `noHit` is the shared `NO_HIT_COLOR` object,
      returned as is at depth 0; the material-1 tint then multiplies its
      channels in place, which leaves it black. */
  method RayColor(sqrt: real -> real, scene: seq<Sphere>, ray: Ray, depth: int, rng: Rng, noHit: Vec3Cell)
    returns (result: Result<Vec3Cell>)
    requires IsSqrt(sqrt) && LengthSquared(ray.dir) > 0.0 && ValidScene(scene)
    requires noHit.Value() == Black
    modifies rng, noHit
    ensures noHit.Value() == Black
    ensures (Contents(result), rng.pos) == RayColorSpec(sqrt, scene, ray, depth, rng.draws, old(rng.pos))
    ensures result.Success? ==> result.value == noHit || fresh(result.value)
    decreases depth, 1
  {
    if depth <= 0 {
      return Success(noHit);
    }
    var isHit, closest := HitAllSpheres(sqrt, scene, ray, TMin, TMax);
    if !isHit {
      RayColorSpecMiss(sqrt, scene, ray, depth, rng.draws, rng.pos);
      var sky := new Vec3Cell(SkyColor(ray));
      return Success(sky);
    }
    RayColorSpecHit(sqrt, scene, ray, depth, rng.draws, rng.pos);
    result := Bounce(sqrt, scene, closest.value, depth, rng, noHit);
  }
}
