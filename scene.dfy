/** The scene and `hit_all_spheres`, the closest-hit search over it. */
module Scene {
  import opened Wrappers
  import opened Vectors
  import opened Rays
  import opened Spheres

  /** `SPHERES`: a mirror ball, a green diffuse ball and a large grey floor. */
  const SceneSpheres: seq<Sphere> := [
    Sphere(Vec3(0.55, 0.0, -1.5), 0.5, 0),
    Sphere(Vec3(-0.55, 0.0, -1.5), 0.5, 1),
    Sphere(Vec3(0.0, -100.5, -1.5), 100.0, 2)
  ]

  /** Every sphere has a non-zero radius, so `hit_with_ray` never divides by zero radius. */
  predicate ValidScene(scene: seq<Sphere>) {
    forall i :: 0 <= i < |scene| ==> scene[i].radius != 0.0
  }

  lemma SceneSpheresValid()
    ensures ValidScene(SceneSpheres)
  {
  }

  /** What sphere `j` alone reports for the whole interval `[tMin, tMax]`. */
  function FullHit(sqrt: real -> real, scene: seq<Sphere>, ray: Ray, tMin: real, tMax: real, j: nat): (bool, Hit)
    requires IsSqrt(sqrt) && LengthSquared(ray.dir) > 0.0 && ValidScene(scene) && j < |scene|
  {
    HitWithRay(sqrt, scene[j], ray, tMin, tMax)
  }

  /** The state of `hit_all_spheres` after its first `k` iterations: each
      sphere is asked for a hit no farther than the closest one so far, and
      a hit it reports replaces the current one. */
  function ClosestHit(sqrt: real -> real, scene: seq<Sphere>, ray: Ray, tMin: real, tMax: real, k: nat): (r: Option<Hit>)
    requires IsSqrt(sqrt) && LengthSquared(ray.dir) > 0.0 && ValidScene(scene) && k <= |scene|
    ensures r.Some? ==> tMin <= r.value.t <= tMax
    decreases k
  {
    if k == 0 then None
    else
      var prev := ClosestHit(sqrt, scene, ray, tMin, tMax, k - 1);
      var closest := if prev.Some? then prev.value.t else tMax;
      var res := HitWithRay(sqrt, scene[k - 1], ray, tMin, closest);
      if res.0 then Some(res.1) else prev
  }

  /** `h`, the hit of sphere `j` over the whole interval, is not beaten or
      tied by any sphere after `j` among the first `n`. */
  predicate Winner(sqrt: real -> real, scene: seq<Sphere>, ray: Ray, tMin: real, tMax: real, n: nat, j: nat, h: Hit)
    requires IsSqrt(sqrt) && LengthSquared(ray.dir) > 0.0 && ValidScene(scene) && n <= |scene|
  {
    j < n && FullHit(sqrt, scene, ray, tMin, tMax, j) == (true, h)
    && forall k :: j < k < n && FullHit(sqrt, scene, ray, tMin, tMax, k).0
         ==> FullHit(sqrt, scene, ray, tMin, tMax, k).1.t > h.t
  }

  /** The closest-hit search reports no hit exactly when no sphere hits in
      `[tMin, tMax]`. */
  lemma {:induction false} ClosestHitNone(sqrt: real -> real, scene: seq<Sphere>, ray: Ray, tMin: real, tMax: real, n: nat)
    requires IsSqrt(sqrt) && LengthSquared(ray.dir) > 0.0 && ValidScene(scene) && n <= |scene|
    ensures ClosestHit(sqrt, scene, ray, tMin, tMax, n).None?
        <==> forall j :: 0 <= j < n ==> !FullHit(sqrt, scene, ray, tMin, tMax, j).0
    decreases n
  {
    if n > 0 {
      var k := n - 1;
      ClosestHitNone(sqrt, scene, ray, tMin, tMax, k);
      var prev := ClosestHit(sqrt, scene, ray, tMin, tMax, k);
      var closest := if prev.Some? then prev.value.t else tMax;
      HitNarrowing(sqrt, scene[k], ray, tMin, tMax, closest);
      var full := FullHit(sqrt, scene, ray, tMin, tMax, k);
      if !(full.0 && full.1.t <= closest) {
        assert ClosestHit(sqrt, scene, ray, tMin, tMax, n) == prev;
      }
    }
  }

  /** The hit the search reports has the minimal `t` of all the spheres' hits. */
  lemma {:induction false} ClosestHitMinimal(sqrt: real -> real, scene: seq<Sphere>, ray: Ray, tMin: real, tMax: real, n: nat)
    requires IsSqrt(sqrt) && LengthSquared(ray.dir) > 0.0 && ValidScene(scene) && n <= |scene|
    ensures ClosestHit(sqrt, scene, ray, tMin, tMax, n).Some? ==>
      forall j :: 0 <= j < n && FullHit(sqrt, scene, ray, tMin, tMax, j).0
        ==> ClosestHit(sqrt, scene, ray, tMin, tMax, n).value.t <= FullHit(sqrt, scene, ray, tMin, tMax, j).1.t
    decreases n
  {
    if n > 0 {
      var k := n - 1;
      ClosestHitMinimal(sqrt, scene, ray, tMin, tMax, k);
      ClosestHitNone(sqrt, scene, ray, tMin, tMax, k);
      var prev := ClosestHit(sqrt, scene, ray, tMin, tMax, k);
      var closest := if prev.Some? then prev.value.t else tMax;
      HitNarrowing(sqrt, scene[k], ray, tMin, tMax, closest);
      var full := FullHit(sqrt, scene, ray, tMin, tMax, k);
      if full.0 && full.1.t <= closest {
        assert ClosestHit(sqrt, scene, ray, tMin, tMax, n) == Some(full.1);
      } else {
        assert ClosestHit(sqrt, scene, ray, tMin, tMax, n) == prev;
      }
    }
  }

  /** The hit the search reports is some sphere's own hit, and every later
      sphere that hits does so strictly further away: on a tie the later
      sphere wins. */
  lemma {:induction false} ClosestHitWinner(sqrt: real -> real, scene: seq<Sphere>, ray: Ray, tMin: real, tMax: real, n: nat)
    requires IsSqrt(sqrt) && LengthSquared(ray.dir) > 0.0 && ValidScene(scene) && n <= |scene|
    ensures ClosestHit(sqrt, scene, ray, tMin, tMax, n).Some? ==>
      exists j :: Winner(sqrt, scene, ray, tMin, tMax, n, j, ClosestHit(sqrt, scene, ray, tMin, tMax, n).value)
    decreases n
  {
    if n > 0 {
      var k := n - 1;
      ClosestHitWinner(sqrt, scene, ray, tMin, tMax, k);
      var prev := ClosestHit(sqrt, scene, ray, tMin, tMax, k);
      var closest := if prev.Some? then prev.value.t else tMax;
      HitNarrowing(sqrt, scene[k], ray, tMin, tMax, closest);
      var full := FullHit(sqrt, scene, ray, tMin, tMax, k);
      if full.0 && full.1.t <= closest {
        assert ClosestHit(sqrt, scene, ray, tMin, tMax, n) == Some(full.1);
        assert Winner(sqrt, scene, ray, tMin, tMax, n, k, full.1);
      } else {
        assert ClosestHit(sqrt, scene, ray, tMin, tMax, n) == prev;
        if prev.Some? {
          var j :| Winner(sqrt, scene, ray, tMin, tMax, k, j, prev.value);
          assert Winner(sqrt, scene, ray, tMin, tMax, n, j, prev.value);
        }
      }
    }
  }

  /** `hit_all_spheres(ray, t_min, t_max)`: scans the spheres in order,
      narrowing the upper bound to the closest hit found so far. */
  method HitAllSpheres(sqrt: real -> real, scene: seq<Sphere>, ray: Ray, tMin: real, tMax: real)
    returns (isAnyHit: bool, closestHit: Option<Hit>)
    requires IsSqrt(sqrt) && LengthSquared(ray.dir) > 0.0 && ValidScene(scene)
    ensures isAnyHit == closestHit.Some?
    ensures closestHit == ClosestHit(sqrt, scene, ray, tMin, tMax, |scene|)
  {
    var closest := tMax;
    isAnyHit := false;
    closestHit := None;
    for k := 0 to |scene|
      invariant closestHit == ClosestHit(sqrt, scene, ray, tMin, tMax, k)
      invariant isAnyHit == closestHit.Some?
      invariant closest == if closestHit.Some? then closestHit.value.t else tMax
    {
      var res := HitWithRay(sqrt, scene[k], ray, tMin, closest);
      if res.0 {
        closestHit := Some(res.1);
        closest := res.1.t;
        isAnyHit := true;
      }
    }
  }
}
