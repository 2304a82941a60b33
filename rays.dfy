/** `Ray`: an origin and a direction, evaluated at a parameter `t`. */
module Rays {
  import opened Vectors

  /** Rays are values: `at` reads `orig` and `dir` and never changes them. */
  datatype Ray = Ray(orig: Vec3, dir: Vec3)

  /** `ray.at(t) = orig + dir * t`. */
  function At(ray: Ray, t: real): (p: Vec3)
    ensures Sub(p, ray.orig) == Scale(ray.dir, t)
  {
    Add(ray.orig, Scale(ray.dir, t))
  }

  lemma AtZero(ray: Ray)
    ensures At(ray, 0.0) == ray.orig
  {
  }

  /** Moving `t2` further along the ray from `at(t1)` reaches `at(t1 + t2)`. */
  lemma AtAdditive(ray: Ray, t1: real, t2: real)
    ensures At(ray, t1 + t2) == Add(At(ray, t1), Scale(ray.dir, t2))
  {
  }
}
