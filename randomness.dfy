/** `random_in_unit_sphere` and the random source it draws from.

    Python's `random()` is a foreign, stateful generator. It is modelled as
    an arbitrary stream of draws `draws(0), draws(1), ...` together with the
    position of the next draw; nothing is assumed about its distribution. */
module Randomness {
  import opened Vectors

  /** `random()` returns a float in `[0, 1)`. */
  ghost predicate InUnitInterval(draws: nat -> real) {
    forall n: nat :: 0.0 <= draws(n) < 1.0
  }

  /** The random generator's state: a fixed stream and the index of the next draw. */
  class Rng {
    const draws: nat -> real
    var pos: nat

    constructor (draws: nat -> real, start: nat)
      ensures this.draws == draws && pos == start
    {
      this.draws := draws;
      pos := start;
    }

    /** `random()`: returns the next draw and advances the stream. */
    method Random() returns (r: real)
      modifies this
      ensures r == draws(old(pos)) && pos == old(pos) + 1
    {
      r := draws(pos);
      pos := pos + 1;
    }
  }

  /** `(random() - 0.5) * 2.0` for one draw `r`. */
  function Component(r: real): (c: real)
    ensures 0.0 <= r < 1.0 ==> -1.0 <= c < 1.0
  {
    (r - 0.5) * 2.0
  }

  /** The vector built from the three draws starting at `pos`. */
  function Triple(draws: nat -> real, pos: nat): Vec3 {
    Vec3(Component(draws(pos)), Component(draws(pos + 1)), Component(draws(pos + 2)))
  }

  /** `random_in_unit_sphere()` starting at draw `pos`: the result and the
      position after it. The first triple is kept when it lies strictly inside
      the unit ball; otherwise it is replaced once and unconditionally by the
      next triple. */
  function RandomInUnitSphereSpec(draws: nat -> real, pos: nat): (r: (Vec3, nat))
    ensures r.1 == (if LengthSquared(Triple(draws, pos)) < 1.0 then pos + 3 else pos + 6)
    ensures r.0 == Triple(draws, r.1 - 3)
  {
    var first := Triple(draws, pos);
    if LengthSquared(first) >= 1.0 then (Triple(draws, pos + 3), pos + 6) else (first, pos + 3)
  }

  /** Every component of the result lies in `[-1, 1)`. */
  lemma RandomInUnitSphereInCube(draws: nat -> real, pos: nat)
    requires InUnitInterval(draws)
    ensures var v := RandomInUnitSphereSpec(draws, pos).0;
      -1.0 <= v.x < 1.0 && -1.0 <= v.y < 1.0 && -1.0 <= v.z < 1.0
  {
    var p := RandomInUnitSphereSpec(draws, pos).1 - 3;
    assert 0.0 <= draws(p) < 1.0 && 0.0 <= draws(p + 1) < 1.0 && 0.0 <= draws(p + 2) < 1.0;
  }

  /** The single redraw does not guarantee a point of the unit ball: with every
      draw equal to 0 both triples are `(-1, -1, -1)`. */
  lemma RedrawCanLeaveBall()
    ensures var zeros := (n: nat) => 0.0;
      InUnitInterval(zeros) && LengthSquared(RandomInUnitSphereSpec(zeros, 0).0) == 3.0
  {
    var zeros := (n: nat) => 0.0;
    assert Triple(zeros, 3) == Vec3(-1.0, -1.0, -1.0);
  }

  /** `random_in_unit_sphere()`: draws three components and, when the point is
      not strictly inside the unit ball, overwrites the components in place
      with three fresh draws. */
  method RandomInUnitSphere(rng: Rng) returns (result: Vec3)
    modifies rng
    ensures (result, rng.pos) == RandomInUnitSphereSpec(rng.draws, old(rng.pos))
  {
    var r1 := rng.Random();
    var r2 := rng.Random();
    var r3 := rng.Random();
    result := Vec3(Component(r1), Component(r2), Component(r3));
    if LengthSquared(result) >= 1.0 {
      var s1 := rng.Random();
      result := result.(x := Component(s1));
      var s2 := rng.Random();
      result := result.(y := Component(s2));
      var s3 := rng.Random();
      result := result.(z := Component(s3));
    }
  }
}
