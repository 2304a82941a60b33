# A verified model of the pyconlt-2022 Python ray tracer

This project is a Dafny model of the rendering pipeline of the small Python
ray tracer in `python/tracer.py`. The module copies `python/vec3.py`,
`python/sphere.py` and `python/ray.py` contain the same logic, so one model
covers both. The model works over exact reals.

The modules follow the program's parts:

- `Vectors` (`vectors.dfy`): the `Vec3` operators, `dot`, `length_squared`,
  `length`, `unit` and `reflect`. `math.sqrt` is a parameter `sqrt`
  constrained by `IsSqrt`: for `x >= 0` it is non-negative and squares back
  to `x`.
- `Rays` (`rays.dfy`): `Ray` and `Ray.at`.
- `Randomness` (`randomness.dfy`): `random()` as a class `Rng`, which walks an
  arbitrary stream of draws, and `random_in_unit_sphere`, both as a method
  that reassigns the vector's components and as the function that specifies
  it.
- `Spheres` (`spheres.dfy`): `Hit`, `Sphere`, `DEFAULT_HIT` and
  `hit_with_ray`, covering the discriminant test, near and far roots, and the
  front-face normal flip.
- `Scene` (`scene.dfy`): `SPHERES` and `hit_all_spheres`, a loop that narrows
  the upper bound as it goes. It is proved against the recursive left fold
  `ClosestHit`, and that fold is proved to give the closest hit.
- `Shading` (`shading.dfy`): `ray_color`.
  - `RayColorSpec`, a pure function, threads the random-draw position.
  - `RayColor`, a method, mutates colour objects in place as the source does.
    Its part after a hit (scatter, recurse, tint, halve) is the method
    `Bounce`, specified by `BounceSpec`.
    The shared `NO_HIT_COLOR` object is a `Vec3Cell`, which the material-1
    tint may modify, since that tint multiplies channels in place.
- `Pixels` (`pixels.dfy`): the per-pixel arithmetic.
  - camera and sub-pixel sample grid
  - gamma via `sqrt`
  - Python's `int()` truncation
  - 24-bit packing
- `Raster` (`raster.dfy`): `raytrace`.
  - A pure specification `Render` gives the list of buffer stores made by the
    row-major pixel loops up to any point.
  - The method `Raytrace` writes an `array2<bv32>` buffer and is proved to
    leave in every cell what those stores leave.
- `Wrappers` (`wrappers.dfy`): `Option`, `Result` and `Outcome`.
- `Arith` (`arith.dfy`): the facts of real and integer arithmetic that the
  proofs above rely on.

Division by zero raises `ZeroDivisionError` in Python. The model handles it
in two ways:

- Where the source can reach it, the model returns `Failure(ZeroDivision)`,
  and an error stops the render as the exception would. Such a case is
  normalising a zero vector after a mirror or diffuse bounce.
- Where every caller rules it out, the model makes it a precondition: a zero
  ray direction or a zero radius in `hit_with_ray`. Primary rays and
  scattered rays are unit vectors (`PrimaryRay`, `Scatter`), and the scene's
  radii are non-zero constants (`SceneSpheresValid`).

Where the code departs from what a physically correct tracer would do, the
model follows the code:

- On a tie in `t`, the later sphere wins, because the rejection test
  `root > t_max` is not strict (`ClosestHitWinner`).
- The mirror material reflects the hit point, not the incoming direction.
- `random_in_unit_sphere` redraws exactly once and can return a point outside
  the unit ball (`RedrawCanLeaveBall`).
- Radii need only be non-zero (`ValidScene`), not positive.

## Model

| member | source | states |
|---|---|---|
| Vectors.Add | python/vec3.py:23-24 | component-wise sum; `AddThenSub` states that `__sub__` undoes it |
| Vectors.Sub | python/vec3.py:26-27 | component-wise difference; `AddThenSub` relates it to `Add` |
| Vectors.Scale | python/vec3.py:17-18 | `v * s`; `ScaleCommutes` states it equals `s * v` |
| Vectors.ScaleLeft | python/vec3.py:20-21 | `s * v`; `ScaleCommutes` states it equals `v * s` |
| Vectors.Div | python/vec3.py:14-15 | `v / s` for `s != 0`; `DivIsScaleByInverse`, `LengthSquaredDiv` and `DivByNorm` state its properties |
| Vectors.Dot | python/vec3.py:42-43 | the dot product; `DotSymmetric` and `LengthSquaredIsDot` state its properties |
| Vectors.LengthSquared | python/vec3.py:34-35 | the sum of the squared components; `LengthSquaredNonNegative` and `LengthSquaredIsDot` state its properties |
| Vectors.Mirror | python/vec3.py:59-60 | `v - normal * 2.0 * dot(v, normal)`, the vector `reflect` normalises; `MirrorProperties` states that it negates the normal component and keeps the length |
| Vectors.Length | python/vec3.py:38-39 | the length is non-negative and its square is `length_squared(v)` |
| Vectors.LengthPositive | python/vec3.py:30-39 | `length(v) > 0` exactly when `length_squared(v) > 0`, i.e. exactly when `unit(v)` does not divide by zero |
| Vectors.Unit | python/vec3.py:30-31 | for a non-zero length, `unit(v)` has squared length 1 and `unit(v) * length(v) == v` |
| Vectors.UnitIsNormalised | python/vec3.py:30-31 | `length_squared(unit(v)) == 1` and `length(unit(v)) == 1` |
| Vectors.UnitOfUnit | python/vec3.py:30-31 | a unit vector has length 1 and is its own `unit` |
| Vectors.DivByNorm | python/vec3.py:14-15 | dividing by any non-zero `l` with `l*l == length_squared(v)` normalises `v` |
| Vectors.LengthSquaredDiv | python/vec3.py:14-15 | `length_squared(v / s) * s*s == length_squared(v)` |
| Vectors.DivIsScaleByInverse | python/vec3.py:14-18 | `v / s == v * (1/s)` for `s != 0` |
| Vectors.ScaleCommutes | python/vec3.py:17-21 | `__mul__` and `__rmul__` agree: `v * s == s * v` |
| Vectors.AddThenSub | python/vec3.py:23-27 | `(a + b) - b == a` |
| Vectors.DotSymmetric | python/vec3.py:42-43 | `dot(a, b) == dot(b, a)` |
| Vectors.LengthSquaredIsDot | python/vec3.py:34-43 | `length_squared(v) == dot(v, v) >= 0` |
| Vectors.LengthSquaredNonNegative | python/vec3.py:34-35 | `length_squared(v) >= 0` |
| Vectors.Reflect | python/vec3.py:59-60 | when the mirrored vector is non-zero, `reflect(v, n)` has squared length 1 |
| Vectors.MirrorProperties | python/vec3.py:59-60 | for a unit `n` and `w = v - n*2*dot(v,n)`: `dot(w, n) == -dot(v, n)` and `length_squared(w) == length_squared(v)` |
| Vectors.ReflectInvolution | python/vec3.py:59-60 | for a unit `v` and a unit `n`, both reflections are defined and reflecting twice gives `v` back |
| Vectors.UnitComponents | python/tracer.py:165 | every component of a unit vector (so `ray.dir.y` for the blend factor) lies in `[-1, 1]` |
| Rays.At | python/ray.py:6-7 | `at(t) - orig == dir * t` |
| Rays.AtZero | python/ray.py:6-7 | `at(0) == orig` |
| Rays.AtAdditive | python/ray.py:6-7 | `at(t1 + t2) == at(t1) + dir * t2` |
| Randomness.Rng.Random | python/vec3.py:48-50 | `random()` returns the next draw of the stream and advances its position by one |
| Randomness.Component | python/vec3.py:48-50 | `(r - 0.5) * 2.0` lies in `[-1, 1)` for a draw `r` in `[0, 1)` |
| Randomness.Triple | python/vec3.py:47-51 | the vector made of three consecutive draws, each mapped by `Component`; `RandomInUnitSphereInCube` bounds its components |
| Randomness.RandomInUnitSphereSpec | python/vec3.py:46-56 | it consumes 3 draws when the first triple lies strictly inside the unit ball and 6 otherwise, and returns the last triple drawn |
| Randomness.RandomInUnitSphere | python/vec3.py:46-56 | the in-place redraw returns the specified vector and leaves the stream at the specified position |
| Randomness.RandomInUnitSphereInCube | python/vec3.py:46-56 | for draws in `[0, 1)` every component of the result lies in `[-1, 1)` |
| Randomness.RedrawCanLeaveBall | python/vec3.py:52-55 | with all draws 0 the result is `(-1,-1,-1)`, of squared length 3: a single redraw does not guarantee a point in the ball |
| Spheres.FaceNormal | python/sphere.py:40-43 | the normal is the outward normal `(at(t) - center) / radius` or its negation, and it satisfies `dot(ray.dir, normal) <= 0`; a grazing ray (dot product 0 with the outward normal) gets the negation |
| Spheres.HitWithRay | python/sphere.py:7-50 | negative discriminant gives `(False, DEFAULT_HIT)`; the near root is taken whenever it is in `[t_min, t_max]`, the far root only otherwise, and no hit when both are outside; a miss always carries `DEFAULT_HIT`; a hit has `t` in `[t_min, t_max]`, `point == at(t)`, the sphere's material and the face normal at `t`, which opposes the ray |
| Spheres.Oc | python/sphere.py:22 | `oc = ray.orig - center`; `HitOnSphere` uses it to place the hit point on the sphere |
| Spheres.HalfB | python/sphere.py:24 | `half_b = dot(oc, ray.dir)`; `RootsSolveQuadratic` states the roots built from it solve the quadratic |
| Spheres.CTerm | python/sphere.py:25 | `c = length_squared(oc) - radius^2`; `RootsSolveQuadratic` states the roots built from it solve the quadratic |
| Spheres.InInterval | python/sphere.py:33-35 | the negation of `root < t_min or root > t_max`; `HitWithRay` states that a root is taken exactly when it passes this test, and `HitNarrowing` how it changes with `t_max` |
| Spheres.Discriminant | python/sphere.py:22-26 | `half_b^2 - a*c` for `oc = orig - center`; `RootsSolveQuadratic` states that, when it is non-negative, both roots solve the quadratic |
| Spheres.NearRoot | python/sphere.py:31-32 | `(-half_b - sqrt(d)) / a`; `NearBeforeFar` and `RootsSolveQuadratic` state its properties |
| Spheres.FarRoot | python/sphere.py:31-34 | `(-half_b + sqrt(d)) / a`; `NearBeforeFar` and `RootsSolveQuadratic` state its properties |
| Spheres.NearBeforeFar | python/sphere.py:31-34 | the near root never exceeds the far root |
| Spheres.RootsSolveQuadratic | python/sphere.py:22-34 | both roots solve `a t^2 + 2 half_b t + c == 0` |
| Spheres.HitOnSphere | python/sphere.py:22-40 | a hit point lies on the sphere: `length_squared(point - center) == radius^2` |
| Spheres.HitNormalUnit | python/sphere.py:40-43 | a hit's normal has squared length 1 |
| Spheres.HitNarrowing | python/sphere.py:31-36 | querying with a smaller upper bound `c` keeps exactly the full query's hit when its `t <= c`, and is a miss otherwise |
| Scene.SceneSpheresValid | python/tracer.py:74-78 | every sphere of `SPHERES` (the constant `SceneSpheres`: the mirror ball, the green ball and the floor) has a non-zero radius |
| Scene.ClosestHit | python/tracer.py:169-180 | a hit found by the narrowing fold has `t` in `[t_min, t_max]` |
| Scene.ClosestHitNone | python/tracer.py:169-180 | no hit is reported exactly when no sphere hits in `[t_min, t_max]` |
| Scene.ClosestHitMinimal | python/tracer.py:169-180 | the reported hit's `t` is at most every sphere's own hit `t` over the whole interval |
| Scene.ClosestHitWinner | python/tracer.py:173-178 | the reported hit is some sphere's own hit, and every later sphere that hits does so strictly farther: ties go to the later sphere |
| Scene.HitAllSpheres | python/tracer.py:169-180 | the loop returns the fold's result, with `is_any_hit` true exactly when a hit is returned |
| Shading.SkyColor | python/tracer.py:164-166 | for `-1 <= dir.y <= 1` each channel lies between `BACK_BOTTOM_COLOR`'s and `BACK_TOP_COLOR`'s; `dir.y == -1` gives the top colour and `dir.y == 1` the bottom colour |
| Shading.SkyColorMonotone | python/tracer.py:164-166 | a higher `dir.y` never brightens the red or green channel |
| Shading.Tint | python/tracer.py:156-159 | only material 1 changes the colour, and tinting keeps every channel in `[0, 1]` |
| Shading.TintBlack | python/tracer.py:156-159 | tinting black gives black, so the tint leaves the shared `NO_HIT_COLOR` at `(0, 0, 0)` |
| Shading.DiffuseTarget | python/tracer.py:149 | `hit.point + hit.normal + rnd - hit.point`, the vector the diffuse bounce normalises; `Scatter` states it fails exactly when this vector is zero |
| Shading.Scatter | python/tracer.py:144-151 | a scattered ray starts at the hit point with a unit direction; the mirror draws nothing and the diffuse case draws as `random_in_unit_sphere` does; it fails exactly when the vector to normalise is zero |
| Shading.RayColorSpec | python/tracer.py:138-166 | `depth <= 0` gives black without drawing; each level lowers `depth` by one and draws at most 6 numbers, so a call draws at most `6 * depth` |
| Shading.RayColorSpecMiss | python/tracer.py:142-166 | a level that hits no sphere returns the sky colour and draws nothing |
| Shading.BounceSpec | python/tracer.py:144-162 | what remains after a hit: scatter, shade one level lower, tint and halve; `RayColorSpecHit` ties it to `RayColorSpec` |
| Shading.RayColorSpecHit | python/tracer.py:142-162 | a level that hits a sphere is the bounce off the closest hit |
| Shading.RayColorDepthZero | python/tracer.py:139-140 | at depth 0 the colour is `(0, 0, 0)` and nothing is drawn |
| Shading.RayColorChannels | python/tracer.py:138-166 | for a unit-direction ray every channel lies in `[0, 1]`, and after a hit every channel is at most 0.5 |
| Shading.ScatterRay | python/tracer.py:145-151 | the scatter step with the draws taken from `rng` computes `Scatter` |
| Shading.TintInPlace | python/tracer.py:156-159 | multiplying the channels in place leaves the tinted colour |
| Shading.Bounce | python/tracer.py:144-162 | the scatter, the recursive call and the in-place tint give the colour (or error) of `BounceSpec` and move the stream as it does; `NO_HIT_COLOR` stays black and the result is a new object |
| Shading.RayColor | python/tracer.py:138-166 | the recursive method with in-place tint returns the colour (or error) of `RayColorSpec` and moves the stream as it does; `NO_HIT_COLOR` is still `(0, 0, 0)` afterwards; the result is `NO_HIT_COLOR` itself or a new object |
| Pixels.ViewportWidth | python/tracer.py:84-86 | `aspect_ratio * viewport_height` with `aspect_ratio = w / h`; `LowerLeftCorner` states the corner in terms of it |
| Pixels.Horizontal | python/tracer.py:90 | `(viewport_width, 0, 0)`; `LowerLeftCorner` states the corner it yields |
| Pixels.Vertical | python/tracer.py:91 | `(0, viewport_height, 0)`; `LowerLeftCorner` states the corner it yields |
| Pixels.LowerLeftCorner | python/tracer.py:84-97 | the corner is `(-viewport_width/2, -viewport_height/2, -focal_length)` |
| Pixels.AaDist | python/tracer.py:99-100 | `1 / E`, the width of one sample cell; `OffsetsInsidePixel` uses it to bound the offsets |
| Pixels.DeltaU | python/tracer.py:99-109 | `aa_dist/2 + (i % E) * aa_dist`; `OffsetsInsidePixel` puts it strictly inside `(0, 1)` and `SampleGrid` states which `i` gives which cell |
| Pixels.DeltaV | python/tracer.py:99-110 | `aa_dist/2 + (i // E) * aa_dist`; `OffsetsInsidePixel` puts it strictly inside `(0, 1)` and `SampleGrid` states which `i` gives which cell |
| Pixels.OffsetsInsidePixel | python/tracer.py:99-110 | for `0 <= i < E*E` both sub-pixel offsets lie strictly inside `(0, 1)` |
| Pixels.SampleGrid | python/tracer.py:108-110 | every cell `(p, q)` of the `E x E` grid is reached by the sample `q*E + p < E*E` (that it is the only one is `SamplesDistinct`), with `i % E == p` and `i // E == q`; since `delta_u` feeds the vertical coordinate and `delta_v` the horizontal one, that sample lies in row `p` and column `q` of the grid |
| Pixels.SamplesDistinct | python/tracer.py:108-110 | two samples with the same grid cell are the same sample |
| Pixels.PrimaryTarget | python/tracer.py:112-120 | the viewport point of every sample lies one focal length in front of the eye |
| Pixels.PrimaryRay | python/tracer.py:115-121 | every primary ray starts at the origin and has a unit direction (its target is never zero) |
| Pixels.Gamma | python/tracer.py:126-128 | gamma 2 of a channel in `[0, 1]` lies in `[0, 1]` and squares back to the channel |
| Pixels.Truncate | python/tracer.py:131-133 | Python's `int()` truncates toward zero, for both signs |
| Pixels.ToByte | python/tracer.py:131-133 | `int(c * 255)` for `c` in `[0, 1]` is a byte `b` with `b <= c*255 < b + 1` |
| Pixels.Pack | python/tracer.py:130-134 | the packed word is at most `0xFFFFFF`, and shifting by 16, 8 and 0 and masking recovers each byte |
| Pixels.PackIsPositional | python/tracer.py:130-134 | the packed word is `r*2^16 + g*2^8 + b` |
| Pixels.PackExample | python/tracer.py:130-134 | `(255, 0, 127)` packs to `0xFF007F` |
| Raster.SampleSum | python/tracer.py:107-122 | the sum of the first `n` sample colours has every channel in `[0, n]` |
| Raster.SampleSumSticky | python/tracer.py:108-122 | once a sample fails, every longer run of samples fails with the same error at the same draw position |
| Raster.AverageInUnitInterval | python/tracer.py:124-126 | scaling a sum with channels in `[0, n]` by `1/n` gives a channel in `[0, 1]` |
| Raster.Channel | python/tracer.py:125-133 | `int(sqrt(scale * c) * 255)` as a byte; `Gamma` and `ToByte` state that it is the truncation of 255 times the gamma-corrected average |
| Raster.PixelWord | python/tracer.py:124-134 | the pixel word fits in 24 bits and its three bytes are the gamma-corrected, truncated channels |
| Raster.PixelValue | python/tracer.py:107-134 | a computed pixel word is at most `0xFFFFFF` |
| Raster.LastWrite | python/tracer.py:130 | a cell has no last store exactly when no store was made to it |
| Raster.Render | python/tracer.py:102-134 | every store of the run is inside the `w x h` buffer |
| Raster.RenderSticky | python/tracer.py:102-134 | after an error stops the run, nothing changes: not the stores, the error or the draw position |
| Raster.RenderStep | python/tracer.py:106-134 | one step of the pixel loop changes nothing after an error; otherwise it either stops on the pixel's error or appends the store of that pixel `(x, y)` at row `h - 1 - y` |
| Raster.RenderCount | python/tracer.py:102-106 | a run that no error stopped has made one store per pixel visited, `y*w + x` |
| Raster.RenderWritesOrdered | python/tracer.py:102-130 | every store so far is to the flipped cell of a pixel already visited, and no cell is stored twice |
| Raster.RenderWritesAll | python/tracer.py:102-130 | unless an error stopped it, the run has stored the flipped cell of every pixel visited |
| Raster.RaytraceCoversBuffer | python/tracer.py:102-130 | the whole run stores only inside the buffer and never twice to one cell; unless an error stopped it, it makes `w*h` stores and stores to every cell |
| Raster.RenderPrefix | python/tracer.py:102-134 | the stores made up to a loop position are a prefix of those made up to any later position |
| Raster.LastWriteAt | python/tracer.py:130 | a store that no later store overwrites is the last one to its cell |
| Raster.RenderStoresPixel | python/tracer.py:102-134 | after a run that no error stopped, cell `(x, h - 1 - y)` holds the word of pixel `(x, y)`, computed from the draw position the loops had reached at that pixel |
| Raster.StoredAppend | python/tracer.py:130 | after one more store, its cell holds the new word and every other cell what it held before |
| Raster.SampleColor | python/tracer.py:115-122 | sampling calls `ray_color` on the primary ray, with the result and draw position of `RayColorSpec` |
| Raster.RenderPixel | python/tracer.py:107-134 | the sample loop with accumulation, gamma and packing computes `PixelValue` and moves the stream as it does |
| Raster.StoreWord | python/tracer.py:130-134 | one store into the buffer keeps it in step with the store list |
| Raster.StorePixel | python/tracer.py:106-134 | one pixel step of the loops changes the buffer and the stream as one step of `Render` says |
| Raster.RenderImage | python/tracer.py:102-134 | the nested loops leave status, stream position and buffer as the whole of `Render` says |
| Raster.Raytrace | python/tracer.py:81-135 | `raytrace` stops with the run's error or finishes. Every cell of the buffer then holds the last word `Render` stores to it, or its old content where nothing was stored. The stream ends where `Render` ends it, and `NO_HIT_COLOR` is still black |

## Left out

- Floating point: the model uses exact reals, so it says nothing about
  rounding, NaN, infinities or pixel-for-pixel parity with the Python output.
- `math.sqrt` is a parameter `sqrt` that satisfies `IsSqrt`; the model
  assumes nothing more about it.
- `random()` is an arbitrary stream of draws together with the position of
  the next one; its statistical distribution is not modelled.
- Progress printing (python/tracer.py:103-104 and 135) is console output and
  is not modelled.
- Spheres.HitWithRay: requires a non-zero ray direction and a non-zero
  radius, and so says nothing about those inputs. With a zero direction the
  discriminant is 0 and the source always raises `ZeroDivisionError` at the
  root (python/sphere.py:32). With a zero radius it raises only when a root
  lies in `[t_min, t_max]`, at the normal (python/sphere.py:40); otherwise it
  returns `(False, DEFAULT_HIT)`. No caller reaches either case: primary and
  scattered rays have unit directions, and the radii are the constants 0.5,
  0.5 and 100.0 of `SPHERES`.
- Raster.Raytrace: takes the image size `w x h` (`w > 1`, `h > 1`) as
  parameters instead of the module constants `WIN_W, WIN_H = 320, 240`.
  The `SAMPLES_PER_EDGE` and `SPHERES` constants are parameters of the pure
  specifications. `HitAllSpheres`, `RayColor` and `Bounce` also take the
  scene as a parameter. `SampleColor`, `RenderPixel` and `Raytrace` use the
  constants themselves (`SceneSpheres`, `SamplesPerEdge`).
- Raster.Raytrace: the buffer is an `array2<bv32>` of packed words and may
  be larger than the image; pygame's surface array is not modelled.
- The mirror material reflects the hit point about the normal, exactly as
  python/tracer.py:146 does; the model does not change this to reflecting
  the incoming direction.
- python/main.py is pygame window and event-loop glue and is not part of this
  model. It calls `raytrace(arr, W, H)`, while `raytrace` takes only `arr`;
  that mismatch is not modelled.
- The Unity scripts under PyCon2022LT-Slides are slide-show UI code and are
  not part of this model.
- The `hit` module imported by python/sphere.py is not part of this model;
  `Hit` is the record of python/tracer.py:45-50. A miss is
  `(false, DefaultHit)` in `HitWithRay` and `None` in the closest-hit search
  (`HitAllSpheres` returns the flag together with the option).
- `Vec3.__iter__` is modelled only through its use: unpacking a colour into
  its three channels.
- `Ray.at` leaves `orig` and `dir` unchanged because `Ray` is a value; no
  separate statement is needed.
