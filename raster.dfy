/** `raytrace(arr)`: for every pixel, sample it, average, gamma-correct,
    pack and store it, rows flipped, into a caller-supplied buffer. */
module Raster {
  import opened Arith
  import opened Wrappers
  import opened Vectors
  import opened Rays
  import opened Spheres
  import opened Scene
  import opened Shading
  import opened Pixels
  import opened Randomness

  /** The sum of the colours of the first `n` samples of pixel `(x, y)`,
      drawing from position `pos`, and the next draw position. An error in
      a sample aborts the rest. */
  function SampleSum(sqrt: real -> real, scene: seq<Sphere>, w: int, h: int, e: int, x: int, y: int, n: nat,
                     draws: nat -> real, pos: nat): (r: (Result<Vec3>, nat))
    requires IsSqrt(sqrt) && ValidScene(scene) && w > 1 && h > 1 && e >= 1
    ensures r.0.Success? ==>
      0.0 <= r.0.value.x <= n as real && 0.0 <= r.0.value.y <= n as real && 0.0 <= r.0.value.z <= n as real
    decreases n
  {
    if n == 0 then (Success(Black), pos)
    else
      var (prev, p) := SampleSum(sqrt, scene, w, h, e, x, y, n - 1, draws, pos);
      if prev.Failure? then (prev, p)
      else
        var ray := PrimaryRay(sqrt, w, h, e, x, y, n - 1);
        var (c, p2) := RayColorSpec(sqrt, scene, ray, MaxDepth, draws, p);
        if c.Failure? then (Failure(c.error), p2)
        else
          RayColorChannels(sqrt, scene, ray, MaxDepth, draws, p);
          (Success(Add(prev.value, c.value)), p2)
  }

  /** Once a sample fails, the sum of any longer prefix is that failure. */
  lemma {:induction false} SampleSumSticky(sqrt: real -> real, scene: seq<Sphere>, w: int, h: int, e: int, x: int, y: int,
                                           k: nat, n: nat, draws: nat -> real, pos: nat)
    requires IsSqrt(sqrt) && ValidScene(scene) && w > 1 && h > 1 && e >= 1 && k <= n
    requires SampleSum(sqrt, scene, w, h, e, x, y, k, draws, pos).0.Failure?
    ensures SampleSum(sqrt, scene, w, h, e, x, y, n, draws, pos) == SampleSum(sqrt, scene, w, h, e, x, y, k, draws, pos)
    decreases n
  {
    if k < n {
      SampleSumSticky(sqrt, scene, w, h, e, x, y, k, n - 1, draws, pos);
    }
  }

  /** The average of `n` sample sums with channels in `[0, n]` lies in `[0, 1]`. */
  lemma AverageInUnitInterval(n: int, c: real)
    requires n >= 1 && 0.0 <= c <= n as real
    ensures 0.0 <= (1.0 / n as real) * c <= 1.0
  {
    var d := 1.0 / n as real;
    assert d * n as real == 1.0;
    MulMonotone(d, c, n as real);
  }

  /** One channel of a sum of `n` samples: average, gamma 2 and truncate to a byte. */
  function Channel(sqrt: real -> real, n: int, c: real): (b: bv8)
    requires IsSqrt(sqrt) && n >= 1 && 0.0 <= c <= n as real
  {
    AverageInUnitInterval(n, c);
    ToByte(Gamma(sqrt, (1.0 / n as real) * c)) as bv8
  }

  /** The pixel word for a sum of `n` samples: the three channels packed. */
  function PixelWord(sqrt: real -> real, n: int, sum: Vec3): (p: bv32)
    requires IsSqrt(sqrt) && n >= 1
    requires 0.0 <= sum.x <= n as real && 0.0 <= sum.y <= n as real && 0.0 <= sum.z <= n as real
    ensures p <= 0xFF_FFFF
    ensures (p >> 16) & 0xFF == Channel(sqrt, n, sum.x) as bv32
    ensures (p >> 8) & 0xFF == Channel(sqrt, n, sum.y) as bv32
    ensures (p >> 0) & 0xFF == Channel(sqrt, n, sum.z) as bv32
  {
    Pack(Channel(sqrt, n, sum.x), Channel(sqrt, n, sum.y), Channel(sqrt, n, sum.z))
  }

  /** The word for pixel `(x, y)` (or the error that aborts it) and the next draw position. */
  function PixelValue(sqrt: real -> real, scene: seq<Sphere>, w: int, h: int, e: int, x: int, y: int,
                      draws: nat -> real, pos: nat): (r: (Result<bv32>, nat))
    requires IsSqrt(sqrt) && ValidScene(scene) && w > 1 && h > 1 && e >= 1
    ensures r.0.Success? ==> r.0.value <= 0xFF_FFFF
  {
    var (sum, p) := SampleSum(sqrt, scene, w, h, e, x, y, e * e, draws, pos);
    if sum.Failure? then (Failure(sum.error), p)
    else (Success(PixelWord(sqrt, e * e, sum.value)), p)
  }

  /** The computation of one pixel from a draw position. */
  type PixelFn = (int, int, nat) -> (Result<bv32>, nat)

  /** The pixels of `raytrace`: the scene's spheres, `SAMPLES_PER_EDGE` and the draws `draws`. */
  function PixelFunction(sqrt: real -> real, w: int, h: int, draws: nat -> real): (pixel: PixelFn)
    requires IsSqrt(sqrt) && w > 1 && h > 1
  {
    SceneSpheresValid();
    (x: int, y: int, p: nat) => PixelValue(sqrt, SceneSpheres, w, h, SamplesPerEdge, x, y, draws, p)
  }

  /** `pixel` gives the pixels of `raytrace` for the draws `draws`. */
  ghost predicate Agrees(pixel: PixelFn, sqrt: real -> real, w: int, h: int, draws: nat -> real) {
    && IsSqrt(sqrt) && ValidScene(SceneSpheres) && w > 1 && h > 1
    && forall x, y, p {:trigger PixelValue(sqrt, SceneSpheres, w, h, SamplesPerEdge, x, y, draws, p)} ::
         pixel(x, y, p) == PixelValue(sqrt, SceneSpheres, w, h, SamplesPerEdge, x, y, draws, p)
  }

  lemma PixelFunctionAgrees(sqrt: real -> real, w: int, h: int, draws: nat -> real)
    requires IsSqrt(sqrt) && w > 1 && h > 1
    ensures Agrees(PixelFunction(sqrt, w, h, draws), sqrt, w, h, draws)
  {
    SceneSpheresValid();
  }

  /** One store `arr[x, row] = value`. */
  datatype Write = Write(x: int, row: int, value: bv32)

  /** The stores made so far, whether an error has aborted the run, and the
      next draw position. */
  datatype Frame = Frame(writes: seq<Write>, status: Outcome, pos: nat)

  /** The value of the last store to `(x, row)`, if any. */
  function LastWrite(writes: seq<Write>, x: int, row: int): (r: Option<bv32>)
    ensures r.None? <==> forall k :: 0 <= k < |writes| ==> !(writes[k].x == x && writes[k].row == row)
    decreases |writes|
  {
    if |writes| == 0 then None
    else if writes[|writes| - 1].x == x && writes[|writes| - 1].row == row then Some(writes[|writes| - 1].value)
    else LastWrite(writes[..|writes| - 1], x, row)
  }

  /** The content of a buffer cell that held `before`, after the stores `writes`. */
  function Stored(writes: seq<Write>, x: int, row: int, before: bv32): bv32 {
    match LastWrite(writes, x, row)
    case Some(v) => v
    case None => before
  }

  /** Some store of `writes` is to cell `(x, row)`. */
  predicate Written(writes: seq<Write>, x: int, row: int) {
    exists k :: 0 <= k < |writes| && writes[k].x == x && writes[k].row == row
  }

  /** Row-major order of the pixel loops: pixel `(cx, cy)` comes before position `(x, y)`. */
  predicate Before(y: int, x: int, cx: int, cy: int) {
    cy < y || (cy == y && cx < x)
  }

  /** The run of `raytrace` up to position `(x, y)` of the pixel loops, that
      is, over every row before `y` and the first `x` pixels of row `y`, where
      `pixel(x, y, pos)` gives the word of pixel `(x, y)` from draw position
      `pos`. Pixel `(x, y)` is stored at `(x, h - 1 - y)`; an error stops the
      run. */
  function Render(pixel: PixelFn, w: int, h: int, pos0: nat,
                  y: int, x: int): (f: Frame)
    requires w > 1 && h > 1
    requires 0 <= y <= h && 0 <= x <= w && (y == h ==> x == 0)
    ensures forall k :: 0 <= k < |f.writes| ==> 0 <= f.writes[k].x < w && 0 <= f.writes[k].row < h
    decreases y, x
  {
    if x == 0 then
      if y == 0 then Frame([], Pass, pos0)
      else Render(pixel, w, h, pos0, y - 1, w)
    else
      var prev := Render(pixel, w, h, pos0, y, x - 1);
      if prev.status.Fail? then prev
      else
        var (v, p) := pixel(x - 1, y, prev.pos);
        if v.Failure? then Frame(prev.writes, Fail(v.error), p)
        else Frame(prev.writes + [Write(x - 1, h - 1 - y, v.value)], Pass, p)
  }

  /** Position `(y1, x1)` is not after position `(y2, x2)`. */
  predicate NotAfter(y1: int, x1: int, y2: int, x2: int) {
    y1 < y2 || (y1 == y2 && x1 <= x2)
  }

  /** Once an error has stopped the run, nothing changes any more. */
  lemma {:induction false} RenderSticky(pixel: PixelFn, w: int, h: int, pos0: nat, y0: int, x0: int, y: int, x: int)
    requires w > 1 && h > 1
    requires 0 <= y0 <= h && 0 <= x0 <= w && (y0 == h ==> x0 == 0)
    requires 0 <= y <= h && 0 <= x <= w && (y == h ==> x == 0)
    requires NotAfter(y0, x0, y, x)
    requires Render(pixel, w, h, pos0, y0, x0).status.Fail?
    ensures Render(pixel, w, h, pos0, y, x) == Render(pixel, w, h, pos0, y0, x0)
    decreases y, x
  {
    if y0 == y && x0 == x {
    } else if x > 0 {
      RenderSticky(pixel, w, h, pos0, y0, x0, y, x - 1);
    } else {
      RenderSticky(pixel, w, h, pos0, y0, x0, y - 1, w);
    }
  }

  /** How one step of the pixel loop changes the run: after an error nothing
      changes; otherwise either an error stops it or one store is appended
      for pixel `(x - 1, y)` at row `h - 1 - y`. */
  lemma RenderStep(pixel: PixelFn, w: int, h: int, pos0: nat, y: int, x: int)
    requires w > 1 && h > 1
    requires 0 <= y < h && 0 < x <= w
    ensures var prev := Render(pixel, w, h, pos0, y, x - 1);
      var f := Render(pixel, w, h, pos0, y, x);
      var v := pixel(x - 1, y, prev.pos);
      if prev.status.Fail? then f == prev
      else if v.0.Failure? then f == Frame(prev.writes, Fail(v.0.error), v.1)
      else f == Frame(prev.writes + [Write(x - 1, h - 1 - y, v.0.value)], Pass, v.1)
  {
  }

  /** A run that no error stopped has made one store per pixel visited. */
  lemma {:induction false} RenderCount(pixel: PixelFn, w: int, h: int, pos0: nat, y: int, x: int)
    requires w > 1 && h > 1
    requires 0 <= y <= h && 0 <= x <= w && (y == h ==> x == 0)
    ensures var f := Render(pixel, w, h, pos0, y, x);
      f.status.Pass? ==> |f.writes| == y * w + x
    decreases y, x
  {
    if x == 0 {
      if y > 0 {
        RenderCount(pixel, w, h, pos0, y - 1, w);
        assert (y - 1) * w + w == y * w;
      }
    } else {
      RenderCount(pixel, w, h, pos0, y, x - 1);
      RenderStep(pixel, w, h, pos0, y, x);
    }
  }

  /** Every store of `ws` is to the flipped cell `(cx, h - 1 - cy)` of a pixel
      `(cx, cy)` before `(x, y)`. */
  predicate AllBefore(ws: seq<Write>, y: int, x: int, h: int) {
    forall k :: 0 <= k < |ws| ==> Before(y, x, ws[k].x, h - 1 - ws[k].row)
  }

  /** No cell is stored twice by `ws`. */
  predicate Distinct(ws: seq<Write>) {
    forall j, k :: 0 <= j < k < |ws| ==> !(ws[j].x == ws[k].x && ws[j].row == ws[k].row)
  }

  /** Every store of the run up to `(x, y)` is to the flipped cell of a pixel
      before `(x, y)`, and no cell is stored twice. */
  lemma {:induction false} RenderWritesOrdered(pixel: PixelFn, w: int, h: int, pos0: nat, y: int, x: int)
    requires w > 1 && h > 1
    requires 0 <= y <= h && 0 <= x <= w && (y == h ==> x == 0)
    ensures AllBefore(Render(pixel, w, h, pos0, y, x).writes, y, x, h)
    ensures Distinct(Render(pixel, w, h, pos0, y, x).writes)
    decreases y, x
  {
    if x == 0 {
      if y > 0 {
        RenderWritesOrdered(pixel, w, h, pos0, y - 1, w);
        var ws := Render(pixel, w, h, pos0, y - 1, w).writes;
        assert AllBefore(ws, y - 1, w, h);
        assert Render(pixel, w, h, pos0, y, 0).writes == ws;
      }
    } else {
      RenderWritesOrdered(pixel, w, h, pos0, y, x - 1);
      RenderStep(pixel, w, h, pos0, y, x);
      var prev := Render(pixel, w, h, pos0, y, x - 1);
      var v := pixel(x - 1, y, prev.pos);
      if prev.status.Pass? && v.0.Success? {
        AppendFresh(prev.writes, Write(x - 1, h - 1 - y, v.0.value), y, x, h);
      } else {
        assert Render(pixel, w, h, pos0, y, x).writes == prev.writes;
      }
    }
  }

  /** Unless an error stopped the run, every pixel before `(x, y)` has been stored. */
  lemma {:induction false} RenderWritesAll(pixel: PixelFn, w: int, h: int, pos0: nat, y: int, x: int)
    requires w > 1 && h > 1
    requires 0 <= y <= h && 0 <= x <= w && (y == h ==> x == 0)
    ensures var f := Render(pixel, w, h, pos0, y, x);
      f.status.Pass? ==> forall cx, cy :: 0 <= cx < w && 0 <= cy < h && Before(y, x, cx, cy) ==>
        Written(f.writes, cx, h - 1 - cy)
    decreases y, x
  {
    var f := Render(pixel, w, h, pos0, y, x);
    if x == 0 {
      if y > 0 {
        RenderWritesAll(pixel, w, h, pos0, y - 1, w);
        if f.status.Pass? {
          forall cx, cy | 0 <= cx < w && 0 <= cy < h && Before(y, 0, cx, cy)
            ensures Written(f.writes, cx, h - 1 - cy)
          {
            assert Before(y - 1, w, cx, cy);
          }
        }
      }
    } else {
      RenderWritesAll(pixel, w, h, pos0, y, x - 1);
      RenderStep(pixel, w, h, pos0, y, x);
      var prev := Render(pixel, w, h, pos0, y, x - 1).writes;
      if f.status.Pass? {
        forall cx, cy | 0 <= cx < w && 0 <= cy < h && Before(y, x, cx, cy)
          ensures Written(f.writes, cx, h - 1 - cy)
        {
          if Before(y, x - 1, cx, cy) {
            var k :| 0 <= k < |prev| && prev[k].x == cx && prev[k].row == h - 1 - cy;
            assert f.writes[k] == prev[k];
          } else {
            assert f.writes[|prev|].x == cx && f.writes[|prev|].row == h - 1 - cy;
          }
        }
      }
    }
  }

  /** Appending the store of pixel `(x - 1, y)` to stores of pixels before
      it keeps the stores distinct and before `(x, y)`. */
  lemma AppendFresh(prev: seq<Write>, wr: Write, y: int, x: int, h: int)
    requires wr.x == x - 1 && wr.row == h - 1 - y
    requires AllBefore(prev, y, x - 1, h) && Distinct(prev)
    ensures AllBefore(prev + [wr], y, x, h) && Distinct(prev + [wr])
  {
  }

  /** A run that no error stopped stores each cell of the `w x h` grid exactly
      once, and nothing outside it. */
  lemma RaytraceCoversBuffer(pixel: PixelFn, w: int, h: int, pos0: nat)
    requires w > 1 && h > 1
    ensures var f := Render(pixel, w, h, pos0, h, 0);
      (forall k :: 0 <= k < |f.writes| ==> 0 <= f.writes[k].x < w && 0 <= f.writes[k].row < h)
      && Distinct(f.writes)
      && (f.status.Pass? ==>
            |f.writes| == h * w &&
            forall cx, row :: 0 <= cx < w && 0 <= row < h ==> Written(f.writes, cx, row))
  {
    RenderWritesOrdered(pixel, w, h, pos0, h, 0);
    RenderWritesAll(pixel, w, h, pos0, h, 0);
    RenderCount(pixel, w, h, pos0, h, 0);
    var f := Render(pixel, w, h, pos0, h, 0);
    if f.status.Pass? {
      forall cx, row | 0 <= cx < w && 0 <= row < h
        ensures Written(f.writes, cx, row)
      {
        assert Before(h, 0, cx, h - 1 - row);
      }
    }
  }

  /** The stores of the run up to a position are a prefix of the stores of
      the run up to any later position. */
  lemma {:induction false} RenderPrefix(pixel: PixelFn, w: int, h: int, pos0: nat, y0: int, x0: int, y: int, x: int)
    requires w > 1 && h > 1
    requires 0 <= y0 <= h && 0 <= x0 <= w && (y0 == h ==> x0 == 0)
    requires 0 <= y <= h && 0 <= x <= w && (y == h ==> x == 0)
    requires NotAfter(y0, x0, y, x)
    ensures Render(pixel, w, h, pos0, y0, x0).writes <= Render(pixel, w, h, pos0, y, x).writes
    decreases y, x
  {
    if y0 == y && x0 == x {
    } else if x > 0 {
      RenderPrefix(pixel, w, h, pos0, y0, x0, y, x - 1);
      RenderStep(pixel, w, h, pos0, y, x);
    } else {
      RenderPrefix(pixel, w, h, pos0, y0, x0, y - 1, w);
    }
  }

  /** A store that no later store overwrites is the last one to its cell. */
  lemma {:induction false} LastWriteAt(writes: seq<Write>, k: int)
    requires 0 <= k < |writes|
    requires forall j :: k < j < |writes| ==> !(writes[j].x == writes[k].x && writes[j].row == writes[k].row)
    ensures LastWrite(writes, writes[k].x, writes[k].row) == Some(writes[k].value)
    decreases |writes|
  {
    if k < |writes| - 1 {
      LastWriteAt(writes[..|writes| - 1], k);
    }
  }

  /** After a run that no error stopped, the flipped cell `(x, h - 1 - y)`
      holds the word of pixel `(x, y)`, computed from the draw position the
      loops had reached at that pixel. */
  lemma RenderStoresPixel(pixel: PixelFn, w: int, h: int, pos0: nat, x: int, y: int)
    requires w > 1 && h > 1 && 0 <= x < w && 0 <= y < h
    requires Render(pixel, w, h, pos0, h, 0).status.Pass?
    ensures var v := pixel(x, y, Render(pixel, w, h, pos0, y, x).pos).0;
      v.Success? && LastWrite(Render(pixel, w, h, pos0, h, 0).writes, x, h - 1 - y) == Some(v.value)
  {
    var f1 := Render(pixel, w, h, pos0, y, x + 1);
    if f1.status.Fail? {
      RenderSticky(pixel, w, h, pos0, y, x + 1, h, 0);
      assert false;
    }
    RenderStep(pixel, w, h, pos0, y, x + 1);
    RenderPrefix(pixel, w, h, pos0, y, x + 1, h, 0);
    RenderWritesOrdered(pixel, w, h, pos0, h, 0);
    var ws := Render(pixel, w, h, pos0, h, 0).writes;
    var k := |f1.writes| - 1;
    assert ws[k] == f1.writes[k];
    LastWriteAt(ws, k);
  }

  /** After one more stored pixel, its cell holds the new word and every other
      cell what it held before. */
  lemma StoredAppend(writes: seq<Write>, wr: Write, x: int, row: int, before: bv32)
    ensures Stored(writes + [wr], x, row, before)
         == if wr.x == x && wr.row == row then wr.value else Stored(writes, x, row, before)
  {
    assert (writes + [wr])[..|writes|] == writes;
  }

  /** The colour of sample `i` of pixel `(x, y)`, as a value. */
  method SampleColor(sqrt: real -> real, w: int, h: int, x: int, y: int, i: int, rng: Rng, noHit: Vec3Cell)
    returns (c: Result<Vec3>)
    requires IsSqrt(sqrt) && w > 1 && h > 1
    requires noHit.Value() == Black
    modifies rng, noHit
    ensures noHit.Value() == Black
    ensures (c, rng.pos) == RayColorSpec(sqrt, SceneSpheres, PrimaryRay(sqrt, w, h, SamplesPerEdge, x, y, i),
                                         MaxDepth, rng.draws, old(rng.pos))
  {
    SceneSpheresValid();
    var cell := RayColor(sqrt, SceneSpheres, PrimaryRay(sqrt, w, h, SamplesPerEdge, x, y, i), MaxDepth, rng, noHit);
    c := Contents(cell);
  }

  /** The samples of pixel `(x, y)` summed, averaged, gamma-corrected and packed. */
  method RenderPixel(sqrt: real -> real, w: int, h: int, x: int, y: int, rng: Rng, noHit: Vec3Cell)
    returns (value: Result<bv32>)
    requires IsSqrt(sqrt) && w > 1 && h > 1
    requires noHit.Value() == Black
    modifies rng, noHit
    ensures noHit.Value() == Black
    ensures (value, rng.pos) == PixelValue(sqrt, SceneSpheres, w, h, SamplesPerEdge, x, y, rng.draws, old(rng.pos))
  {
    SceneSpheresValid();
    var n := SamplesPerEdge * SamplesPerEdge;
    ghost var pixelPos := rng.pos;
    var accum := Black;
    for i := 0 to n
      invariant (Success(accum), rng.pos)
             == SampleSum(sqrt, SceneSpheres, w, h, SamplesPerEdge, x, y, i, rng.draws, pixelPos)
      invariant noHit.Value() == Black
    {
      var c := SampleColor(sqrt, w, h, x, y, i, rng, noHit);
      if c.Failure? {
        SampleSumSticky(sqrt, SceneSpheres, w, h, SamplesPerEdge, x, y, i + 1, n, rng.draws, pixelPos);
        return Failure(c.error);
      }
      accum := Add(accum, c.value);
    }
    return Success(PixelWord(sqrt, n, accum));
  }

  /** The contents of `a`, column by column. */
  ghost function Snapshot(a: array2<bv32>): (s: seq<seq<bv32>>)
    reads a
    ensures |s| == a.Length0
    ensures forall i :: 0 <= i < a.Length0 ==> |s[i]| == a.Length1
    ensures forall i, j :: 0 <= i < a.Length0 && 0 <= j < a.Length1 ==> s[i][j] == a[i, j]
  {
    seq(a.Length0, i requires 0 <= i < a.Length0 reads a =>
      seq(a.Length1, j requires 0 <= j < a.Length1 reads a => a[i, j]))
  }

  /** Every cell of `arr` holds what the stores `ws` leave in a buffer whose
      cells held `init`. */
  ghost predicate Shows(arr: array2<bv32>, ws: seq<Write>, init: seq<seq<bv32>>)
    reads arr
  {
    && |init| == arr.Length0
    && (forall cx :: 0 <= cx < |init| ==> |init[cx]| == arr.Length1)
    && forall cx, row :: 0 <= cx < arr.Length0 && 0 <= row < arr.Length1 ==>
         arr[cx, row] == Stored(ws, cx, row, init[cx][row])
  }

  /** `arr[wr.x, wr.row] = wr.value` on a buffer that shows `prev`. */
  method StoreWord(arr: array2<bv32>, wr: Write, ghost prev: seq<Write>, ghost init: seq<seq<bv32>>)
    requires 0 <= wr.x < arr.Length0 && 0 <= wr.row < arr.Length1
    requires Shows(arr, prev, init)
    modifies arr
    ensures Shows(arr, prev + [wr], init)
  {
    arr[wr.x, wr.row] := wr.value;
    forall cx, row | 0 <= cx < arr.Length0 && 0 <= row < arr.Length1
      ensures arr[cx, row] == Stored(prev + [wr], cx, row, init[cx][row])
    {
      var held := old(arr[cx, row]);
      assert held == Stored(prev, cx, row, init[cx][row]);
      StoredAppend(prev, wr, cx, row, init[cx][row]);
    }
  }

  /** One step of the pixel loops: pixel `(x, y)` is rendered and, unless
      that fails, stored at `(x, h - 1 - y)`; no other cell changes. */
  method StorePixel(sqrt: real -> real, arr: array2<bv32>, w: int, h: int, x: int, y: int,
                    rng: Rng, noHit: Vec3Cell, ghost pixel: PixelFn, ghost pos0: nat, ghost init: seq<seq<bv32>>)
    returns (status: Outcome)
    requires Agrees(pixel, sqrt, w, h, rng.draws) && arr.Length0 >= w && arr.Length1 >= h
    requires 0 <= y < h && 0 <= x < w
    requires noHit.Value() == Black
    requires Render(pixel, w, h, pos0, y, x).status.Pass? && rng.pos == Render(pixel, w, h, pos0, y, x).pos
    requires Shows(arr, Render(pixel, w, h, pos0, y, x).writes, init)
    modifies arr, rng, noHit
    ensures noHit.Value() == Black
    ensures var f := Render(pixel, w, h, pos0, y, x + 1);
      status == f.status && rng.pos == f.pos && Shows(arr, f.writes, init)
  {
    RenderStep(pixel, w, h, pos0, y, x + 1);
    ghost var prev := Render(pixel, w, h, pos0, y, x).writes;
    var value := RenderPixel(sqrt, w, h, x, y, rng, noHit);
    if value.Failure? {
      return Fail(value.error);
    }
    var wr := Write(x, h - 1 - y, value.value);
    assert Render(pixel, w, h, pos0, y, x + 1).writes == prev + [wr];
    StoreWord(arr, wr, prev, init);
    return Pass;
  }

  /** The pixel loops of `raytrace`, for any `pixel` that gives its pixels. */
  method RenderImage(sqrt: real -> real, arr: array2<bv32>, w: int, h: int, rng: Rng, noHit: Vec3Cell,
                     ghost pixel: PixelFn)
    returns (status: Outcome)
    requires Agrees(pixel, sqrt, w, h, rng.draws) && arr.Length0 >= w && arr.Length1 >= h
    requires noHit.Value() == Black
    modifies arr, rng, noHit
    ensures noHit.Value() == Black
    ensures var f := Render(pixel, w, h, old(rng.pos), h, 0);
      status == f.status && rng.pos == f.pos && Shows(arr, f.writes, old(Snapshot(arr)))
  {
    ghost var pos0 := rng.pos;
    ghost var init := Snapshot(arr);
    assert Shows(arr, [], init);
    for y := 0 to h
      invariant Render(pixel, w, h, pos0, y, 0).status.Pass?
      invariant rng.pos == Render(pixel, w, h, pos0, y, 0).pos
      invariant noHit.Value() == Black
      invariant Shows(arr, Render(pixel, w, h, pos0, y, 0).writes, init)
    {
      for x := 0 to w
        invariant Render(pixel, w, h, pos0, y, x).status.Pass?
        invariant rng.pos == Render(pixel, w, h, pos0, y, x).pos
        invariant noHit.Value() == Black
        invariant Shows(arr, Render(pixel, w, h, pos0, y, x).writes, init)
      {
        status := StorePixel(sqrt, arr, w, h, x, y, rng, noHit, pixel, pos0, init);
        if status.Fail? {
          RenderSticky(pixel, w, h, pos0, y, x + 1, h, 0);
          return;
        }
      }
    }
    return Pass;
  }

  /** `raytrace(arr)` for a `w x h` image (the source fixes 320 x 240) into a
      buffer at least that large. `noHit` is the shared `NO_HIT_COLOR`. */
  method Raytrace(sqrt: real -> real, arr: array2<bv32>, w: int, h: int, rng: Rng, noHit: Vec3Cell)
    returns (status: Outcome)
    requires IsSqrt(sqrt) && w > 1 && h > 1 && arr.Length0 >= w && arr.Length1 >= h
    requires noHit.Value() == Black
    modifies arr, rng, noHit
    ensures noHit.Value() == Black
    ensures var f := Render(PixelFunction(sqrt, w, h, rng.draws), w, h, old(rng.pos), h, 0);
      status == f.status && rng.pos == f.pos &&
      forall cx, row :: 0 <= cx < arr.Length0 && 0 <= row < arr.Length1 ==>
        arr[cx, row] == Stored(f.writes, cx, row, old(arr[cx, row]))
  {
    PixelFunctionAgrees(sqrt, w, h, rng.draws);
    ghost var init := Snapshot(arr);
    status := RenderImage(sqrt, arr, w, h, rng, noHit, PixelFunction(sqrt, w, h, rng.draws));
    forall cx, row | 0 <= cx < arr.Length0 && 0 <= row < arr.Length1
      ensures arr[cx, row] == Stored(Render(PixelFunction(sqrt, w, h, rng.draws), w, h, old(rng.pos), h, 0).writes,
                                     cx, row, old(arr[cx, row]))
    {
      assert init[cx][row] == old(arr[cx, row]);
    }
  }
}
