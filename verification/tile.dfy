/** `tile.plot`: the distance field of one tile, computed exactly pixel by
    pixel or sampled and interpolated, then boosted. */
module Tile {
  import opened Wrappers
  import opened Numeric
  import opened Geo
  import opened Grid
  import opened Mapping
  import opened Prefilter
  import opened Nearest

  /** The `points` option: absent, or a number (an absolute count or a
      fraction of the pixel count). */
  datatype Points = Unset | Given(value: real)

  /** Python truthiness of the option: `None` and zero are false. */
  predicate Falsy(points: Points) {
    points.Unset? || points.value == 0.0
  }

  /** The default fraction, 1% of the pixels. */
  const DefaultFraction: real := 0.01

  /** Tiles with more pixels than this are kriged in `auto` mode. */
  const AutoLimit: int := 128 * 128

  /** Resolution of the `points` option into a sample count. Without a value
      it is 1% of the pixels rounded down; a value below 1 is a fraction of
      the pixels, rounded toward zero; any other value is an absolute count,
      its integer part. */
  function SampleCount(points: Points, h: nat, w: nat): (n: int)
    ensures Falsy(points) ==> n == (h * w) / 100
    ensures !Falsy(points) && 0.0 < points.value < 1.0 ==>
              0 <= n <= h * w && n as real <= (h * w) as real * points.value < n as real + 1.0
    ensures !Falsy(points) && 1.0 <= points.value ==> n == points.value.Floor && 1 <= n
    ensures !Falsy(points) && points.value < 0.0 ==>
              n <= 0 && n as real - 1.0 < (h * w) as real * points.value <= n as real
  {
    var k := h * w;
    if Falsy(points) then
      FractionFloor(k);
      Trunc(k as real * DefaultFraction)
    else if points.value < 1.0 then
      FractionCount(k, points.value);
      Trunc(k as real * points.value)
    else
      Trunc(points.value)
  }

  lemma FractionFloor(k: nat)
    ensures Trunc(k as real * DefaultFraction) == k / 100
  {
    var q := k / 100;
    var rem := k % 100;
    assert k == 100 * q + rem;
    assert k as real * DefaultFraction == q as real + rem as real / 100.0;
  }

  lemma FractionCount(k: nat, v: real)
    requires v < 1.0
    ensures 0.0 < v ==>
              var n := Trunc(k as real * v);
              0 <= n <= k && n as real <= k as real * v < n as real + 1.0
    ensures v < 0.0 ==>
              var n := Trunc(k as real * v);
              n <= 0 && n as real - 1.0 < k as real * v <= n as real
  {
    var x := k as real * v;
    if 0.0 < v {
      assert 0.0 <= x;
      assert x <= k as real * 1.0;
      var n := Trunc(x);
      assert n as real <= x;
    } else if v < 0.0 {
      assert x <= 0.0;
    }
  }

  /** Kriging is used in `kriging` mode, and in `auto` mode on tiles of more
      than 128 * 128 pixels; every other mode string computes the exact
      field. */
  predicate UseKriging(mode: string, h: int, w: int) {
    mode == "kriging" || (mode == "auto" && h * w > AutoLimit)
  }

  /** Mode selection: only `kriging` and `auto` ever krige, `auto` does so
      from a pixel-count threshold on, and a 128 by 128 tile (or a 100 by 100
      one) in `auto` mode is computed exactly while a 200 by 200 one is
      kriged. */
  lemma ModeSelection(mode: string, h: int, w: int, h': int, w': int)
    ensures mode != "kriging" && mode != "auto" ==> !UseKriging(mode, h, w)
    ensures UseKriging("kriging", h, w)
    ensures UseKriging("auto", h, w) && h * w <= h' * w' ==> UseKriging("auto", h', w')
    ensures !UseKriging("auto", 128, 128) && !UseKriging("auto", 100, 100) && UseKriging("auto", 200, 200)
  {
  }

  /** One sampling task: the sample's index and its geographic point. */
  datatype Task = Task(index: nat, px: real, py: real)

  /** One row `[px, py, dist]` of the sample array handed to the kriging. */
  datatype Sample = Sample(px: real, py: real, dist: real)

  /** What a worker reports back: the task's index and its filled row. */
  datatype Completed = Completed(index: nat, sample: Sample)

  /** The stream of `rnd.random()` values produced by the seeded generator;
      the `k`-th call returns `rnd(k)`. */
  type Draws = nat -> real

  /** Every draw lies in [0, 1). */
  ghost predicate UnitDraws(rnd: Draws) {
    forall k :: 0.0 <= rnd(k) < 1.0
  }

  /** The tasks of samples `k`, ..., `n - 1`, in order. Sample `i` consumes
      draws `2i` and `2i + 1`, scaled by the box deltas from the corner
      `ul`. */
  function TasksFrom(box: Box, rnd: Draws, k: nat, n: nat): (ts: seq<Task>)
    requires k <= n
    ensures |ts| == n - k
    ensures forall i :: 0 <= i < n - k ==>
              ts[i].index == k + i
              && ts[i].px == box.ul.x + rnd(2 * (k + i)) * box.GpsW()
              && ts[i].py == box.ul.y + rnd(2 * (k + i) + 1) * box.GpsH()
    decreases n - k
  {
    if k == n then []
    else
      var c0 := rnd(2 * k);
      var c1 := rnd(2 * k + 1);
      [Task(k, box.ul.x + c0 * box.GpsW(), box.ul.y + c1 * box.GpsH())] + TasksFrom(box, rnd, k + 1, n)
  }

  /** The `n` sampling tasks, task `i` carrying index `i`. */
  function SampleTasks(box: Box, rnd: Draws, n: nat): (ts: seq<Task>)
    ensures |ts| == n
    ensures forall i :: 0 <= i < n ==> ts[i].index == i
  {
    TasksFrom(box, rnd, 0, n)
  }

  /** `v` lies on the half-open span from `a` toward `b`: `b` itself is
      excluded unless the span is a single point. */
  predicate InSpan(v: real, a: real, b: real) {
    (a <= v < b) || (b < v <= a) || (v == a && a == b)
  }

  lemma ScaledInSpan(a: real, delta: real, c: real)
    requires 0.0 <= c < 1.0
    ensures InSpan(a + c * delta, a, a + delta)
  {
    if delta > 0.0 {
      assert c * delta < 1.0 * delta;
    } else if delta < 0.0 {
      assert c * delta > 1.0 * delta;
    }
  }

  /** With draws in [0, 1), every sample point lies inside the tile's box on
      each axis, on the side of the corner `ul`. */
  lemma TasksInsideBox(box: Box, rnd: Draws, n: nat)
    requires UnitDraws(rnd)
    ensures forall i :: 0 <= i < n ==>
              InSpan(SampleTasks(box, rnd, n)[i].px, box.ul.x, box.lb.x)
              && InSpan(SampleTasks(box, rnd, n)[i].py, box.ul.y, box.lb.y)
  {
    var ts := SampleTasks(box, rnd, n);
    forall i | 0 <= i < n
      ensures InSpan(ts[i].px, box.ul.x, box.lb.x) && InSpan(ts[i].py, box.ul.y, box.lb.y)
    {
      assert ts[i].px == box.ul.x + rnd(2 * i) * box.GpsW();
      assert ts[i].py == box.ul.y + rnd(2 * i + 1) * box.GpsH();
      ScaledInSpan(box.ul.x, box.GpsW(), rnd(2 * i));
      ScaledInSpan(box.ul.y, box.GpsH(), rnd(2 * i + 1));
      assert box.ul.x + box.GpsW() == box.lb.x;
      assert box.ul.y + box.GpsH() == box.lb.y;
    }
  }

  /** `_one_distance`: a task's index and point, with the distance from the
      point to the closest of the filtered roads. */
  function OneDistance(d: Distance, good: seq<Geometry>, t: Task): (c: Completed)
    requires |good| > 0
    ensures c.index == t.index && c.sample.px == t.px && c.sample.py == t.py
    ensures forall g :: g in good ==> c.sample.dist <= d(Coord(t.px, t.py), g)
    ensures exists g :: g in good && c.sample.dist == d(Coord(t.px, t.py), g)
  {
    Completed(t.index, Sample(t.px, t.py, MinDistance(d, good, Coord(t.px, t.py))))
  }

  /** The sample array before any result arrives: `np.zeros((points, 3))`. */
  function Zeros(n: nat): (z: seq<Sample>)
    ensures |z| == n
  {
    seq(n, _ => Sample(0.0, 0.0, 0.0))
  }

  /** Every index reported is a valid row of `kdata`. */
  predicate IndicesBelow(done: seq<Completed>, n: int) {
    forall j :: 0 <= j < |done| ==> done[j].index < n
  }

  /** Results that report the same index carry the same row, as the
      results of one task always do. */
  predicate Consistent(done: seq<Completed>) {
    forall j, k :: 0 <= j < |done| && 0 <= k < |done| && done[j].index == done[k].index ==> done[j] == done[k]
  }

  /** The collection loop: each result, in the order it completes, is written
      into the row its index names. */
  function WriteBack(kdata: seq<Sample>, done: seq<Completed>): (r: seq<Sample>)
    requires IndicesBelow(done, |kdata|)
    ensures |r| == |kdata|
    decreases |done|
  {
    if |done| == 0 then kdata
    else WriteBack(kdata[done[0].index := done[0].sample], done[1..])
  }

  /** Each reported row ends up in the row its index names, and every row
      nobody reported keeps its prior value. */
  lemma {:induction false} WriteBackAt(kdata: seq<Sample>, done: seq<Completed>)
    requires IndicesBelow(done, |kdata|)
    requires Consistent(done)
    ensures forall j :: 0 <= j < |done| ==> WriteBack(kdata, done)[done[j].index] == done[j].sample
    ensures forall i :: 0 <= i < |kdata| && (forall j :: 0 <= j < |done| ==> done[j].index != i) ==>
              WriteBack(kdata, done)[i] == kdata[i]
    decreases |done|
  {
    if |done| > 0 {
      var k' := kdata[done[0].index := done[0].sample];
      var rest := done[1..];
      assert forall j :: 0 <= j < |rest| ==> rest[j] == done[j + 1];
      WriteBackAt(k', rest);
      var r := WriteBack(kdata, done);
      assert r == WriteBack(k', rest);
      forall j | 0 <= j < |done|
        ensures r[done[j].index] == done[j].sample
      {
        if j > 0 {
          assert done[j] == rest[j - 1];
        } else if j' :| 0 <= j' < |rest| && rest[j'].index == done[0].index {
          assert rest[j'] == done[j' + 1];
        }
      }
    }
  }

  /** The sample array does not depend on the completion order: two result
      streams that carry the same results fill it identically, whatever
      order each delivers them in. */
  lemma WriteBackOrderIndependent(kdata: seq<Sample>, done1: seq<Completed>, done2: seq<Completed>)
    requires IndicesBelow(done1, |kdata|) && IndicesBelow(done2, |kdata|)
    requires Consistent(done1) && Consistent(done2)
    requires forall c :: c in done1 <==> c in done2
    ensures WriteBack(kdata, done1) == WriteBack(kdata, done2)
  {
    var r1 := WriteBack(kdata, done1);
    var r2 := WriteBack(kdata, done2);
    WriteBackAt(kdata, done1);
    WriteBackAt(kdata, done2);
    forall i | 0 <= i < |kdata|
      ensures r1[i] == r2[i]
    {
      if j :| 0 <= j < |done1| && done1[j].index == i {
        assert done1[j] in done2;
        var k :| 0 <= k < |done2| && done2[k] == done1[j];
      } else {
        forall k | 0 <= k < |done2|
          ensures done2[k].index != i
        {
          assert done2[k] in done1;
        }
      }
    }
  }

  /** A completion order for `n` tasks: a rearrangement of `0, ..., n - 1`,
      the order in which the pool hands the results back. */
  predicate IsCompletionOrder(order: seq<nat>, n: int) {
    && |order| == (if n < 0 then 0 else n)
    && (forall j :: 0 <= j < |order| ==> order[j] < |order|)
    && (forall k :: 0 <= k < |order| ==> k in order)
  }

  /** The results in the order they complete. */
  function Completions(d: Distance, good: seq<Geometry>, tasks: seq<Task>, order: seq<nat>): (done: seq<Completed>)
    requires |good| > 0
    requires forall j :: 0 <= j < |order| ==> order[j] < |tasks|
  {
    seq(|order|, j requires 0 <= j < |order| => OneDistance(d, good, tasks[order[j]]))
  }

  /** The filled sample array of the kriging path. */
  function KData(d: Distance, good: seq<Geometry>, box: Box, rnd: Draws, n: nat, order: seq<nat>): seq<Sample>
    requires |good| > 0
    requires IsCompletionOrder(order, n)
  {
    var done := Completions(d, good, SampleTasks(box, rnd, n), order);
    assert IndicesBelow(done, n);
    WriteBack(Zeros(n), done)
  }

  /** Whatever order the pool completes the tasks in, row `k` of the sample
      array holds sample `k`'s point and its nearest-road distance. */
  lemma KDataInTaskOrder(d: Distance, good: seq<Geometry>, box: Box, rnd: Draws, n: nat, order: seq<nat>)
    requires |good| > 0
    requires IsCompletionOrder(order, n)
    ensures var ts := SampleTasks(box, rnd, n);
            var kd := KData(d, good, box, rnd, n, order);
            |kd| == n
            && forall k :: 0 <= k < n ==>
                 kd[k] == Sample(ts[k].px, ts[k].py, MinDistance(d, good, Coord(ts[k].px, ts[k].py)))
  {
    var ts := SampleTasks(box, rnd, n);
    var done := Completions(d, good, ts, order);
    assert Consistent(done);
    WriteBackAt(Zeros(n), done);
    forall k | 0 <= k < n
      ensures KData(d, good, box, rnd, n, order)[k]
              == Sample(ts[k].px, ts[k].py, MinDistance(d, good, Coord(ts[k].px, ts[k].py)))
    {
      assert k in order;
      var j :| 0 <= j < |order| && order[j] == k;
      assert done[j].index == k;
    }
  }

  /** `v` is the distance from `p` to the closest geometry of `good`: no
      geometry is closer, and one of them is exactly that far. */
  ghost predicate IsNearest(v: real, d: Distance, good: seq<Geometry>, p: Coord) {
    && (forall g :: g in good ==> v <= d(p, g))
    && (exists i :: 0 <= i < |good| && v == d(p, good[i]))
  }

  /** The exact field: every pixel holds the distance from the geographic
      point the brute-force loop evaluates for it to the closest of the
      filtered roads. */
  function DistanceField(d: Distance, good: seq<Geometry>, f: Frame): (r: Raster)
    requires f.Sized()
    requires |good| > 0
    ensures IsGrid(r, f.h, f.w)
    ensures forall y, x :: 0 <= y < f.h && 0 <= x < f.w ==> IsNearest(r[y][x], d, good, ToCoord(f, Pixel(y, x)))
  {
    var r := seq(f.h, y requires 0 <= y < f.h =>
      seq(f.w, x requires 0 <= x < f.w => MinDistance(d, good, ToCoord(f, Pixel(y, x)))));
    FieldIsNearest(d, good, f, r);
    r
  }

  lemma FieldIsNearest(d: Distance, good: seq<Geometry>, f: Frame, r: Raster)
    requires f.Sized()
    requires |good| > 0
    requires IsGrid(r, f.h, f.w)
    requires forall y, x :: 0 <= y < f.h && 0 <= x < f.w ==> r[y][x] == MinDistance(d, good, ToCoord(f, Pixel(y, x)))
    ensures forall y, x :: 0 <= y < f.h && 0 <= x < f.w ==> IsNearest(r[y][x], d, good, ToCoord(f, Pixel(y, x)))
  {
    forall y, x | 0 <= y < f.h && 0 <= x < f.w
      ensures IsNearest(r[y][x], d, good, ToCoord(f, Pixel(y, x)))
    {
      var p := ToCoord(f, Pixel(y, x));
      var v := MinDistance(d, good, p);
      assert r[y][x] == v;
      var i :| 0 <= i < |good| && v == d(p, good[i]);
    }
  }

  /** The brute-force loop: columns outer, rows inner, each pixel overwritten
      in place with its nearest-road distance and counted. The count ends at
      `h * w` and every pixel holds its exact value, so each pixel is written
      once. */
  method BruteForce(img: Raster, d: Distance, good: seq<Geometry>, f: Frame) returns (out: Raster, completed: int)
    requires f.Sized()
    requires IsGrid(img, f.h, f.w)
    requires |good| > 0
    ensures out == DistanceField(d, good, f)
    ensures completed == f.h * f.w
  {
    var h, w := f.h, f.w;
    var wDot := f.box.GpsW() / w as real;
    var hDot := f.box.GpsH() / h as real;
    out := img;
    completed := 0;
    for x := 0 to w
      invariant IsGrid(out, h, w)
      invariant completed == x * h
      invariant forall y', x' :: 0 <= y' < h && 0 <= x' < w ==>
                  out[y'][x'] == (if x' < x then MinDistance(d, good, ToCoord(f, Pixel(y', x'))) else img[y'][x'])
    {
      for y := 0 to h
        invariant IsGrid(out, h, w)
        invariant completed == x * h + y
        invariant forall y', x' :: 0 <= y' < h && 0 <= x' < w ==>
                    out[y'][x'] == (if x' < x || (x' == x && y' < y)
                                    then MinDistance(d, good, ToCoord(f, Pixel(y', x'))) else img[y'][x'])
      {
        var point := Coord(f.box.ul.x + x as real * wDot, f.box.ul.y + y as real * hDot);
        assert point == ToCoord(f, Pixel(y, x));
        out := out[y := out[y][x := MinDistance(d, good, point)]];
        completed := completed + 1;
      }
      assert (x + 1) * h == x * h + h;
    }
    var field := DistanceField(d, good, f);
    forall y | 0 <= y < h
      ensures out[y] == field[y]
    {
    }
  }

  /** Failures of `plot`: an empty raster divides by zero, a negative sample
      count is refused by `np.zeros`, the kriging fails, or its grid does not
      fit the raster. */
  datatype TileError = DivisionByZero | NegativeSampleCount | InterpolationFailed | GridShapeMismatch

  /** The kriging step (`OrdinaryKriging` fitted on the sample array and
      evaluated on the tile's grid), or `None` when it raises. */
  type Krige = seq<Sample> -> Option<Raster>

  /** The field before the boost, on the path that has roads nearby. */
  function Field(img: Raster, d: Distance, good: seq<Geometry>, mode: string, f: Frame, n: int,
                 rnd: Draws, order: seq<nat>, krige: Krige): (r: Result<Raster, TileError>)
    requires f.Sized()
    requires IsGrid(img, f.h, f.w)
    requires |good| > 0
    requires IsCompletionOrder(order, n)
    ensures r.Success? ==> IsGrid(r.value, f.h, f.w)
  {
    if UseKriging(mode, f.h, f.w) then
      if n < 0 then Failure(NegativeSampleCount)
      else
        match krige(KData(d, good, f.box, rnd, n, order))
        case None => Failure(InterpolationFailed)
        case Some(z) => if IsGrid(z, f.h, f.w) then Success(z) else Failure(GridShapeMismatch)
    else Success(DistanceField(d, good, f))
  }

  /** `plot` on an `h` by `w` raster with the roads `gs`. With no road near
      the tile the raster comes back untouched and unboosted; otherwise every
      pixel of the result is the boosted field value and lies in [0, 1]. In
      exact mode that value is the boosted distance from the pixel's point to
      the closest nearby road. */
  function Plot(img: Raster, h: nat, w: nat, d: Distance, gs: seq<Geometry>, mode: string, box: Box,
                points: Points, level: real, rnd: Draws, order: seq<nat>, krige: Krige)
    : (r: Result<Raster, TileError>)
    requires IsGrid(img, h, w)
    requires IsCompletionOrder(order, SampleCount(points, h, w))
    ensures h == 0 || w == 0 ==> r == Failure(DivisionByZero)
    ensures 1 <= h && 1 <= w && PreFilter(d, gs, box, DefaultMultiplier) == [] ==> r == Success(img)
    ensures r.Success? ==> IsGrid(r.value, h, w)
    ensures r.Success? && PreFilter(d, gs, box, DefaultMultiplier) != [] ==> InUnit(r.value)
    ensures 1 <= h && 1 <= w && PreFilter(d, gs, box, DefaultMultiplier) != [] && !UseKriging(mode, h, w) ==>
              r == Success(Boost(DistanceField(d, PreFilter(d, gs, box, DefaultMultiplier), Frame(box, h, w)), level))
    ensures 1 <= h && 1 <= w && PreFilter(d, gs, box, DefaultMultiplier) != [] && UseKriging(mode, h, w) ==>
              if SampleCount(points, h, w) < 0 then r == Failure(NegativeSampleCount)
              else
                var kd := KData(d, PreFilter(d, gs, box, DefaultMultiplier), box, rnd, SampleCount(points, h, w), order);
                match krige(kd)
                case None => r == Failure(InterpolationFailed)
                case Some(z) => r == (if IsGrid(z, h, w) then Success(Boost(z, level)) else Failure(GridShapeMismatch))
  {
    var n := SampleCount(points, h, w);
    if h == 0 || w == 0 then Failure(DivisionByZero)
    else
      var good := PreFilter(d, gs, box, DefaultMultiplier);
      if |good| == 0 then Success(img)
      else
        match Field(img, d, good, mode, Frame(box, h, w), n, rnd, order, krige)
        case Failure(e) => Failure(e)
        case Success(z) => Success(Boost(z, level))
  }

  /** The result of `plot` is the same for every order in which the pool
      completes the sampling tasks. */
  lemma PlotOrderIndependent(img: Raster, h: nat, w: nat, d: Distance, gs: seq<Geometry>, mode: string, box: Box,
                             points: Points, level: real, rnd: Draws, order1: seq<nat>, order2: seq<nat>, krige: Krige)
    requires IsGrid(img, h, w)
    requires IsCompletionOrder(order1, SampleCount(points, h, w))
    requires IsCompletionOrder(order2, SampleCount(points, h, w))
    ensures Plot(img, h, w, d, gs, mode, box, points, level, rnd, order1, krige)
            == Plot(img, h, w, d, gs, mode, box, points, level, rnd, order2, krige)
  {
    var n := SampleCount(points, h, w);
    var good := PreFilter(d, gs, box, DefaultMultiplier);
    if 1 <= h && 1 <= w && |good| > 0 && 0 <= n {
      KDataInTaskOrder(d, good, box, rnd, n, order1);
      KDataInTaskOrder(d, good, box, rnd, n, order2);
      assert KData(d, good, box, rnd, n, order1) == KData(d, good, box, rnd, n, order2);
    }
  }
}
