/** The grid binner of the coverage tools: from a resolution in kilometres
    and the projected data points, the x and y bin edges of the coverage
    grid (`get_map_bins`). */
module GridBinning {
  import opened Common

  /** A point projected onto the polar-stereographic plane, in metres. */
  datatype Point = Point(x: real, y: real)

  // Fixed extents of the Arctic basin map, in metres.
  const LowerXExtent: int := -4400000
  const UpperXExtent: int := 2500000
  const UpperYExtent: int := 3500000
  const LowerYExtent: int := -2500000

  /** The edges of both axes of a coverage grid. */
  datatype GridSpec = GridSpec(xEdges: seq<real>, yEdges: seq<real>)

  /** Why the bin edges cannot be built: no points (`np.max` of an empty
      array), an axis of zero bins (the step divides by zero, which numpy
      turns into an infinite or undefined step, and `np.arange` rejects)
      or an axis whose points all share one coordinate (`np.arange` with a
      step of zero). */
  datatype BinError = EmptyInput | ZeroBinCount | ZeroExtent

  /** A grid `np.histogram2d` accepts and that has at least one cell. */
  predicate ValidGrid(g: GridSpec)
  {
    && |g.xEdges| >= 2 && |g.yEdges| >= 2
    && StrictlyIncreasing(g.xEdges) && StrictlyIncreasing(g.yEdges)
  }

  function Xs(points: seq<Point>): seq<real>
  {
    seq(|points|, k requires 0 <= k < |points| => points[k].x)
  }

  function Ys(points: seq<Point>): seq<real>
  {
    seq(|points|, k requires 0 <= k < |points| => points[k].y)
  }

  /** The number of bins along an axis of `scale` metres: how many whole
      cells of `resolution` kilometres fit in it. */
  function BinCount(scale: nat, resolution: real): (n: nat)
    requires resolution > 0.0
    ensures n as real * (1000.0 * resolution) <= scale as real
    ensures scale as real < (n + 1) as real * (1000.0 * resolution)
  {
    var cell := 1000.0 * resolution;
    var q := scale as real / cell;
    var f := q.Floor;
    assert f as real <= q < (f + 1) as real;
    assert q * cell == scale as real;
    MulMonotone(f as real, q, cell);
    MulMonotoneStrict(q, (f + 1) as real, cell);
    assert scale as real < (f + 1) as real * cell;
    f
  }

  lemma MulMonotone(a: real, b: real, c: real)
    requires a <= b && c > 0.0
    ensures a * c <= b * c
  {
  }

  lemma MulMonotoneStrict(a: real, b: real, c: real)
    requires a < b && c > 0.0
    ensures a * c < b * c
  {
  }

  /** Bins along x: the map's x extent cut into cells of `resolution` km. */
  function XBinCount(resolution: real): nat
    requires resolution > 0.0
  {
    BinCount(UpperXExtent - LowerXExtent, resolution)
  }

  /** Bins along y: the map's y extent cut into cells of `resolution` km. */
  function YBinCount(resolution: real): nat
    requires resolution > 0.0
  {
    BinCount(UpperYExtent - LowerYExtent, resolution)
  }

  /** The least integer at or above `x`. */
  function Ceil(x: real): (c: int)
    ensures x <= c as real < x + 1.0
  {
    -((-x).Floor)
  }

  /** The k-th value `np.arange` produces. */
  function ArangeTerm(start: real, step: real, k: nat): real
  {
    start + k as real * step
  }

  lemma ArangeTermIncreasing(start: real, step: real, a: nat, b: nat)
    requires step > 0.0 && a < b
    ensures ArangeTerm(start, step, a) < ArangeTerm(start, step, b)
  {
    MulMonotoneStrict(a as real, b as real, step);
  }

  /** `np.arange(start, stop, step)` for a positive step, in exact
      arithmetic: `start`, `start + step`, ... while below `stop`. */
  function Arange(start: real, stop: real, step: real): (r: seq<real>)
    requires step > 0.0
    ensures forall k :: 0 <= k < |r| ==> r[k] == start + k as real * step
    ensures forall k :: 0 <= k < |r| ==> r[k] < stop
    ensures start + |r| as real * step >= stop
  {
    var n: nat := if stop <= start then 0 else Ceil((stop - start) / step);
    ArangeBounds(start, stop, step, n);
    seq(n, k requires 0 <= k < n => ArangeTerm(start, step, k))
  }

  lemma ArangeBounds(start: real, stop: real, step: real, n: nat)
    requires step > 0.0
    requires n == if stop <= start then 0 else Ceil((stop - start) / step)
    ensures forall k: nat :: k < n ==> ArangeTerm(start, step, k) < stop
    ensures start + n as real * step >= stop
  {
    if stop > start {
      var q := (stop - start) / step;
      assert q * step == stop - start;
      forall k: nat | k < n
        ensures ArangeTerm(start, step, k) < stop
      {
        assert k as real < q;
        MulMonotoneStrict(k as real, q, step);
      }
      MulMonotone(q, n as real, step);
    }
  }

  /** The edges `get_map_bins` builds along one axis:
      `np.arange(lo, hi + d, d)` with `d = (hi - lo) / count`. */
  function AxisEdges(lo: real, hi: real, count: nat): seq<real>
    requires lo < hi && count > 0
  {
    var d := (hi - lo) / count as real;
    Arange(lo, hi + d, d)
  }

  /** Consecutive edges are a uniform step of `(hi - lo) / count` apart. */
  lemma AxisEdgesUniform(lo: real, hi: real, count: nat)
    requires lo < hi && count > 0
    ensures var e := AxisEdges(lo, hi, count);
      forall k :: 0 <= k < |e| ==> e[k] == lo + k as real * ((hi - lo) / count as real)
  {
  }

  /** In exact arithmetic the edges are `count + 1` strictly increasing
      values from the least to the greatest coordinate. */
  lemma {:induction false} AxisEdgesSpan(lo: real, hi: real, count: nat)
    requires lo < hi && count > 0
    ensures var e := AxisEdges(lo, hi, count);
      && |e| == count + 1
      && e[0] == lo && e[count] == hi
      && StrictlyIncreasing(e)
  {
    var d := (hi - lo) / count as real;
    var e := AxisEdges(lo, hi, count);
    assert e == Arange(lo, hi + d, d);
    assert d * count as real == hi - lo;
    assert d > 0.0;
    // The length: (hi + d - lo) / d is exactly count + 1.
    assert hi + d - lo == d * (count + 1) as real;
    assert (hi + d - lo) / d == (count + 1) as real;
    assert Ceil((count + 1) as real) == count + 1;
    assert |e| == count + 1;
    assert e[count] == lo + count as real * d;
    forall a, b | 0 <= a < b < |e|
      ensures e[a] < e[b]
    {
      assert e[a] == ArangeTerm(lo, d, a) && e[b] == ArangeTerm(lo, d, b);
      ArangeTermIncreasing(lo, d, a, b);
    }
  }

  /** The edges of one axis for `count` bins over the coordinates `v`, or
      why numpy fails on them. */
  function AxisBins(v: seq<real>, count: nat): (r: Result<seq<real>, BinError>)
    requires |v| > 0
    ensures r.Failure? <==> count == 0 || MinOf(v) == MaxOf(v)
    ensures r.Failure? ==> r.error == if count == 0 then ZeroBinCount else ZeroExtent
    ensures r.Success? ==>
      && count > 0 && MinOf(v) < MaxOf(v)
      && r.value == AxisEdges(MinOf(v), MaxOf(v), count)
      && |r.value| == count + 1
      && r.value[0] == MinOf(v) && r.value[count] == MaxOf(v)
      && StrictlyIncreasing(r.value)
      && forall k :: 0 <= k < |v| ==> r.value[0] <= v[k] <= r.value[count]
  {
    var lo, hi := MinOf(v), MaxOf(v);
    if count == 0 then Failure(ZeroBinCount)
    else if lo == hi then Failure(ZeroExtent)
    else
      AxisEdgesSpan(lo, hi, count);
      Success(AxisEdges(lo, hi, count))
  }

  /** `get_map_bins`: the bin counts come from the fixed basin extents and
      the resolution; the edges span the data's own extent. */
  function GetMapBins(points: seq<Point>, resolution: real): (r: Result<GridSpec, BinError>)
    requires resolution > 0.0
    ensures r.Failure? <==>
      || |points| == 0
      || XBinCount(resolution) == 0 || YBinCount(resolution) == 0
      || MinOf(Xs(points)) == MaxOf(Xs(points))
      || MinOf(Ys(points)) == MaxOf(Ys(points))
    ensures r.Success? ==>
      && ValidGrid(r.value)
      && |r.value.xEdges| == XBinCount(resolution) + 1
      && |r.value.yEdges| == YBinCount(resolution) + 1
      && forall k :: 0 <= k < |points| ==>
           && r.value.xEdges[0] <= points[k].x <= r.value.xEdges[|r.value.xEdges| - 1]
           && r.value.yEdges[0] <= points[k].y <= r.value.yEdges[|r.value.yEdges| - 1]
    ensures r.Success? ==>
      && |points| > 0
      && XBinCount(resolution) > 0 && MinOf(Xs(points)) < MaxOf(Xs(points))
      && YBinCount(resolution) > 0 && MinOf(Ys(points)) < MaxOf(Ys(points))
      && r.value.xEdges == AxisEdges(MinOf(Xs(points)), MaxOf(Xs(points)), XBinCount(resolution))
      && r.value.yEdges == AxisEdges(MinOf(Ys(points)), MaxOf(Ys(points)), YBinCount(resolution))
  {
    var nx, ny := XBinCount(resolution), YBinCount(resolution);
    EdgesForCountsFailure(points, nx, ny);
    var r := EdgesForCounts(points, nx, ny);
    if r.Success? then
      GridOfAxes(points, nx, ny, r.value.xEdges, r.value.yEdges);
      r
    else r
  }

  /** The edges of both axes once the bin counts are known: those of each
      axis on its own. */
  function EdgesForCounts(points: seq<Point>, nx: nat, ny: nat): (r: Result<GridSpec, BinError>)
    ensures r.Success? ==>
      && |points| > 0
      && AxisBins(Xs(points), nx) == Success(r.value.xEdges)
      && AxisBins(Ys(points), ny) == Success(r.value.yEdges)
  {
    if |points| == 0 then Failure(EmptyInput)
    else
      var xBins := AxisBins(Xs(points), nx);
      var yBins := AxisBins(Ys(points), ny);
      if xBins.Failure? then Failure(xBins.error)
      else if yBins.Failure? then Failure(yBins.error)
      else Success(GridSpec(xBins.value, yBins.value))
  }

  /** Edges built for each axis on its own make a grid enclosing every
      point. */
  lemma GridOfAxes(points: seq<Point>, nx: nat, ny: nat, xEdges: seq<real>, yEdges: seq<real>)
    requires |points| > 0
    requires AxisBins(Xs(points), nx) == Success(xEdges)
    requires AxisBins(Ys(points), ny) == Success(yEdges)
    ensures ValidGrid(GridSpec(xEdges, yEdges))
    ensures |xEdges| == nx + 1 && |yEdges| == ny + 1
    ensures forall k :: 0 <= k < |points| ==>
      && xEdges[0] <= points[k].x <= xEdges[|xEdges| - 1]
      && yEdges[0] <= points[k].y <= yEdges[|yEdges| - 1]
    ensures && nx > 0 && MinOf(Xs(points)) < MaxOf(Xs(points))
            && ny > 0 && MinOf(Ys(points)) < MaxOf(Ys(points))
            && xEdges == AxisEdges(MinOf(Xs(points)), MaxOf(Xs(points)), nx)
            && yEdges == AxisEdges(MinOf(Ys(points)), MaxOf(Ys(points)), ny)
  {
    PointsWithinEdges(points, xEdges, yEdges);
  }

  /** When the edges cannot be built. */
  lemma EdgesForCountsFailure(points: seq<Point>, nx: nat, ny: nat)
    ensures EdgesForCounts(points, nx, ny).Failure? <==>
      || |points| == 0 || nx == 0 || ny == 0
      || MinOf(Xs(points)) == MaxOf(Xs(points))
      || MinOf(Ys(points)) == MaxOf(Ys(points))
  {
  }

  /** With the fixed extents, the x axis has floor(6 900 000 / (1000 R))
      bins and the y axis floor(6 000 000 / (1000 R)); the x axis never has
      fewer bins than the y axis, so a resolution coarser than 6 000 km is
      the one that leaves an axis without bins. */
  lemma BinCountsOfBasin(resolution: real)
    requires resolution > 0.0
    ensures XBinCount(resolution) >= YBinCount(resolution)
    ensures YBinCount(resolution) == 0 <==> resolution > 6000.0
  {
    var cell := 1000.0 * resolution;
    var nx, ny := XBinCount(resolution), YBinCount(resolution);
    // ny cells fit in 6 000 000 m, which nx + 1 cells overrun.
    MulCancelStrict(ny as real, (nx + 1) as real, cell);
    if resolution > 6000.0 {
      MulCancelStrict(ny as real, 1.0, cell);
    } else {
      MulCancelStrict(1.0, (ny + 1) as real, cell);
    }
  }

  lemma MulCancel(a: real, b: real, c: real)
    requires a * c <= b * c && c > 0.0
    ensures a <= b
  {
  }

  lemma MulCancelStrict(a: real, b: real, c: real)
    requires a * c < b * c && c > 0.0
    ensures a < b
  {
  }

  lemma PointsWithinEdges(points: seq<Point>, xEdges: seq<real>, yEdges: seq<real>)
    requires |xEdges| > 0 && |yEdges| > 0
    requires forall k :: 0 <= k < |points| ==> xEdges[0] <= Xs(points)[k] <= xEdges[|xEdges| - 1]
    requires forall k :: 0 <= k < |points| ==> yEdges[0] <= Ys(points)[k] <= yEdges[|yEdges| - 1]
    ensures forall k :: 0 <= k < |points| ==>
      && xEdges[0] <= points[k].x <= xEdges[|xEdges| - 1]
      && yEdges[0] <= points[k].y <= yEdges[|yEdges| - 1]
  {
    forall k | 0 <= k < |points|
      ensures xEdges[0] <= points[k].x <= xEdges[|xEdges| - 1]
      ensures yEdges[0] <= points[k].y <= yEdges[|yEdges| - 1]
    {
      assert Xs(points)[k] == points[k].x && Ys(points)[k] == points[k].y;
    }
  }
}
