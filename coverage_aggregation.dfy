/** The coverage aggregator: the loops of `coverage_timeseries` and
    `interval_frequency_histogram2d`, which rasterise every interval onto
    one shared grid and combine the results. */
module CoverageAggregation {
  import opened Common
  import opened GridBinning
  import opened CoverageGrid

  /** Area of the Arctic Ocean, in square kilometres. */
  const ArcticOceanAreaKm2: int := 15558000

  /** One interval's compiled data: `None` when its table has no `lon`/`lat`
      columns (the `KeyError` the loops skip), else its projected points. */
  type IntervalData = Option<seq<Point>>

  /** Which intervals the loops process. */
  function Loaded(intervals: seq<IntervalData>): seq<bool>
  {
    seq(|intervals|, i requires 0 <= i < |intervals| => intervals[i].Some?)
  }

  // ---------------------------------------------------------------------
  // Time series of covered area

  /** The covered share of the ocean, in percent: `covered` cells of
      `resolution` km side over the ocean area counted in such cells. */
  function CoveredPercentage(covered: nat, resolution: int): (p: real)
    requires resolution != 0
    ensures p * ArcticOceanAreaKm2 as real == (covered * resolution * resolution * 100) as real
    ensures p >= 0.0 && (p == 0.0 <==> covered == 0)
  {
    var cellArea := (resolution * resolution) as real;
    var oceanCells := ArcticOceanAreaKm2 as real / cellArea;
    assert oceanCells * cellArea == ArcticOceanAreaKm2 as real;
    (covered as real / oceanCells) * 100.0
  }

  /** The covered percentage of one interval's points. */
  function IntervalPercentage(points: seq<Point>, resolution: int, g: GridSpec): real
    requires resolution != 0 && ValidGrid(g)
  {
    CoveredPercentage(CountNonzero(CoverageHistogram2d(points, g)), resolution)
  }

  /** A row of the time-series table. */
  datatype CoverageRow<D> = CoverageRow(percentage: real, startDate: D, endDate: D)

  /** The row an interval with these points and dates contributes. */
  function RowOf<D>(points: seq<Point>, resolution: int, dates: (D, D), g: GridSpec): CoverageRow<D>
    requires resolution != 0 && ValidGrid(g)
  {
    CoverageRow(IntervalPercentage(points, resolution, g), dates.0, dates.1)
  }

  /** The dates are needed for every interval the loop processes. */
  predicate DatesCover<D>(intervals: seq<IntervalData>, datePairs: seq<(D, D)>)
  {
    forall i :: 0 <= i < |intervals| && intervals[i].Some? ==> i < |datePairs|
  }

  /** The row each interval would contribute, or `None` when it has no
      coordinates. */
  function Candidates<D>(intervals: seq<IntervalData>, resolution: int, datePairs: seq<(D, D)>,
                         g: GridSpec): seq<Option<CoverageRow<D>>>
    requires resolution != 0 && ValidGrid(g)
    requires DatesCover(intervals, datePairs)
  {
    seq(|intervals|, i requires 0 <= i < |intervals| =>
      if intervals[i].Some? then Some(RowOf(intervals[i].value, resolution, datePairs[i], g)) else None)
  }

  /** The loop of `coverage_timeseries`: one row per interval with
      coordinates, in interval order, none for the others. */
  method CoverageTimeseries<D>(intervals: seq<IntervalData>, resolution: int,
                               datePairs: seq<(D, D)>, g: GridSpec)
    returns (rows: seq<CoverageRow<D>>)
    requires resolution != 0 && ValidGrid(g)
    requires DatesCover(intervals, datePairs)
    ensures var used := TrueIndices(Loaded(intervals));
      && |rows| == |used| <= |intervals|
      && forall k :: 0 <= k < |rows| ==>
           rows[k] == RowOf(intervals[used[k]].value, resolution, datePairs[used[k]], g)
  {
    ghost var candidates := Candidates(intervals, resolution, datePairs, g);
    rows := [];
    var i := 0;
    while i < |intervals|
      invariant 0 <= i <= |intervals|
      invariant rows == Values(candidates[..i])
    {
      assert candidates[..i + 1][..i] == candidates[..i];
      match intervals[i] {
        case None =>
        case Some(points) =>
          var histogram := CoverageHistogram2d(points, g);
          var coveredArea := CountNonzero(histogram);
          var coveredPercentage := CoveredPercentage(coveredArea, resolution);
          rows := rows + [CoverageRow(coveredPercentage, datePairs[i].0, datePairs[i].1)];
      }
      i := i + 1;
    }
    assert candidates[..i] == candidates;
    assert Present(candidates) == Loaded(intervals);
    ValuesAtTrueIndices(candidates);
  }

  /** An interval whose points all miss the grid still contributes a row,
      with zero coverage, where a missing interval contributes none. */
  lemma ZeroCoverageIsARow(points: seq<Point>, resolution: int, g: GridSpec)
    requires resolution != 0 && ValidGrid(g)
    requires forall k :: 0 <= k < |points| ==>
      || points[k].x < g.xEdges[0] || g.xEdges[|g.xEdges| - 1] < points[k].x
      || points[k].y < g.yEdges[0] || g.yEdges[|g.yEdges| - 1] < points[k].y
    ensures IntervalPercentage(points, resolution, g) == 0.0
  {
    var h := CoverageHistogram2d(points, g);
    forall i, j | 0 <= i < |h| && 0 <= j < |h[i]|
      ensures h[i][j] == 0
    {
    }
  }

  // ---------------------------------------------------------------------
  // Frequency grid

  /** An all-zero grid. */
  function Zeros(nx: nat, ny: nat): (h: Grid)
    ensures HasShape(h, nx, ny)
    ensures forall i, j :: 0 <= i < nx && 0 <= j < ny ==> h[i][j] == 0
  {
    seq(nx, i => seq(ny, j => 0))
  }

  /** Elementwise sum of two grids of one shape (`H + histogram`). */
  function AddGrids(a: Grid, b: Grid, nx: nat, ny: nat): (c: Grid)
    requires HasShape(a, nx, ny) && HasShape(b, nx, ny)
    ensures HasShape(c, nx, ny)
    ensures forall i, j :: 0 <= i < nx && 0 <= j < ny ==> c[i][j] == a[i][j] + b[i][j]
  {
    seq(nx, i requires 0 <= i < nx => seq(ny, j requires 0 <= j < ny => a[i][j] + b[i][j]))
  }

  /** The number of intervals the loops process. */
  function LoadedCount(intervals: seq<IntervalData>): nat
  {
    |TrueIndices(Loaded(intervals))|
  }

  /** Some processed interval has a point in cell `(i, j)`. */
  predicate Observed(intervals: seq<IntervalData>, g: GridSpec, i: int, j: int)
  {
    exists k :: 0 <= k < |intervals| && intervals[k].Some? && CellCovered(intervals[k].value, g, i, j)
  }

  /** The running sum `H` after the given intervals: the coverage grids of
      the processed intervals added cell by cell. */
  function FrequencySum(intervals: seq<IntervalData>, g: GridSpec): (h: Grid)
    requires ValidGrid(g)
    ensures HasShape(h, XBins(g), YBins(g))
    ensures forall i, j :: 0 <= i < XBins(g) && 0 <= j < YBins(g) ==> h[i][j] <= LoadedCount(intervals)
  {
    if |intervals| == 0 then Zeros(XBins(g), YBins(g))
    else
      var last := |intervals| - 1;
      var init := intervals[..last];
      assert Loaded(intervals)[..last] == Loaded(init);
      var sum := FrequencySum(init, g);
      match intervals[last]
      case None => sum
      case Some(points) =>
        AddGrids(sum, Binarize(CoverageHistogram2d(points, g)), XBins(g), YBins(g))
  }

  /** A cell of the sum is positive exactly when some processed interval
      has a point in it. */
  lemma {:induction false} FrequencySumPositive(intervals: seq<IntervalData>, g: GridSpec, i: nat, j: nat)
    requires ValidGrid(g) && i < XBins(g) && j < YBins(g)
    ensures FrequencySum(intervals, g)[i][j] > 0 <==> Observed(intervals, g, i, j)
  {
    if |intervals| > 0 {
      var last := |intervals| - 1;
      var init := intervals[..last];
      FrequencySumPositive(init, g, i, j);
      ObservedExtend(intervals, g, i, j);
      var sum := FrequencySum(init, g);
      match intervals[last]
      case None =>
        assert FrequencySum(intervals, g) == sum;
      case Some(points) =>
        var c := Binarize(CoverageHistogram2d(points, g));
        assert FrequencySum(intervals, g)[i][j] == sum[i][j] + c[i][j];
        assert c[i][j] > 0 <==> CellCovered(points, g, i, j);
    }
  }

  /** Observation after one more interval. */
  lemma ObservedExtend(intervals: seq<IntervalData>, g: GridSpec, i: int, j: int)
    requires |intervals| > 0
    ensures var last := |intervals| - 1;
      Observed(intervals, g, i, j) <==>
        || Observed(intervals[..last], g, i, j)
        || (intervals[last].Some? && CellCovered(intervals[last].value, g, i, j))
  {
    var last := |intervals| - 1;
    var init := intervals[..last];
    if Observed(init, g, i, j) {
      var k :| 0 <= k < |init| && init[k].Some? && CellCovered(init[k].value, g, i, j);
      assert intervals[k] == init[k];
    }
    if Observed(intervals, g, i, j) {
      var k :| 0 <= k < |intervals| && intervals[k].Some? && CellCovered(intervals[k].value, g, i, j);
      if k < last {
        assert init[k] == intervals[k];
      }
    }
  }

  /** When every interval holds the same points, a cell is either never
      observed or observed by every interval. */
  lemma {:induction false} IdenticalIntervalsSum(intervals: seq<IntervalData>, points: seq<Point>, g: GridSpec, i: nat, j: nat)
    requires ValidGrid(g) && i < XBins(g) && j < YBins(g)
    requires forall k :: 0 <= k < |intervals| ==> intervals[k] == Some(points)
    ensures FrequencySum(intervals, g)[i][j] == if CellCovered(points, g, i, j) then |intervals| else 0
  {
    if |intervals| > 0 {
      var last := |intervals| - 1;
      IdenticalIntervalsSum(intervals[..last], points, g, i, j);
      CoverageIsBinary(points, g);
    }
  }

  /** A frequency grid cell: `None` for no data (the source's NaN), else
      the percentage of intervals. */
  type FrequencyCell = Option<real>

  /** The tail of `interval_frequency_histogram2d` before plotting:
      transpose, zero cells to no data, the rest times 100 over the number
      of intervals. */
  function Finalize(h: Grid, nx: nat, ny: nat, intervalCount: nat): (out: seq<seq<FrequencyCell>>)
    requires HasShape(h, nx, ny) && intervalCount > 0
    ensures |out| == ny && forall j :: 0 <= j < ny ==> |out[j]| == nx
    ensures forall j, i :: 0 <= j < ny && 0 <= i < nx ==> out[j][i] == Frequency(h[i][j], intervalCount)
  {
    seq(ny, j requires 0 <= j < ny => seq(nx, i requires 0 <= i < nx => Frequency(h[i][j], intervalCount)))
  }

  /** One cell of the output: no data for a zero sum, otherwise the sum
      times 100 over the number of intervals. */
  function Frequency(c: nat, intervalCount: nat): (f: FrequencyCell)
    requires intervalCount > 0
    ensures f.None? <==> c == 0
    ensures f.Some? ==> f.value == Percent(c, intervalCount)
  {
    if c == 0 then None else Some(Percent(c, intervalCount))
  }

  /** `c` out of `n`, as a percentage. */
  function Percent(c: nat, n: nat): real
    requires n > 0
  {
    c as real * 100.0 / n as real
  }

  /** Why no frequency grid comes out: there are no intervals to divide
      by, or the first interval was skipped, so the accumulator never
      received its shape. */
  datatype FrequencyError = NoIntervals | UnshapedAccumulator

  /** The loop and the no-data marking of `interval_frequency_histogram2d`. */
  method IntervalFrequencyHistogram2d(intervals: seq<IntervalData>, g: GridSpec)
    returns (r: Result<seq<seq<FrequencyCell>>, FrequencyError>)
    requires ValidGrid(g)
    ensures r.Failure? <==> |intervals| == 0 || intervals[0].None?
    ensures r.Failure? ==> r.error == if |intervals| == 0 then NoIntervals else UnshapedAccumulator
    ensures r.Success? ==> r.value == FrequencyGrid(intervals, g)
  {
    var nx, ny := XBins(g), YBins(g);
    var h: Grid := [];
    var shaped := false;
    var i := 0;
    while i < |intervals|
      invariant 0 <= i <= |intervals|
      decreases |intervals| - i
      invariant shaped <==> i > 0 && intervals[0].Some?
      invariant shaped ==> h == FrequencySum(intervals[..i], g)
    {
      assert intervals[..i + 1][..i] == intervals[..i];
      match intervals[i] {
        case None =>
        case Some(points) =>
          var histogram := Binarize(CoverageHistogram2d(points, g));
          if i == 0 {
            h := Zeros(nx, ny);
            shaped := true;
          }
          if !shaped {
            // The unshaped accumulator cannot take a grid.
            return Failure(UnshapedAccumulator);
          }
          h := AddGrids(h, histogram, nx, ny);
      }
      i := i + 1;
    }
    if |intervals| == 0 {
      return Failure(NoIntervals);
    }
    if !shaped {
      return Failure(UnshapedAccumulator);
    }
    assert intervals[..i] == intervals;
    r := Success(Finalize(h, nx, ny, |intervals|));
  }

  /** The frequency loop with the accumulator shaped from the grid before
      the first interval, so that skipped intervals anywhere, the first
      included, only leave their cells out of the sum. */
  method IntervalFrequencyShapedUpFront(intervals: seq<IntervalData>, g: GridSpec)
    returns (r: Result<seq<seq<FrequencyCell>>, FrequencyError>)
    requires ValidGrid(g)
    ensures r.Failure? <==> |intervals| == 0
    ensures r.Failure? ==> r.error == NoIntervals
    ensures r.Success? ==> r.value == FrequencyGrid(intervals, g)
  {
    if |intervals| == 0 {
      return Failure(NoIntervals);
    }
    var nx, ny := XBins(g), YBins(g);
    var h := Zeros(nx, ny);
    var i := 0;
    while i < |intervals|
      invariant 0 <= i <= |intervals|
      invariant h == FrequencySum(intervals[..i], g)
    {
      assert intervals[..i + 1][..i] == intervals[..i];
      match intervals[i] {
        case None =>
        case Some(points) =>
          h := AddGrids(h, Binarize(CoverageHistogram2d(points, g)), nx, ny);
      }
      i := i + 1;
    }
    assert intervals[..i] == intervals;
    r := Success(Finalize(h, nx, ny, |intervals|));
  }

  /** The frequency grid of all the intervals. */
  function FrequencyGrid(intervals: seq<IntervalData>, g: GridSpec): seq<seq<FrequencyCell>>
    requires ValidGrid(g) && |intervals| > 0
  {
    Finalize(FrequencySum(intervals, g), XBins(g), YBins(g), |intervals|)
  }

  /** One cell of the frequency grid, read back from the running sum. */
  lemma FrequencyCellOf(intervals: seq<IntervalData>, g: GridSpec, i: nat, j: nat)
    requires ValidGrid(g) && |intervals| > 0 && i < XBins(g) && j < YBins(g)
    ensures var c := FrequencySum(intervals, g)[i][j];
      var cell := FrequencyGrid(intervals, g)[j][i];
      && c <= |intervals|
      && (cell.None? <==> c == 0)
      && (cell.Some? ==> cell.value == Percent(c, |intervals|))
  {
    var h := FrequencySum(intervals, g);
    var n := |intervals|;
    assert h[i][j] <= LoadedCount(intervals) <= n;
    var out := Finalize(h, XBins(g), YBins(g), n);
    assert out == FrequencyGrid(intervals, g);
    assert out[j][i] == Frequency(h[i][j], n);
  }

  /** Two intervals, the first without coordinates, over one x bin and two
      y bins: the loop as written gives no grid, the loop shaped up front
      gives one whose lower cell was observed by one interval out of two
      and whose upper cell has no data. */
  method SkippedFirstInterval()
    returns (asWritten: Result<seq<seq<FrequencyCell>>, FrequencyError>,
             corrected: Result<seq<seq<FrequencyCell>>, FrequencyError>)
    ensures asWritten == Failure(UnshapedAccumulator)
    ensures corrected == Success([[Some(50.0)], [None]])
  {
    var g := GridSpec([0.0, 1.0], [0.0, 1.0, 2.0]);
    var intervals: seq<IntervalData> := [None, Some([Point(0.5, 0.5)])];
    asWritten := IntervalFrequencyHistogram2d(intervals, g);
    corrected := IntervalFrequencyShapedUpFront(intervals, g);
    SkippedFirstIntervalGrid(g, intervals);
  }

  lemma SkippedFirstIntervalGrid(g: GridSpec, intervals: seq<IntervalData>)
    requires g == GridSpec([0.0, 1.0], [0.0, 1.0, 2.0])
    requires intervals == [None, Some([Point(0.5, 0.5)])]
    ensures ValidGrid(g) && FrequencyGrid(intervals, g) == [[Some(50.0)], [None]]
  {
    SkippedFirstIntervalSum(g, intervals);
    assert XBins(g) == 1 && YBins(g) == 2;
    HalfObservedColumn(FrequencySum(intervals, g));
  }

  /** A sum of one over two intervals in the lower cell and zero in the
      upper one finalises to 50 percent below no data. */
  lemma HalfObservedColumn(h: Grid)
    requires HasShape(h, 1, 2) && h[0][0] == 1 && h[0][1] == 0
    ensures Finalize(h, 1, 2, 2) == [[Some(50.0)], [None]]
  {
    var out := Finalize(h, 1, 2, 2);
    assert out[0][0] == Some(50.0) by {
      assert Percent(1, 2) == 50.0;
    }
    assert out[0] == [Some(50.0)] && out[1] == [None];
  }

  /** In that input the lower cell is observed by exactly one interval and
      the upper cell by none. */
  lemma SkippedFirstIntervalSum(g: GridSpec, intervals: seq<IntervalData>)
    requires g == GridSpec([0.0, 1.0], [0.0, 1.0, 2.0])
    requires intervals == [None, Some([Point(0.5, 0.5)])]
    ensures ValidGrid(g)
    ensures FrequencySum(intervals, g)[0][0] == 1 && FrequencySum(intervals, g)[0][1] == 0
  {
    var p := [Point(0.5, 0.5)];
    var c := OnePointCoverage(g, p);
    var first: seq<IntervalData> := [None];
    assert intervals[..1] == first && first[..0] == [];
    var z: Grid := FrequencySum(first, g);
    assert z == FrequencySum([], g);
    assert FrequencySum(intervals, g) == AddGrids(z, c, 1, 2);
  }

  /** The coverage grid of one point in the lower cell of that grid. */
  lemma OnePointCoverage(g: GridSpec, p: seq<Point>) returns (c: Grid)
    requires g == GridSpec([0.0, 1.0], [0.0, 1.0, 2.0])
    requires p == [Point(0.5, 0.5)]
    ensures ValidGrid(g) && XBins(g) == 1 && YBins(g) == 2
    ensures c == Binarize(CoverageHistogram2d(p, g))
    ensures HasShape(c, 1, 2) && c[0][0] == 1 && c[0][1] == 0
  {
    assert ValidGrid(g);
    assert InCell(g, 0, 0, p[0]);
    assert !InCell(g, 0, 1, p[0]);
    assert !CellCovered(p, g, 0, 1);
    c := Binarize(CoverageHistogram2d(p, g));
  }

  /** Every frequency is no data exactly where no interval was observed,
      and otherwise a share of all intervals (skipped ones included):
      above zero and at most 100. */
  lemma FrequencyBounds(intervals: seq<IntervalData>, g: GridSpec, i: nat, j: nat)
    requires ValidGrid(g) && |intervals| > 0 && i < XBins(g) && j < YBins(g)
    ensures var cell := FrequencyGrid(intervals, g)[j][i];
      && (cell.None? <==> !Observed(intervals, g, i, j))
      && (cell.Some? ==> 0.0 < cell.value <= 100.0)
  {
    var c := FrequencySum(intervals, g)[i][j];
    FrequencySumPositive(intervals, g, i, j);
    FrequencyCellOf(intervals, g, i, j);
    var cell := FrequencyGrid(intervals, g)[j][i];
    if c > 0 {
      PercentOfCount(c, |intervals|);
    }
  }

  /** A positive count of at most `n` intervals, as a percentage of `n`,
      is the `v` with `v * n == c * 100`; it lies in (0, 100], and is 100
      for all `n`. */
  lemma PercentOfCount(c: nat, n: nat)
    requires 0 < c <= n
    ensures Percent(c, n) * n as real == c as real * 100.0
    ensures 0.0 < Percent(c, n) <= 100.0
    ensures c == n ==> Percent(c, n) == 100.0
  {
    var v := Percent(c, n);
    assert v * n as real == c as real * 100.0;
    MulCancelStrict(0.0, v, n as real);
    MulCancel(v, 100.0, n as real);
    if c == n {
      assert 100.0 * n as real == v * n as real;
      MulCancel(100.0, v, n as real);
    }
  }

  /** When all intervals hold the same points, every cell with data
      reports 100 percent. */
  lemma IdenticalIntervalsFullFrequency(intervals: seq<IntervalData>, points: seq<Point>, g: GridSpec, i: nat, j: nat)
    requires ValidGrid(g) && |intervals| > 0 && i < XBins(g) && j < YBins(g)
    requires forall k :: 0 <= k < |intervals| ==> intervals[k] == Some(points)
    ensures var cell := FrequencyGrid(intervals, g)[j][i];
      cell.Some? ==> cell.value == 100.0
  {
    IdenticalIntervalsSum(intervals, points, g, i, j);
    FrequencyCellOf(intervals, g, i, j);
    var cell := FrequencyGrid(intervals, g)[j][i];
    if cell.Some? {
      PercentOfCount(|intervals|, |intervals|);
    }
  }
}
