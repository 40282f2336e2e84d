/** The coverage rasteriser (`coverage_histogram2d`): the points of one
    interval binned into the grid with the semantics of `np.histogram2d`,
    then every occupied cell set to one. */
module CoverageGrid {
  import opened Common
  import opened GridBinning

  /** Cells indexed `[x bin][y bin]`, as `np.histogram2d` lays them out. */
  type Grid = seq<seq<nat>>

  predicate HasShape(h: Grid, nx: nat, ny: nat)
  {
    |h| == nx && forall i :: 0 <= i < nx ==> |h[i]| == ny
  }

  /** Number of bins along x and along y. */
  function XBins(g: GridSpec): nat
    requires ValidGrid(g)
  {
    |g.xEdges| - 1
  }

  function YBins(g: GridSpec): nat
    requires ValidGrid(g)
  {
    |g.yEdges| - 1
  }

  /** `np.searchsorted(edges, v, side='right')`: how many edges are at or
      below `v`. */
  function CountAtMost(edges: seq<real>, v: real): (c: nat)
    ensures c <= |edges|
  {
    if |edges| == 0 then 0
    else (if edges[0] <= v then 1 else 0) + CountAtMost(edges[1..], v)
  }

  /** On increasing edges, the edges at or below `v` are exactly the first
      `CountAtMost(edges, v)` of them. */
  lemma {:induction false} CountAtMostSplits(edges: seq<real>, v: real)
    requires StrictlyIncreasing(edges)
    ensures var c := CountAtMost(edges, v);
      && (c == 0 || edges[c - 1] <= v)
      && (c == |edges| || v < edges[c])
    decreases |edges|
  {
    if |edges| > 0 {
      var rest := edges[1..];
      assert StrictlyIncreasing(rest) by {
        forall a, b | 0 <= a < b < |rest|
          ensures rest[a] < rest[b]
        {
          assert rest[a] == edges[a + 1] && rest[b] == edges[b + 1];
        }
      }
      CountAtMostSplits(rest, v);
    }
  }

  /** Bin `i` of `edges` holds `v`: bins are half-open `[e_i, e_{i+1})`,
      except the last, which also holds its right edge. */
  predicate InBin(edges: seq<real>, i: int, v: real)
  {
    && 0 <= i < |edges| - 1
    && edges[i] <= v
    && (v < edges[i + 1] || (i == |edges| - 2 && v == edges[i + 1]))
  }

  /** The bin `np.histogram2d` puts `v` in along one axis: the right-side
      search position, one less for a value on the last edge; positions
      outside the edges are dropped. */
  function BinIndex(edges: seq<real>, v: real): (b: Option<nat>)
    requires |edges| >= 2 && StrictlyIncreasing(edges)
    ensures forall i :: InBin(edges, i, v) <==> b == Some(i)
    ensures b.None? <==> v < edges[0] || edges[|edges| - 1] < v
  {
    var last := |edges| - 1;
    CountAtMostSplits(edges, v);
    var c := CountAtMost(edges, v) - (if v == edges[last] then 1 else 0);
    if 1 <= c <= last then Some(c - 1) else None
  }

  /** Point `p` lies in cell `(i, j)`. */
  predicate InCell(g: GridSpec, i: int, j: int, p: Point)
  {
    InBin(g.xEdges, i, p.x) && InBin(g.yEdges, j, p.y)
  }

  /** Some point lies in cell `(i, j)`. */
  predicate CellCovered(points: seq<Point>, g: GridSpec, i: int, j: int)
  {
    exists k :: 0 <= k < |points| && InCell(g, i, j, points[k])
  }

  /** The count `np.histogram2d` puts in cell `(i, j)`. */
  function CellCount(points: seq<Point>, g: GridSpec, i: nat, j: nat): nat
    requires ValidGrid(g)
  {
    if |points| == 0 then 0
    else
      var p := points[|points| - 1];
      CellCount(points[..|points| - 1], g, i, j)
        + (if BinIndex(g.xEdges, p.x) == Some(i) && BinIndex(g.yEdges, p.y) == Some(j) then 1 else 0)
  }

  /** A cell's count is positive exactly when some point lies in it. */
  lemma {:induction false} CellCountPositive(points: seq<Point>, g: GridSpec, i: nat, j: nat)
    requires ValidGrid(g)
    ensures CellCount(points, g, i, j) > 0 <==> CellCovered(points, g, i, j)
  {
    if |points| > 0 {
      var init := points[..|points| - 1];
      var p := points[|points| - 1];
      CellCountPositive(init, g, i, j);
      if CellCovered(init, g, i, j) {
        var k :| 0 <= k < |init| && InCell(g, i, j, init[k]);
        assert points[k] == init[k];
      }
      if CellCovered(points, g, i, j) && !InCell(g, i, j, p) {
        var k :| 0 <= k < |points| && InCell(g, i, j, points[k]);
        assert k < |init| && init[k] == points[k];
      }
    }
  }

  /** `np.histogram2d(xi, yj, bins=(xbins, ybins))`: the point count of
      every cell. */
  function Histogram2d(points: seq<Point>, g: GridSpec): (h: Grid)
    requires ValidGrid(g)
    ensures HasShape(h, XBins(g), YBins(g))
  {
    var nx, ny := XBins(g), YBins(g);
    seq(nx, i requires 0 <= i < nx =>
      seq(ny, j requires 0 <= j < ny => CellCount(points, g, i, j)))
  }

  /** `H[H > 1] = 1`: every count above one becomes one. On counts this is
      also `H[H > 0] = 1`. */
  function Binarize(h: Grid): (b: Grid)
    ensures |b| == |h| && forall i :: 0 <= i < |h| ==> |b[i]| == |h[i]|
    ensures forall i, j :: 0 <= i < |h| && 0 <= j < |h[i]| ==>
      b[i][j] <= 1 && (b[i][j] == 0 <==> h[i][j] == 0)
  {
    seq(|h|, i requires 0 <= i < |h| =>
      seq(|h[i]|, j requires 0 <= j < |h[i]| => if h[i][j] > 1 then 1 else h[i][j]))
  }

  /** `coverage_histogram2d`: cell `(i, j)` is one when some point lies in
      x-bin `i` and y-bin `j`, and zero otherwise. */
  function CoverageHistogram2d(points: seq<Point>, g: GridSpec): (h: Grid)
    requires ValidGrid(g)
    ensures HasShape(h, XBins(g), YBins(g))
    ensures forall i, j :: 0 <= i < |h| && 0 <= j < |h[i]| ==>
      h[i][j] <= 1 && (h[i][j] == 1 <==> CellCovered(points, g, i, j))
  {
    var counts := Histogram2d(points, g);
    forall i: nat, j: nat | i < XBins(g) && j < YBins(g)
      ensures counts[i][j] > 0 <==> CellCovered(points, g, i, j)
    {
      CellCountPositive(points, g, i, j);
    }
    Binarize(counts)
  }

  /** Binarising twice is binarising once. */
  lemma BinarizeIdempotent(h: Grid)
    ensures Binarize(Binarize(h)) == Binarize(h)
  {
    var b := Binarize(h);
    var bb := Binarize(b);
    assert |bb| == |b|;
    forall i | 0 <= i < |b|
      ensures bb[i] == b[i]
    {
      assert |bb[i]| == |b[i]|;
      forall j | 0 <= j < |b[i]|
        ensures bb[i][j] == b[i][j]
      {
      }
    }
  }

  /** A coverage grid is left unchanged by a second clamp
      (`histogram[histogram > 0.0] = 1.0`). */
  lemma CoverageIsBinary(points: seq<Point>, g: GridSpec)
    requires ValidGrid(g)
    ensures Binarize(CoverageHistogram2d(points, g)) == CoverageHistogram2d(points, g)
  {
    var h := CoverageHistogram2d(points, g);
    var b := Binarize(h);
    forall i | 0 <= i < |h|
      ensures b[i] == h[i]
    {
      assert |b[i]| == |h[i]|;
      forall j | 0 <= j < |h[i]|
        ensures b[i][j] == h[i][j]
      {
      }
    }
  }

  /** A point outside the edges of either axis changes no count. */
  lemma {:induction false} OutsidePointIgnored(points: seq<Point>, p: Point, g: GridSpec)
    requires ValidGrid(g)
    requires || p.x < g.xEdges[0] || g.xEdges[|g.xEdges| - 1] < p.x
             || p.y < g.yEdges[0] || g.yEdges[|g.yEdges| - 1] < p.y
    ensures Histogram2d(points + [p], g) == Histogram2d(points, g)
    ensures CoverageHistogram2d(points + [p], g) == CoverageHistogram2d(points, g)
  {
    var more := points + [p];
    assert more[..|more| - 1] == points;
    var h, h' := Histogram2d(points, g), Histogram2d(more, g);
    forall i | 0 <= i < |h|
      ensures h'[i] == h[i]
    {
      forall j | 0 <= j < |h[i]|
        ensures h'[i][j] == h[i][j]
      {
        assert h'[i][j] == CellCount(more, g, i, j);
      }
    }
  }

  /** Non-zero cells of one row. */
  function RowNonzero(row: seq<nat>): (n: nat)
    ensures n <= |row|
    ensures n == 0 <==> forall j :: 0 <= j < |row| ==> row[j] == 0
  {
    if |row| == 0 then 0
    else RowNonzero(row[..|row| - 1]) + (if row[|row| - 1] != 0 then 1 else 0)
  }

  /** Total number of cells. */
  function Cells(h: Grid): nat
  {
    if |h| == 0 then 0 else Cells(h[..|h| - 1]) + |h[|h| - 1]|
  }

  /** `len(np.flatnonzero(H))`: the number of non-zero cells. */
  function CountNonzero(h: Grid): (n: nat)
    ensures n <= Cells(h)
    ensures n == 0 <==> forall i, j :: 0 <= i < |h| && 0 <= j < |h[i]| ==> h[i][j] == 0
  {
    if |h| == 0 then 0
    else
      var init := h[..|h| - 1];
      assert forall i :: 0 <= i < |init| ==> init[i] == h[i];
      CountNonzero(init) + RowNonzero(h[|h| - 1])
  }

  /** The positions of the non-zero cells. */
  function NonzeroCells(h: Grid): set<(int, int)>
  {
    set i, j | 0 <= i < |h| && 0 <= j < |h[i]| && h[i][j] != 0 :: (i, j)
  }

  /** The positions of the non-zero cells of `row`, taken as row `i`. */
  function RowCells(row: seq<nat>, i: int): set<(int, int)>
  {
    set j | 0 <= j < |row| && row[j] != 0 :: (i, j)
  }

  /** A row's non-zero count is the number of its non-zero cells. */
  lemma {:induction false} RowNonzeroIsCardinality(row: seq<nat>, i: int)
    ensures RowNonzero(row) == |RowCells(row, i)|
  {
    if |row| == 0 {
      assert RowCells(row, i) == {};
    } else {
      var init, last := row[..|row| - 1], |row| - 1;
      RowNonzeroIsCardinality(init, i);
      assert forall j :: 0 <= j < |init| ==> init[j] == row[j];
      if row[last] != 0 {
        assert RowCells(row, i) == RowCells(init, i) + {(i, last)};
      } else {
        assert RowCells(row, i) == RowCells(init, i);
      }
    }
  }

  /** `len(np.flatnonzero(H))` is the number of positions holding a
      non-zero value. */
  lemma {:induction false} CountNonzeroIsCardinality(h: Grid)
    ensures CountNonzero(h) == |NonzeroCells(h)|
  {
    if |h| == 0 {
      assert NonzeroCells(h) == {};
    } else {
      var init, last := h[..|h| - 1], |h| - 1;
      CountNonzeroIsCardinality(init);
      RowNonzeroIsCardinality(h[last], last);
      assert forall i :: 0 <= i < |init| ==> init[i] == h[i];
      assert NonzeroCells(h) == NonzeroCells(init) + RowCells(h[last], last);
      assert NonzeroCells(init) !! RowCells(h[last], last);
    }
  }

  /** The cells that hold at least one point. */
  function CoveredCells(points: seq<Point>, g: GridSpec): set<(int, int)>
    requires ValidGrid(g)
  {
    set i, j | 0 <= i < XBins(g) && 0 <= j < YBins(g) && CellCovered(points, g, i, j) :: (i, j)
  }

  /** The covered area `coverage_timeseries` reports is the number of
      cells holding at least one point. */
  lemma CoveredCellCount(points: seq<Point>, g: GridSpec)
    requires ValidGrid(g)
    ensures CountNonzero(CoverageHistogram2d(points, g)) == |CoveredCells(points, g)|
  {
    var h := CoverageHistogram2d(points, g);
    CountNonzeroIsCardinality(h);
    assert NonzeroCells(h) == CoveredCells(points, g);
  }
}
