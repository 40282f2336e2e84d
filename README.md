# Sea-ice coverage grid, triangle table and delta-time bins — a Dafny model

This project models the sequential core of the ice-tracker deformation tools:

- **Coverage grid engine** (`src/SatelliteCoverage/coverage_frequency_map.py`).
  `get_map_bins` turns a resolution in kilometres into a bin count per axis, using the fixed
  polar-stereographic basin extents. It then builds evenly spaced bin edges over the data's own
  extent. `coverage_histogram2d` bins one interval's projected points with the semantics of
  `np.histogram2d`: bins are half-open except the last, which is closed, and points outside the
  edges are dropped. It then sets every occupied cell to one. Two loops aggregate these grids over
  the intervals:
  - `coverage_timeseries` emits one percent-of-ocean row per interval that has coordinates;
  - `interval_frequency_histogram2d` sums the grids and turns the sum into "percent of intervals",
    with no data where the sum is zero.
- **Triangle table** (`src/d02_delaunay_triangulation.py`). For every raw/processed file pair that
  is not already processed (without overwrite), it loads the raw file and builds a header and one
  ten-column row per Delaunay triangle: the number, three x, three y and three vertex positions.
  The handler for a raw file that fails to load prints `dfe + 'It will not be processed.'`, which
  adds an exception object to a string and raises `TypeError`. As written, the first unloadable
  pair therefore ends the whole run. The model keeps that loop and, beside it, the loop that
  skips the pair as the handler's comment says (see Findings).
- **Delta-time bins** (`src/test_datasets_dt.py`). It collects the time span, in hours, of every
  raw file that loads. It then grows the bin list `[0, 6, 18, 30, …]` until its last edge exceeds
  the largest span.

Modules: `Common` (options, results, min/max, the positions a filter-and-append loop keeps),
`GridBinning`, `CoverageGrid`, `CoverageAggregation`, `TriangleTable`, `DeltaTimes`.

Coordinates, spans and percentages are exact `real`s. NaN ("no data") is `None`. The projections,
`compile_data`, the CSV/raw loaders, `dT`/`dataDatetimes` and the Delaunay call are inputs:
- an interval's data is `None` when its table has no `lon`/`lat` column (the caught `KeyError`),
  and otherwise its projected points;
- a raw file is `None` when loading raises `DataFileError`, and otherwise its projected
  coordinates with the simplices triangulated from them;
- a listed data file is a flag saying whether the body of the `try` raises no `DataFileError`
  (neither `load_raw` nor `dataDatetimes` nor `dT`), together with its span in days.

The model follows the code as written:
- the time series skips an interval whose table has no `lon`/`lat` column (the caught
  `KeyError`);
- the frequency accumulator takes its shape only from interval 0 (see Findings);
- the frequencies are divided by the number of all intervals, skipped ones included;
- the clamp is `H[H>1] = 1`, which on counts is the same as setting non-zero cells to one;
- an empty point set makes `get_map_bins` fail inside numpy (`np.max` of an empty array).

## Model

| member | source | states |
|---|---|---|
| GridBinning.BinCount | src/SatelliteCoverage/coverage_frequency_map.py:43-47 | the bin count is the floor of extent / (1000·resolution): n cells fit in the extent and n+1 do not |
| GridBinning.BinCountsOfBasin | src/SatelliteCoverage/coverage_frequency_map.py:37-47 | with the fixed extents (6 900 000 m by 6 000 000 m) x never has fewer bins than y, and y has no bins exactly when the resolution is coarser than 6000 km |
| GridBinning.Arange | src/SatelliteCoverage/coverage_frequency_map.py:56-57 | `np.arange` with a positive step: the k-th value is start + k·step, every value lies below stop, and one more step would reach stop |
| GridBinning.AxisEdgesSpan | src/SatelliteCoverage/coverage_frequency_map.py:53-57 | the edges `arange(min, max+d, d)` with d = (max−min)/count are exactly count+1 strictly increasing values, the first min and the last max |
| GridBinning.AxisEdgesUniform | src/SatelliteCoverage/coverage_frequency_map.py:53-57 | edge k is min + k·(max−min)/count: the edges are evenly spaced |
| GridBinning.AxisBins | src/SatelliteCoverage/coverage_frequency_map.py:53-57 | one axis fails exactly when its bin count is 0 or its extent is 0 (and says which); otherwise its edges are `arange(min, max+d, d)` with d = (max−min)/count: count+1 increasing edges from the least to the greatest coordinate, enclosing every coordinate |
| Common.MinOf | src/SatelliteCoverage/coverage_frequency_map.py:53-57 | `np.min` of a non-empty sequence is one of its elements and no element is smaller |
| Common.MaxOf | src/test_datasets_dt.py:58 | `max` of a non-empty sequence is one of its elements and no element is larger |
| Common.TrueIndices | src/test_datasets_dt.py:32-46 | the iterations that append in a loop which skips the others: increasing positions, exactly those whose condition holds |
| Common.ValuesAtTrueIndices | src/SatelliteCoverage/coverage_frequency_map.py:115-137 | what such a loop appends, in order, is the value of each kept iteration, one per kept iteration |
| GridBinning.GetMapBins | src/SatelliteCoverage/coverage_frequency_map.py:33-59 | fails exactly on no points, an axis of zero bins or an axis of zero extent; otherwise the x edges are `arange(min x, max x + d, d)` with d = (max x − min x)/nx for the floor-derived nx, likewise on y, so the grid has nx+1 and ny+1 increasing edges and encloses every input point |
| GridBinning.GridOfAxes | src/SatelliteCoverage/coverage_frequency_map.py:53-59 | the edges built for each axis on its own form a valid grid that encloses every point |
| CoverageGrid.CountAtMostSplits | src/SatelliteCoverage/coverage_frequency_map.py:80 | on increasing edges the right-side search position c splits the edges: the first c are at or below v and the rest above |
| CoverageGrid.BinIndex | src/SatelliteCoverage/coverage_frequency_map.py:80 | numpy's bin index of a value is bin i exactly when v lies in [e_i, e_{i+1}), or in the closed last bin; there is no bin exactly when v lies outside the edges |
| CoverageGrid.CellCountPositive | src/SatelliteCoverage/coverage_frequency_map.py:80 | a cell's histogram count is positive exactly when some point lies in that cell |
| CoverageGrid.Histogram2d | src/SatelliteCoverage/coverage_frequency_map.py:80 | the histogram has (len(xbins)−1)×(len(ybins)−1) cells |
| CoverageGrid.Binarize | src/SatelliteCoverage/coverage_frequency_map.py:81 | the clamp keeps the shape, leaves every cell at most 1, and keeps zero cells zero and non-zero cells non-zero |
| CoverageGrid.CoverageHistogram2d | src/SatelliteCoverage/coverage_frequency_map.py:62-83 | the coverage grid has the edges' shape, every cell is 0 or 1, and a cell is 1 exactly when some point lies in its x bin and y bin |
| CoverageGrid.BinarizeIdempotent | src/SatelliteCoverage/coverage_frequency_map.py:81 | clamping twice is clamping once |
| CoverageGrid.CoverageIsBinary | src/SatelliteCoverage/coverage_frequency_map.py:190-191 | the second clamp `histogram[histogram > 0] = 1` leaves a coverage grid unchanged |
| CoverageGrid.OutsidePointIgnored | src/SatelliteCoverage/coverage_frequency_map.py:80 | adding a point that lies outside the edges of either axis changes neither the counts nor the coverage grid |
| CoverageGrid.CountNonzero | src/SatelliteCoverage/coverage_frequency_map.py:129 | the non-zero count is at most the number of cells, and it is zero exactly when every cell is zero |
| CoverageGrid.RowNonzeroIsCardinality | src/SatelliteCoverage/coverage_frequency_map.py:129 | the non-zero count of one row is the number of its positions holding a non-zero value |
| CoverageGrid.CountNonzeroIsCardinality | src/SatelliteCoverage/coverage_frequency_map.py:129 | `len(np.flatnonzero(H))` is the number of positions (i, j) with H[i][j] ≠ 0 |
| CoverageGrid.CoveredCellCount | src/SatelliteCoverage/coverage_frequency_map.py:126-129 | the covered area of an interval is the number of cells holding at least one of its points |
| CoverageAggregation.CoveredPercentage | src/SatelliteCoverage/coverage_frequency_map.py:108-130 | percentage × 15 558 000 = covered cells × resolution² × 100, so the percentage is non-negative and zero exactly when no cell is covered |
| CoverageAggregation.CoverageTimeseries | src/SatelliteCoverage/coverage_frequency_map.py:115-137 | exactly one row per interval with coordinates, in interval order, with that interval's covered percentage and its date pair; intervals without coordinates give no row, so there are at most as many rows as intervals |
| CoverageAggregation.ZeroCoverageIsARow | src/SatelliteCoverage/coverage_frequency_map.py:119-137 | an interval whose points all miss the grid still yields a row, with 0 percent, unlike a skipped interval |
| CoverageAggregation.FrequencySum | src/SatelliteCoverage/coverage_frequency_map.py:178-198 | the running sum has the grid's shape and no cell exceeds the number of processed intervals |
| CoverageAggregation.FrequencySumPositive | src/SatelliteCoverage/coverage_frequency_map.py:178-198 | a cell of the sum is positive exactly when some processed interval has a point in it |
| CoverageAggregation.IdenticalIntervalsSum | src/SatelliteCoverage/coverage_frequency_map.py:178-198 | when every interval holds the same points, each cell of the sum is either the number of intervals or zero |
| CoverageAggregation.IntervalFrequencyHistogram2d | src/SatelliteCoverage/coverage_frequency_map.py:158-202 | as written: no grid exactly when there are no intervals or interval 0 is skipped; otherwise the transposed, no-data-marked frequency of the sum over all processed intervals |
| CoverageAggregation.IntervalFrequencyShapedUpFront | src/SatelliteCoverage/coverage_frequency_map.py:174-202 | corrected: the same frequency grid for every non-empty interval list, whichever intervals are skipped |
| CoverageAggregation.SkippedFirstInterval | src/SatelliteCoverage/coverage_frequency_map.py:192-198 | on [no coordinates, one point] over one x bin and two y bins, the loop as written gives no grid, while the corrected loop gives the grid [[50 %], [no data]] |
| CoverageAggregation.SkippedFirstIntervalGrid | src/SatelliteCoverage/coverage_frequency_map.py:175-227 | the frequency grid of that two-interval input is 50 percent in the lower cell and no data in the upper one |
| CoverageAggregation.SkippedFirstIntervalSum | src/SatelliteCoverage/coverage_frequency_map.py:178-198 | in that input the lower cell is observed by exactly one interval and the upper cell by none |
| CoverageAggregation.FrequencyCellOf | src/SatelliteCoverage/coverage_frequency_map.py:200-227 | cell (j, i) of the output is no data exactly when the sum at (i, j) is zero, and otherwise that sum as a percentage of len(interval_list); the sum never exceeds the number of intervals |
| CoverageAggregation.FrequencyBounds | src/SatelliteCoverage/coverage_frequency_map.py:175-227 | a cell is no data exactly when no processed interval observed it; otherwise its value lies in (0, 100] |
| CoverageAggregation.PercentOfCount | src/SatelliteCoverage/coverage_frequency_map.py:219-227 | the percentage v of c out of n satisfies v·n = c·100; for 0 < c ≤ n it lies in (0, 100], and is exactly 100 when c = n |
| CoverageAggregation.IdenticalIntervalsFullFrequency | src/SatelliteCoverage/coverage_frequency_map.py:175-227 | when every interval holds the same points, every cell with data reports 100 percent |
| TriangleTable.Encode | src/d02_delaunay_triangulation.py:81-83 | every data row has as many columns as the header (10) |
| TriangleTable.DecodeEncode | src/d02_delaunay_triangulation.py:57-83 | reading a written data row by the header's layout (number, three X, three Y, three indices) gives back its record |
| TriangleTable.EncodeDecode | src/d02_delaunay_triangulation.py:57-83 | a row that reads as a record is exactly the row written for that record |
| TriangleTable.TriangleRows | src/d02_delaunay_triangulation.py:57-83 | the loop builds the header followed by the row of each simplex, in simplex order |
| TriangleTable.TableRoundTrip | src/d02_delaunay_triangulation.py:50-83 | len(simplices)+1 rows, the first the header; data row n+1 reads back with number n and the indices of simplex n in order, and its stored X and Y values equal the points at its stored indices |
| TriangleTable.TablesBefore | src/d02_delaunay_triangulation.py:33-83 | the tables the loop has written before pair `stop` are one per earlier pair that is not skipped and whose raw file loads, in pair order, each that file's triangle table |
| TriangleTable.DelaunayTriangulationAsWritten | src/d02_delaunay_triangulation.py:33-83 | as written: the run stops at the first pair that is not skipped and whose raw file does not load, and reports its position; every pair before it loads or is skipped, and the tables written are exactly those of the pairs before it that load |
| TriangleTable.DelaunayTriangulation | src/d02_delaunay_triangulation.py:33-83 | corrected: one table per file pair, in pair order, exactly for the pairs that are not (already processed and overwrite off) and whose raw file loads; each table is that file's triangle table |
| TriangleTable.UnloadableFirstPairStops | src/d02_delaunay_triangulation.py:42-46 | on [unloadable pair, loadable pair] without overwrite, the loop as written writes nothing and stops at pair 0 |
| TriangleTable.OnlySecondPairProduced | src/d02_delaunay_triangulation.py:37-46 | on that input only pair 1 produces a table |
| TriangleTable.UnloadableFirstPairSkipped | src/d02_delaunay_triangulation.py:42-46 | on the same input the corrected loop writes the table of pair 1, which holds only the header |
| DeltaTimes.CollectDeltaTimes | src/test_datasets_dt.py:32-46 | one entry per listed file that loads, in listing order, each its span in days times 24 |
| DeltaTimes.HistogramBins | src/test_datasets_dt.py:55-60 | the bins start 0, 6 and step by 12 (strictly increasing); the last edge exceeds every delta time; if anything was appended the one before it is at most the maximum; the number of appends is the least k with 6 + 12k above the maximum |
| DeltaTimes.FewestAppends | src/test_datasets_dt.py:58-60 | a list of this form whose last edge exceeds the maximum and whose second-to-last does not has exactly the least number of appended edges |

## Left out

- Plotting and file output: the cartopy/matplotlib calls, colour maps, titles, date strings,
  `savefig`, `makedirs`, the CSV writer and the `__main__` blocks. The tables and grids are
  returned as values instead.
- Projections (`convert_to_grid`, the aeqd `Proj`, `pyproj.transform`): the projected coordinates
  are inputs.
- The Delaunay call: simplices are an input whose indices lie below the number of points. The
  empty-circumcircle property is not modelled. Neither is the error the library raises for fewer
  than three points, which the source does not catch.
- `compile_data`, `filter_data`, `divide_intervals`, `read_config`, `load_raw_csv`, `load_raw`,
  `dT` and `dataDatetimes` are not part of this model. Their results are inputs. How intervals
  are partitioned is not modelled.
- The `os.listdir`, `os.path.exists` and overwrite lookups are inputs. The progress messages are
  dropped. The print in the `DataFileError` handler of the triangulation loop raises instead of
  printing; see Findings.
- TriangleTable.DelaunayTriangulation: whether a processed file exists is fixed per pair before
  the loop. The source calls `os.path.exists` in every iteration, so when one processed path is
  listed twice, the second occurrence finds the file the first one wrote and is skipped (without
  overwrite). The model does not capture that.
- GridBinning.GetMapBins: floating-point rounding is not modelled. With a float step `np.arange`
  can yield one edge more than count+1; exact arithmetic always yields count+1. The model also
  requires a positive resolution (the configured value). A zero resolution raises in the source,
  and a negative one yields meaningless bins.
- CoverageGrid.BinIndex: edges that repeat a value are not modelled. The edges are assumed
  strictly increasing, as `get_map_bins` makes them.
- CoverageAggregation.CoverageTimeseries: takes `int(resolution)` as an integer input. Parsing a
  resolution string that is not an integer (which raises in the source) is not modelled.
- CoverageAggregation.IntervalFrequencyHistogram2d: when interval 0 and every later interval are
  skipped, the source keeps an empty array and fails only in plotting. With a single y bin,
  broadcasting gives an empty grid instead of an error. The model reports both as
  `UnshapedAccumulator`.
- DeltaTimes.HistogramBins: requires at least one delta time; with none the source's `max` raises
  and the script stops. Python's `max` over NaN values is not modelled. Neither are errors
  raised by `dT` other than `DataFileError`.

## Findings

| source | as written | input that shows it | evidently intended | confidence | as-written member | corrected member |
|---|---|---|---|---|---|---|
| src/SatelliteCoverage/coverage_frequency_map.py:192-198 | the accumulator `H` is resized only when `i == 0`; if interval 0 is skipped, `H` keeps shape (0,), and the next `H + histogram` with a histogram of shape (1, 2) raises `ValueError` | two intervals, the first without `lon`/`lat` columns, the second with one point, in a grid of one x bin and two y bins | shape the accumulator on the first processed interval (or from the grid), so a skipped interval only leaves its cells out | high, not executed | CoverageAggregation.IntervalFrequencyHistogram2d | CoverageAggregation.IntervalFrequencyShapedUpFront |
| src/d02_delaunay_triangulation.py:44-45 | the handler computes `dfe + 'It will not be processed.'`, adding an exception object to a string, which raises `TypeError`; the first pair whose raw file fails to load ends the run, and later pairs get no table | two pairs without overwrite: the first raw file fails to load, the second loads | print the message and go on to the next pair, as the comment above the handler says | medium, not executed (`DataFileError` is defined outside this model; the reading assumes it defines no `__add__`) | TriangleTable.DelaunayTriangulationAsWritten | TriangleTable.DelaunayTriangulation |
