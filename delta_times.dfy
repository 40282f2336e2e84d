/** The delta-time survey of the raw data folder: the time spans of the
    files that load, and the histogram bins 0, 6, 18, 30, ... that cover
    them. */
module DeltaTimes {
  import opened Common

  /** One entry of the folder listing: whether the body of the `try`
      raises no `DataFileError` for it (neither `load_raw` nor
      `dataDatetimes` nor `dT` does), and the time span its name encodes,
      in days (`dT(dataDatetimes(filename))`). */
  datatype DataFile = DataFile(loads: bool, spanDays: real)

  function Loads(files: seq<DataFile>): seq<bool>
  {
    seq(|files|, k requires 0 <= k < |files| => files[k].loads)
  }

  /** The delta time each file would add, or `None` when it does not load. */
  function Candidates(files: seq<DataFile>): seq<Option<real>>
  {
    seq(|files|, k requires 0 <= k < |files| =>
      if files[k].loads then Some(files[k].spanDays * 24.0) else None)
  }

  /** The loop that builds `dt_list`: the span in hours of every file that
      loads, in listing order. */
  method CollectDeltaTimes(files: seq<DataFile>) returns (dtList: seq<real>)
    ensures var kept := TrueIndices(Loads(files));
      && |dtList| == |kept|
      && forall k :: 0 <= k < |dtList| ==> dtList[k] == files[kept[k]].spanDays * 24.0
  {
    ghost var candidates := Candidates(files);
    dtList := [];
    var k := 0;
    while k < |files|
      invariant 0 <= k <= |files|
      invariant dtList == Values(candidates[..k])
    {
      assert candidates[..k + 1][..k] == candidates[..k];
      var f := files[k];
      if f.loads {
        var dt := f.spanDays * 24.0;
        dtList := dtList + [dt];
      }
      k := k + 1;
    }
    assert candidates[..k] == candidates;
    assert Present(candidates) == Loads(files);
    ValuesAtTrueIndices(candidates);
  }

  /** The `k`-th bin edge: 0, then 6, 18, 30, ... */
  function Edge(k: nat): int
  {
    if k == 0 then 0 else 6 + 12 * (k - 1)
  }

  /** The bins loop: starting from `[0, 6]`, append the last edge plus 12
      while the last edge is at most the largest delta time. */
  method HistogramBins(dtList: seq<real>) returns (bins: seq<int>)
    requires |dtList| > 0
    ensures |bins| >= 2
    ensures forall k :: 0 <= k < |bins| ==> bins[k] == Edge(k)
    ensures forall a, b :: 0 <= a < b < |bins| ==> bins[a] < bins[b]
    ensures forall k :: 0 <= k < |dtList| ==> dtList[k] < bins[|bins| - 1] as real
    ensures |bins| > 2 ==> bins[|bins| - 2] as real <= MaxOf(dtList)
    ensures (6 + 12 * (|bins| - 2)) as real > MaxOf(dtList)
    ensures forall k: nat :: k < |bins| - 2 ==> (6 + 12 * k) as real <= MaxOf(dtList)
  {
    var top := MaxOf(dtList);
    bins := [0, 6];
    while bins[|bins| - 1] as real <= top
      invariant |bins| >= 2
      invariant forall k :: 0 <= k < |bins| ==> bins[k] == Edge(k)
      invariant |bins| > 2 ==> bins[|bins| - 2] as real <= top
      decreases top.Floor - bins[|bins| - 1]
    {
      var lb := bins[|bins| - 1];
      bins := bins + [lb + 12];
    }
    FewestAppends(dtList, bins);
  }

  /** The number of appended edges is the least `k` with `6 + 12 k` above
      the largest delta time. */
  lemma {:induction false} FewestAppends(dtList: seq<real>, bins: seq<int>)
    requires |dtList| > 0
    requires |bins| >= 2 && forall k :: 0 <= k < |bins| ==> bins[k] == Edge(k)
    requires MaxOf(dtList) < bins[|bins| - 1] as real
    requires |bins| > 2 ==> bins[|bins| - 2] as real <= MaxOf(dtList)
    ensures (6 + 12 * (|bins| - 2)) as real > MaxOf(dtList)
    ensures forall k: nat :: k < |bins| - 2 ==> (6 + 12 * k) as real <= MaxOf(dtList)
  {
    var top := MaxOf(dtList);
    assert bins[|bins| - 1] == 6 + 12 * (|bins| - 2);
    forall k: nat | k < |bins| - 2
      ensures (6 + 12 * k) as real <= top
    {
      assert bins[|bins| - 2] == 6 + 12 * (|bins| - 3);
      assert 6 + 12 * k <= bins[|bins| - 2];
    }
  }
}
