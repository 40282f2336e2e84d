/** Small shared vocabulary: optional values, results with errors, the
    minimum and maximum of a non-empty sequence, and the positions that a
    filter-and-append loop keeps. */
module Common {

  /** A value that may be absent (a missing column, a file that failed to
      load, a grid cell with no data). */
  datatype Option<+T> = None | Some(value: T)

  /** The outcome of an operation that raises in the original program. */
  datatype Result<+T, +E> = Success(value: T) | Failure(error: E)

  /** Every element is smaller than every element after it. */
  predicate StrictlyIncreasing(s: seq<real>)
  {
    forall a, b :: 0 <= a < b < |s| ==> s[a] < s[b]
  }

  /** The smallest element, as `np.min` returns it. */
  function MinOf(s: seq<real>): (m: real)
    requires |s| > 0
    ensures m in s
    ensures forall k :: 0 <= k < |s| ==> m <= s[k]
  {
    if |s| == 1 then s[0]
    else
      var rest := MinOf(s[1..]);
      if s[0] <= rest then s[0] else rest
  }

  /** The largest element, as `np.max` and Python's `max` return it. */
  function MaxOf(s: seq<real>): (m: real)
    requires |s| > 0
    ensures m in s
    ensures forall k :: 0 <= k < |s| ==> s[k] <= m
  {
    if |s| == 1 then s[0]
    else
      var rest := MaxOf(s[1..]);
      if rest <= s[0] then s[0] else rest
  }

  /** The positions whose flag is set, in increasing order: the iterations
      of a loop that appends one entry per kept item and `continue`s past
      the others. */
  function TrueIndices(flags: seq<bool>): (r: seq<nat>)
    ensures |r| <= |flags|
    ensures forall k :: 0 <= k < |r| ==> r[k] < |flags| && flags[r[k]]
    ensures forall a, b :: 0 <= a < b < |r| ==> r[a] < r[b]
    ensures forall i :: 0 <= i < |flags| && flags[i] ==> i in r
  {
    if |flags| == 0 then []
    else
      var last := |flags| - 1;
      TrueIndices(flags[..last]) + (if flags[last] then [last] else [])
  }

  /** Which entries hold a value. */
  function Present<T>(s: seq<Option<T>>): seq<bool>
  {
    seq(|s|, k requires 0 <= k < |s| => s[k].Some?)
  }

  /** The values the entries hold, in order: what a loop appends when it
      skips the absent entries. */
  function Values<T>(s: seq<Option<T>>): seq<T>
  {
    if |s| == 0 then []
    else
      var last := |s| - 1;
      Values(s[..last]) + if s[last].Some? then [s[last].value] else []
  }

  /** The `k`-th value is held by the `k`-th present entry. */
  lemma {:induction false} ValuesAtTrueIndices<T>(s: seq<Option<T>>)
    ensures var kept := TrueIndices(Present(s));
      && |Values(s)| == |kept|
      && forall k :: 0 <= k < |kept| ==> s[kept[k]].Some? && Values(s)[k] == s[kept[k]].value
  {
    if |s| > 0 {
      var last := |s| - 1;
      var init := s[..last];
      assert Present(s)[..last] == Present(init);
      ValuesAtTrueIndices(init);
      var kept := TrueIndices(Present(init));
      assert forall k :: 0 <= k < |kept| ==> init[kept[k]] == s[kept[k]];
    }
  }
}
