/**
 * Index ranges and `array_utils::find_all_ranges`: the maximal runs of one
 * value in a boolean span, which the delete and dissolve operators use to
 * find the pieces of a curve that survive.
 */
module Runs {
  import opened Layout

  /** `IndexRange`: `size` consecutive indices starting at `start`. */
  datatype IndexRange = IndexRange(start: int, size: nat) {
    function End(): int { start + size }
    /** The last index; meaningful for a non-empty range only. */
    function Last(): int { start + size - 1 }
    function Shift(k: int): IndexRange { IndexRange(start + k, size) }
    function Indices(): seq<int> { Range(start, start + size) }
  }

  /**
   * The indices `j` of `lo .. hi-1` with `s[j] == v`, in ascending order
   * (what `IndexMask::from_bools` produces for a slice).
   */
  function IndicesIn(s: seq<bool>, v: bool, lo: int, hi: int): seq<int>
    requires 0 <= lo && hi <= |s|
    decreases hi - lo
  {
    if lo >= hi then []
    else (if s[lo] == v then [lo] else []) + IndicesIn(s, v, lo + 1, hi)
  }

  /** `IndicesIn` lists only indices of `v` inside the window. */
  lemma {:induction false} IndicesInBounds(s: seq<bool>, v: bool, lo: int, hi: int)
    requires 0 <= lo && hi <= |s|
    ensures forall k :: 0 <= k < |IndicesIn(s, v, lo, hi)| ==>
      lo <= IndicesIn(s, v, lo, hi)[k] < hi && s[IndicesIn(s, v, lo, hi)[k]] == v
    decreases hi - lo
  {
    if lo < hi {
      IndicesInBounds(s, v, lo + 1, hi);
      var rest := IndicesIn(s, v, lo + 1, hi);
      var r := IndicesIn(s, v, lo, hi);
      assert r == (if s[lo] == v then [lo] else []) + rest;
      if s[lo] == v {
        forall k | 0 <= k < |r| ensures lo <= r[k] < hi && s[r[k]] == v {
          if k > 0 { assert r[k] == rest[k - 1]; }
        }
      }
    }
  }

  /** `IndicesIn` is strictly increasing. */
  lemma {:induction false} IndicesInSorted(s: seq<bool>, v: bool, lo: int, hi: int)
    requires 0 <= lo && hi <= |s|
    ensures forall k, l :: 0 <= k < l < |IndicesIn(s, v, lo, hi)| ==>
      IndicesIn(s, v, lo, hi)[k] < IndicesIn(s, v, lo, hi)[l]
    decreases hi - lo
  {
    if lo < hi {
      IndicesInSorted(s, v, lo + 1, hi);
      IndicesInBounds(s, v, lo + 1, hi);
      var rest := IndicesIn(s, v, lo + 1, hi);
      var r := IndicesIn(s, v, lo, hi);
      assert r == (if s[lo] == v then [lo] else []) + rest;
      if s[lo] == v {
        forall k, l | 0 <= k < l < |r| ensures r[k] < r[l] {
          assert r[l] == rest[l - 1];
          if k > 0 { assert r[k] == rest[k - 1]; }
        }
      }
    }
  }

  /** Every index of `v` inside the window is listed. */
  lemma {:induction false} IndicesInComplete(s: seq<bool>, v: bool, lo: int, hi: int)
    requires 0 <= lo && hi <= |s|
    ensures forall j :: lo <= j < hi && s[j] == v ==> j in IndicesIn(s, v, lo, hi)
    decreases hi - lo
  {
    if lo < hi {
      IndicesInComplete(s, v, lo + 1, hi);
      var rest := IndicesIn(s, v, lo + 1, hi);
      var r := IndicesIn(s, v, lo, hi);
      assert r == (if s[lo] == v then [lo] else []) + rest;
      forall j | lo <= j < hi && s[j] == v ensures j in r {
        if j > lo { assert j in rest; }
      }
    }
  }

  lemma {:induction false} IndicesInSplit(s: seq<bool>, v: bool, lo: int, mid: int, hi: int)
    requires 0 <= lo <= mid <= hi <= |s|
    ensures IndicesIn(s, v, lo, hi) == IndicesIn(s, v, lo, mid) + IndicesIn(s, v, mid, hi)
    decreases mid - lo
  {
    if lo < mid {
      IndicesInSplit(s, v, lo + 1, mid, hi);
    }
  }

  /** A range that holds only `v` contributes all of its indices. */
  lemma {:induction false} IndicesInRun(s: seq<bool>, v: bool, lo: int, e: int, hi: int)
    requires 0 <= lo <= e <= hi <= |s|
    requires forall j :: lo <= j < e ==> s[j] == v
    ensures IndicesIn(s, v, lo, hi) == Range(lo, e) + IndicesIn(s, v, e, hi)
    decreases e - lo
  {
    if lo < e {
      IndicesInRun(s, v, lo + 1, e, hi);
    }
  }

  /** The number of indices found is the number of `v` entries, `Span::count(v)`. */
  lemma {:induction false} IndicesInCount(s: seq<bool>, v: bool, lo: int, hi: int)
    requires 0 <= lo <= hi <= |s|
    ensures |IndicesIn(s, v, lo, hi)| == multiset(s[lo..hi])[v]
    decreases hi - lo
  {
    if lo < hi {
      IndicesInCount(s, v, lo + 1, hi);
      CountCons(s, v, lo, hi);
    }
  }

  /** Counting `v` in `s[lo..hi]` counts `s[lo]`, then the rest. */
  lemma CountCons(s: seq<bool>, v: bool, lo: int, hi: int)
    requires 0 <= lo < hi <= |s|
    ensures multiset(s[lo..hi])[v] == (if s[lo] == v then 1 else 0) + multiset(s[lo + 1..hi])[v]
  {
    assert s[lo..hi] == [s[lo]] + s[lo + 1..hi];
  }

  /**
   * `IndexMask::from_bools` undoes `to_bools`: the indices flagged true in a
   * window are the mask itself when `s` flags exactly the mask's members.
   */
  lemma {:induction false} IndicesInMask(s: seq<bool>, m: seq<int>, lo: int, n: int)
    requires 0 <= lo <= n == |s| && IsMask(m, n)
    requires forall i :: 0 <= i < |m| ==> lo <= m[i]
    requires forall j :: lo <= j < n ==> (s[j] <==> j in m)
    ensures IndicesIn(s, true, lo, n) == m
    decreases n - lo
  {
    if lo == n {
      MaskBelow(m, lo, n);
    } else if lo in m {
      MaskHeadFlagged(s, m, lo, n);
      IndicesInMask(s, m[1..], lo + 1, n);
      FlaggedHead(s, m, lo, n);
    } else {
      MaskAbove(m, lo);
      IndicesInMask(s, m, lo + 1, n);
    }
  }

  /** A flagged `lo` heads the indices from `lo` on, ahead of the rest of the mask. */
  lemma FlaggedHead(s: seq<bool>, m: seq<int>, lo: int, n: int)
    requires 0 <= lo < n == |s| && |m| > 0 && m[0] == lo && s[lo]
    requires IndicesIn(s, true, lo + 1, n) == m[1..]
    ensures IndicesIn(s, true, lo, n) == m
  {
    assert m == [lo] + m[1..];
  }

  /** A non-empty mask of curves `0 .. n-1` whose entries are at least `lo` has `lo < n`. */
  lemma MaskBelow(m: seq<int>, lo: int, n: int)
    requires IsMask(m, n) && forall i :: 0 <= i < |m| ==> lo <= m[i]
    ensures |m| > 0 ==> lo < n
  {
    if |m| > 0 {
      assert lo <= m[0];
    }
  }

  /** A mask whose entries are at least `lo` and which misses `lo` has entries above `lo`. */
  lemma MaskAbove(m: seq<int>, lo: int)
    requires forall i :: 0 <= i < |m| ==> lo <= m[i]
    requires lo !in m
    ensures forall i :: 0 <= i < |m| ==> lo + 1 <= m[i]
  {
    forall i | 0 <= i < |m| ensures lo + 1 <= m[i] {
      assert m[i] != lo;
    }
  }

  /** When `lo` is flagged it is the mask's first entry, and the rest of the mask flags the rest of `s`. */
  lemma MaskHeadFlagged(s: seq<bool>, m: seq<int>, lo: int, n: int)
    requires 0 <= lo < n == |s| && IsMask(m, n) && lo in m
    requires forall i :: 0 <= i < |m| ==> lo <= m[i]
    requires forall j :: lo <= j < n ==> (s[j] <==> j in m)
    ensures m[0] == lo && IsMask(m[1..], n)
    ensures forall i :: 0 <= i < |m| - 1 ==> lo + 1 <= m[1..][i]
    ensures forall j :: lo + 1 <= j < n ==> (s[j] <==> j in m[1..])
  {
    assert m[0] == lo by {
      var i :| 0 <= i < |m| && m[i] == lo;
    }
    var m' := m[1..];
    forall j | lo + 1 <= j < n ensures s[j] <==> j in m' {
      if j in m {
        var i :| 0 <= i < |m| && m[i] == j;
        assert i > 0 && m'[i - 1] == j;
      }
    }
  }

  /** `from_bools(to_bools(m)) == m`: flagging a mask's members and collecting the flags gives the mask back. */
  lemma FromBoolsToBools(m: seq<int>, n: nat)
    requires IsMask(m, n)
    ensures IndicesIn(ToBools(m, n), true, 0, n) == m
  {
    IndicesInMask(ToBools(m, n), m, 0, n);
  }

  /** `to_bools(from_bools(s)) == s`: the mask of the true entries is valid and flags exactly those entries. */
  lemma ToBoolsFromBools(s: seq<bool>)
    ensures IsMask(IndicesIn(s, true, 0, |s|), |s|)
    ensures ToBools(IndicesIn(s, true, 0, |s|), |s|) == s
  {
    var m := IndicesIn(s, true, 0, |s|);
    IndicesInBounds(s, true, 0, |s|);
    IndicesInSorted(s, true, 0, |s|);
    forall i | 0 <= i < |s| ensures ToBools(m, |s|)[i] == s[i] {
      ListedIff(s, i);
    }
  }

  /** An index is listed among the true entries exactly when its entry is true. */
  lemma ListedIff(s: seq<bool>, i: int)
    requires 0 <= i < |s|
    ensures i in IndicesIn(s, true, 0, |s|) <==> s[i]
  {
    var m := IndicesIn(s, true, 0, |s|);
    IndicesInBounds(s, true, 0, |s|);
    IndicesInComplete(s, true, 0, |s|);
    if i in m {
      var k :| 0 <= k < |m| && m[k] == i;
    }
  }

  lemma {:induction false} IndicesInNone(s: seq<bool>, v: bool, lo: int, hi: int)
    requires 0 <= lo && hi <= |s|
    requires forall j :: lo <= j < hi ==> s[j] != v
    ensures IndicesIn(s, v, lo, hi) == []
    decreases hi - lo
  {
    if lo < hi {
      IndicesInNone(s, v, lo + 1, hi);
    }
  }

  /** The indices of `true` and of `false` together are the whole window. */
  lemma {:induction false} IndicesInPartition(s: seq<bool>, lo: int, hi: int)
    requires 0 <= lo <= hi <= |s|
    ensures multiset(IndicesIn(s, true, lo, hi)) + multiset(IndicesIn(s, false, lo, hi)) ==
            multiset(Range(lo, hi))
    decreases hi - lo
  {
    if lo < hi {
      IndicesInPartition(s, lo + 1, hi);
    }
  }

  /** The first index at or after `i` that does not hold `v` (or `|s|`). */
  function RunEnd(s: seq<bool>, v: bool, i: nat): (e: nat)
    requires i <= |s|
    ensures i <= e <= |s|
    ensures forall j :: i <= j < e ==> s[j] == v
    ensures e == |s| || s[e] != v
    decreases |s| - i
  {
    if i == |s| || s[i] != v then i else RunEnd(s, v, i + 1)
  }

  /**
   * `r` lists, in order, the maximal runs of `v` in `s` that start at or
   * after `i`: every run is non-empty and holds only `v`, cannot be extended
   * on either side, is followed by a gap before the next run, and every `v`
   * at or after `i` lies in one of them.
   */
  ghost predicate MaximalRuns(s: seq<bool>, v: bool, i: nat, r: seq<IndexRange>) {
    RunsHoldValue(s, v, i, r) && RunsCannotGrow(s, v, r) && RunsSorted(r) && RunsCover(s, v, i, r)
  }

  /** Each run is non-empty, lies in `i .. |s|-1` and holds only `v`. */
  ghost predicate RunsHoldValue(s: seq<bool>, v: bool, i: nat, r: seq<IndexRange>) {
    (forall k :: 0 <= k < |r| ==> 0 < r[k].size && i <= r[k].start && r[k].End() <= |s|) &&
    (forall k, j :: 0 <= k < |r| && r[k].start <= j < r[k].End() ==> 0 <= j < |s| && s[j] == v)
  }

  /** No run can be extended to the left or to the right. */
  ghost predicate RunsCannotGrow(s: seq<bool>, v: bool, r: seq<IndexRange>) {
    (forall k :: 0 <= k < |r| ==> r[k].start == 0 || (0 < r[k].start <= |s| && s[r[k].start - 1] != v)) &&
    (forall k :: 0 <= k < |r| ==> r[k].End() == |s| || (0 <= r[k].End() < |s| && s[r[k].End()] != v))
  }

  /** Runs come in ascending order with a gap between consecutive ones. */
  ghost predicate RunsSorted(r: seq<IndexRange>) {
    forall k, l :: 0 <= k < l < |r| ==> r[k].End() < r[l].start
  }

  /** Every `v` at or after `i` lies in some run. */
  ghost predicate RunsCover(s: seq<bool>, v: bool, i: nat, r: seq<IndexRange>) {
    forall j :: i <= j < |s| ==> s[j] == v ==> exists k :: 0 <= k < |r| && r[k].start <= j < r[k].End()
  }

  lemma MaximalRunsSkip(s: seq<bool>, v: bool, i: nat, r: seq<IndexRange>)
    requires i < |s| && s[i] != v && MaximalRuns(s, v, i + 1, r)
    ensures MaximalRuns(s, v, i, r)
  {
  }

  lemma MaximalRunsCons(s: seq<bool>, v: bool, i: nat, e: nat, rest: seq<IndexRange>, r: seq<IndexRange>)
    requires i < e <= |s| && (i == 0 || s[i - 1] != v)
    requires forall j :: i <= j < e ==> s[j] == v
    requires e == |s| ==> rest == []
    requires e < |s| ==> s[e] != v && MaximalRuns(s, v, e + 1, rest)
    requires r == [IndexRange(i, e - i)] + rest
    ensures MaximalRuns(s, v, i, r)
  {
    ConsHoldValue(s, v, i, e, rest);
    ConsCannotGrow(s, v, i, e, rest);
    forall k, l | 0 <= k < l < |r| ensures r[k].End() < r[l].start {
      assert r[l] == rest[l - 1];
      if k > 0 { assert r[k] == rest[k - 1]; }
    }
    forall j | i <= j < |s| && s[j] == v
      ensures exists k :: 0 <= k < |r| && r[k].start <= j < r[k].End()
    {
      if j < e {
        assert r[0].start <= j < r[0].End();
      } else {
        assert j != e;
        var k :| 0 <= k < |rest| && rest[k].start <= j < rest[k].End();
        assert r[k + 1] == rest[k];
      }
    }
  }

  lemma ConsHoldValue(s: seq<bool>, v: bool, i: nat, e: nat, rest: seq<IndexRange>)
    requires i < e <= |s|
    requires forall j :: i <= j < e ==> s[j] == v
    requires e == |s| ==> rest == []
    requires e < |s| ==> RunsHoldValue(s, v, e + 1, rest)
    ensures RunsHoldValue(s, v, i, [IndexRange(i, e - i)] + rest)
  {
    var r := [IndexRange(i, e - i)] + rest;
    forall k | 0 <= k < |r|
      ensures 0 < r[k].size && i <= r[k].start && r[k].End() <= |s|
      ensures forall j :: r[k].start <= j < r[k].End() ==> 0 <= j < |s| && s[j] == v
    {
      if k > 0 { assert r[k] == rest[k - 1]; }
    }
  }

  lemma ConsCannotGrow(s: seq<bool>, v: bool, i: nat, e: nat, rest: seq<IndexRange>)
    requires i < e <= |s| && (i == 0 || s[i - 1] != v)
    requires e == |s| ==> rest == []
    requires e < |s| ==> s[e] != v && RunsCannotGrow(s, v, rest)
    ensures RunsCannotGrow(s, v, [IndexRange(i, e - i)] + rest)
  {
    var r := [IndexRange(i, e - i)] + rest;
    forall k | 0 <= k < |r|
      ensures r[k].start == 0 || (0 < r[k].start <= |s| && s[r[k].start - 1] != v)
      ensures r[k].End() == |s| || (0 <= r[k].End() < |s| && s[r[k].End()] != v)
    {
      if k > 0 { assert r[k] == rest[k - 1]; }
    }
  }

  function RunsFrom(s: seq<bool>, v: bool, i: nat): seq<IndexRange>
    requires i <= |s|
    decreases |s| - i
  {
    if i == |s| then []
    else if s[i] != v then RunsFrom(s, v, i + 1)
    else
      var e := RunEnd(s, v, i);
      [IndexRange(i, e - i)] + (if e == |s| then [] else RunsFrom(s, v, e + 1))
  }

  lemma RunsFromAtRun(s: seq<bool>, v: bool, i: nat, e: nat)
    requires i < |s| && s[i] == v && e == RunEnd(s, v, i)
    ensures RunsFrom(s, v, i) == [IndexRange(i, e - i)] + (if e == |s| then [] else RunsFrom(s, v, e + 1))
  {
  }

  /** Scanning from a run boundary yields the maximal runs of the rest of `s`. */
  lemma {:induction false} RunsFromMaximal(s: seq<bool>, v: bool, i: nat)
    requires i <= |s|
    requires i == 0 || s[i - 1] != v
    ensures MaximalRuns(s, v, i, RunsFrom(s, v, i))
    decreases |s| - i, 1
  {
    if i == |s| {
      assert RunsFrom(s, v, i) == [];
    } else if s[i] != v {
      RunsFromMaximal(s, v, i + 1);
      assert RunsFrom(s, v, i) == RunsFrom(s, v, i + 1);
      MaximalRunsSkip(s, v, i, RunsFrom(s, v, i + 1));
    } else {
      RunMaximal(s, v, i, RunEnd(s, v, i));
    }
  }

  /** The case of `RunsFromMaximal` where a run starts at `i` and ends before `e`. */
  lemma {:induction false} RunMaximal(s: seq<bool>, v: bool, i: nat, e: nat)
    requires i < |s| && s[i] == v && e == RunEnd(s, v, i)
    requires i == 0 || s[i - 1] != v
    ensures MaximalRuns(s, v, i, RunsFrom(s, v, i))
    decreases |s| - i, 0
  {
    if e < |s| {
      RunsFromMaximal(s, v, e + 1);
    }
    RunThenRest(s, v, i, e);
  }

  /** A run from `i` to `e`, followed by the maximal runs after `e`, are the maximal runs from `i`. */
  lemma RunThenRest(s: seq<bool>, v: bool, i: nat, e: nat)
    requires i < |s| && s[i] == v && e == RunEnd(s, v, i)
    requires i == 0 || s[i - 1] != v
    requires e < |s| ==> MaximalRuns(s, v, e + 1, RunsFrom(s, v, e + 1))
    ensures MaximalRuns(s, v, i, RunsFrom(s, v, i))
  {
    RunsFromAtRun(s, v, i, e);
    var rest := if e == |s| then [] else RunsFrom(s, v, e + 1);
    MaximalRunsCons(s, v, i, e, rest, RunsFrom(s, v, i));
  }

  /** `array_utils::find_all_ranges(span, v)`. */
  function FindAllRanges(s: seq<bool>, v: bool): seq<IndexRange>
  {
    RunsFrom(s, v, 0)
  }

  /** `find_all_ranges` yields the maximal runs of `v`, in order. */
  lemma FindAllRangesMaximal(s: seq<bool>, v: bool)
    ensures MaximalRuns(s, v, 0, FindAllRanges(s, v))
  {
    RunsFromMaximal(s, v, 0);
  }

  /** The indices of the ranges, shifted by `base` and laid end to end. */
  function RangesPoints(r: seq<IndexRange>, base: int): seq<int>
  {
    if r == [] then [] else r[0].Shift(base).Indices() + RangesPoints(r[1..], base)
  }

  lemma RangesPointsCons(i: int, e: int, rest: seq<IndexRange>, base: int)
    requires i <= e
    ensures RangesPoints([IndexRange(i, e - i)] + rest, base) == Range(base + i, base + e) + RangesPoints(rest, base)
  {
    assert ([IndexRange(i, e - i)] + rest)[1..] == rest;
  }

  /**
   * Laid end to end, the maximal runs of `v` in the slice `t == s[lo..hi]`,
   * shifted back by `lo`, are exactly the indices of `v` in that slice.
   */
  lemma {:induction false} RunsFromIndices(s: seq<bool>, v: bool, lo: int, hi: int, t: seq<bool>, i: nat)
    requires 0 <= lo <= hi <= |s| && t == s[lo..hi] && i <= |t|
    requires i == 0 || t[i - 1] != v
    ensures RangesPoints(RunsFrom(t, v, i), lo) == IndicesIn(s, v, lo + i, hi)
    decreases |t| - i
  {
    if i == |t| {
      assert RunsFrom(t, v, i) == [];
    } else if t[i] != v {
      RunsFromIndices(s, v, lo, hi, t, i + 1);
      GapStep(s, v, lo, hi, t, i);
    } else {
      var e := RunEnd(t, v, i);
      if e < |t| {
        RunsFromIndices(s, v, lo, hi, t, e + 1);
      }
      RunStep(s, v, lo, hi, t, i, e);
    }
  }

  /** The case of `RunsFromIndices` where `t[i]` is not `v`. */
  lemma GapStep(s: seq<bool>, v: bool, lo: int, hi: int, t: seq<bool>, i: nat)
    requires 0 <= lo <= hi <= |s| && t == s[lo..hi] && i < |t| && t[i] != v
    requires RangesPoints(RunsFrom(t, v, i + 1), lo) == IndicesIn(s, v, lo + i + 1, hi)
    ensures RangesPoints(RunsFrom(t, v, i), lo) == IndicesIn(s, v, lo + i, hi)
  {
    assert RunsFrom(t, v, i) == RunsFrom(t, v, i + 1);
    SliceGap(s, v, lo, hi, t, i);
  }

  /** The case of `RunsFromIndices` where a run of `v` starts at `i` and ends at `e`. */
  lemma RunStep(s: seq<bool>, v: bool, lo: int, hi: int, t: seq<bool>, i: nat, e: nat)
    requires 0 <= lo <= hi <= |s| && t == s[lo..hi] && i < |t| && t[i] == v && e == RunEnd(t, v, i)
    requires e < |t| ==> RangesPoints(RunsFrom(t, v, e + 1), lo) == IndicesIn(s, v, lo + e + 1, hi)
    ensures RangesPoints(RunsFrom(t, v, i), lo) == IndicesIn(s, v, lo + i, hi)
  {
    var rest := if e == |t| then [] else RunsFrom(t, v, e + 1);
    if e < |t| {
      SliceGap(s, v, lo, hi, t, e);
    } else {
      assert IndicesIn(s, v, lo + e, hi) == [];
    }
    RunsFromAtRun(t, v, i, e);
    SliceRun(s, v, lo, hi, t, i, e);
    RunCase(s, v, lo, hi, t, i, e, rest);
  }

  /** A run followed by the runs after its end point. */
  lemma RunCase(s: seq<bool>, v: bool, lo: int, hi: int, t: seq<bool>, i: int, e: int, rest: seq<IndexRange>)
    requires 0 <= lo && 0 <= i <= e && lo + e <= hi <= |s| && 0 <= i <= |t|
    requires forall j :: lo + i <= j < lo + e ==> s[j] == v
    requires RunsFrom(t, v, i) == [IndexRange(i, e - i)] + rest
    requires RangesPoints(rest, lo) == IndicesIn(s, v, lo + e, hi)
    ensures RangesPoints(RunsFrom(t, v, i), lo) == IndicesIn(s, v, lo + i, hi)
  {
    RangesPointsCons(i, e, rest, lo);
    IndicesInRun(s, v, lo + i, lo + e, hi);
  }

  lemma SliceRun(s: seq<bool>, v: bool, lo: int, hi: int, t: seq<bool>, i: nat, e: nat)
    requires 0 <= lo <= hi <= |s| && t == s[lo..hi] && i <= e <= |t|
    requires forall j :: i <= j < e ==> t[j] == v
    ensures forall j :: lo + i <= j < lo + e ==> s[j] == v
  {
    forall j | lo + i <= j < lo + e ensures s[j] == v {
      assert t[j - lo] == s[j];
    }
  }

  lemma SliceGap(s: seq<bool>, v: bool, lo: int, hi: int, t: seq<bool>, e: nat)
    requires 0 <= lo <= hi <= |s| && t == s[lo..hi] && e < |t| && t[e] != v
    ensures IndicesIn(s, v, lo + e, hi) == IndicesIn(s, v, lo + e + 1, hi)
  {
    assert s[lo + e] == t[e];
  }

  lemma RunsIndices(s: seq<bool>, v: bool, lo: int, hi: int)
    requires 0 <= lo <= hi <= |s|
    ensures RangesPoints(FindAllRanges(s[lo..hi], v), lo) == IndicesIn(s, v, lo, hi)
  {
    RunsFromIndices(s, v, lo, hi, s[lo..hi], 0);
  }
}
