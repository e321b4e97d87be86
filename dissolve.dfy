/**
 * The dissolve operator's choice of points, `get_points_to_dissolve`.
 *
 * POINTS dissolves the selected points. UNSELECT and BETWEEN dissolve
 * unselected points instead, and only in curves that hold at least one
 * selected point; BETWEEN also spares the unselected points before the first
 * and after the last selected point of a curve, so it only removes the gaps
 * between selected points.
 */
module Dissolve {
  import opened Layout
  import opened Runs

  datatype DissolveMode = Points | Between | Unselect

  /**
   * The `.selection` point attribute, `true` everywhere when the geometry has
   * none, copied into a fresh all-false array only at the indices of `mask`.
   */
  function Picked(selection: Option<seq<bool>>, mask: seq<int>, n: nat): (r: seq<bool>)
    requires selection.Some? ==> |selection.value| == n
    ensures |r| == n
  {
    var sel := OrDefault(selection, n, true);
    seq(n, p requires 0 <= p < n => p in mask && sel[p])
  }

  /** Entry `j` and every entry before it are unselected. */
  predicate Leading(t: seq<bool>, j: int) {
    forall q :: 0 <= q <= j && q < |t| ==> !t[q]
  }

  /** Entry `j` and every entry after it are unselected. */
  predicate Trailing(t: seq<bool>, j: int) {
    forall q :: 0 <= q && j <= q < |t| ==> !t[q]
  }

  /** No entry is selected. */
  predicate NoneSelected(t: seq<bool>) {
    forall q :: 0 <= q < |t| ==> !t[q]
  }

  /**
   * Whether point `j` of a curve whose picked flags are `t` is kept (not
   * dissolved) by UNSELECT or BETWEEN.
   */
  predicate KeptIn(t: seq<bool>, mode: DissolveMode, j: int)
    requires 0 <= j < |t|
  {
    NoneSelected(t) || t[j] || (mode == Between && (Leading(t, j) || Trailing(t, j)))
  }

  /** Whether point `p` is kept by UNSELECT or BETWEEN, given the picked flags `r` of all points. */
  predicate KeptPoint(o: seq<int>, r: seq<bool>, mode: DissolveMode, p: int)
    requires ValidOffsets(o) && |r| == PointsNum(o) && 0 <= p < |r|
  {
    var c := CurveIndex(o, p);
    KeptIn(r[o[c]..o[c + 1]], mode, p - o[c])
  }

  /** Whether point `p` is dissolved, given the picked flags `r` of all points. */
  predicate Dissolved(o: seq<int>, r: seq<bool>, mode: DissolveMode, p: int)
    requires ValidOffsets(o) && |r| == PointsNum(o) && 0 <= p < |r|
  {
    if mode == Points then r[p] else !KeptPoint(o, r, mode, p)
  }

  /** `get_points_to_dissolve`. */
  method GetPointsToDissolve(o: seq<int>, selection: Option<seq<bool>>, mask: seq<int>, mode: DissolveMode)
    returns (res: seq<bool>)
    requires ValidOffsets(o) && IsMask(mask, PointsNum(o))
    requires selection.Some? ==> |selection.value| == PointsNum(o)
    ensures |res| == PointsNum(o)
    ensures forall p :: 0 <= p < |res| ==> (res[p] <==> Dissolved(o, Picked(selection, mask, PointsNum(o)), mode, p))
  {
    var n := PointsNum(o);
    var picked := Picked(selection, mask, n);
    var a := new bool[n](p requires 0 <= p < n => picked[p]);
    if mode == Points {
      return a[..];
    }
    var ci := 0;
    while ci < CurvesNum(o)
      invariant 0 <= ci <= CurvesNum(o)
      invariant forall p :: 0 <= p < o[ci] ==> a[p] == KeptPoint(o, picked, mode, p)
      invariant forall p :: o[ci] <= p < n ==> a[p] == picked[p]
    {
      assert o[ci] <= o[ci + 1] <= n;
      KeepCurve(a, o, picked, mode, ci);
      ci := ci + 1;
    }
    Invert(a);
    return a[..];
  }

  /**
   * The body of the loop over curves: marks the points of curve `c` that are
   * kept, given that the array still holds the picked flags there.
   */
  method KeepCurve(a: array<bool>, o: seq<int>, picked: seq<bool>, mode: DissolveMode, c: int)
    requires ValidOffsets(o) && 0 <= c < CurvesNum(o) && a.Length == |picked| == PointsNum(o)
    requires mode != Points
    requires forall p :: o[c] <= p < o[c + 1] ==> a[p] == picked[p]
    modifies a
    ensures forall p :: 0 <= p < a.Length && !(o[c] <= p < o[c + 1]) ==> a[p] == old(a[p])
    ensures forall p :: o[c] <= p < o[c + 1] ==> a[p] == KeptPoint(o, picked, mode, p)
  {
    var lo, hi := o[c], o[c + 1];
    assert lo <= hi <= PointsNum(o);
    var t := a[lo..hi];
    assert t == picked[lo..hi];
    KeepRuns(a, lo, t, mode);
    forall p | lo <= p < hi
      ensures a[p] == KeptPoint(o, picked, mode, p)
    {
      CurveIndexUnique(o, p, c);
    }
  }

  /** The points `lo .. lo+|t|-1` of one curve, whose picked flags are `t`. */
  method KeepRuns(a: array<bool>, lo: int, t: seq<bool>, mode: DissolveMode)
    requires 0 <= lo && lo + |t| <= a.Length && mode != Points
    requires forall j :: 0 <= j < |t| ==> a[lo + j] == t[j]
    modifies a
    ensures forall p :: 0 <= p < a.Length && !(lo <= p < lo + |t|) ==> a[p] == old(a[p])
    ensures forall p :: lo <= p < lo + |t| ==> a[p] == KeptIn(t, mode, p - lo)
  {
    var hi := lo + |t|;
    assert (true in t) <==> !NoneSelected(t);
    if !(true in t) {
      FillTrue(a, lo, hi);
      return;
    }
    if mode != Between {
      return;
    }
    var ranges := FindAllRanges(t, false);
    BetweenKept(t, ranges);
    if |ranges| != 0 {
      var first_range := ranges[0].Shift(lo);
      var last_range := ranges[|ranges| - 1].Shift(lo);
      if first_range.start == lo {
        FillTrue(a, first_range.start, first_range.End());
      }
      if last_range.Last() == hi - 1 {
        FillTrue(a, last_range.start, last_range.End());
      }
    }
  }

  /**
   * In a curve with a selected point, BETWEEN keeps a point exactly when it is
   * selected, lies in the unselected run that starts the curve, or lies in the
   * one that ends it.
   */
  lemma BetweenKept(t: seq<bool>, r: seq<IndexRange>)
    requires r == FindAllRanges(t, false) && !NoneSelected(t)
    ensures r != [] ==> 0 <= r[0].start && r[0].End() <= |t| && 0 <= r[|r| - 1].start && r[|r| - 1].End() <= |t|
    ensures forall j :: 0 <= j < |t| ==> (KeptIn(t, Between, j) <==>
      t[j] || (r != [] && r[0].start == 0 && j < r[0].End()) ||
      (r != [] && r[|r| - 1].Last() == |t| - 1 && r[|r| - 1].start <= j))
  {
    FindAllRangesMaximal(t, false);
    FirstRunLeading(t, r);
    LastRunTrailing(t, r);
  }

  /** With `r` the maximal unselected runs of `t`, the first run starts the curve exactly over its leading unselected points. */
  lemma FirstRunLeading(t: seq<bool>, r: seq<IndexRange>)
    requires MaximalRuns(t, false, 0, r)
    ensures r != [] ==> 0 <= r[0].start && r[0].End() <= |t|
    ensures forall j :: 0 <= j < |t| ==> ((r != [] && r[0].start == 0 && j < r[0].End()) <==> Leading(t, j))
  {
    forall j | 0 <= j < |t| && Leading(t, j)
      ensures r != [] && r[0].start == 0 && j < r[0].End()
    {
      assert !t[j];
      var k :| 0 <= k < |r| && r[k].start <= j < r[k].End();
    }
  }

  /** Likewise the last run ends the curve exactly over its trailing unselected points. */
  lemma LastRunTrailing(t: seq<bool>, r: seq<IndexRange>)
    requires MaximalRuns(t, false, 0, r)
    ensures r != [] ==> 0 <= r[|r| - 1].start && r[|r| - 1].End() <= |t|
    ensures forall j :: 0 <= j < |t| ==>
      ((r != [] && r[|r| - 1].Last() == |t| - 1 && r[|r| - 1].start <= j) <==> Trailing(t, j))
  {
    forall j | 0 <= j < |t| && Trailing(t, j)
      ensures r != [] && r[|r| - 1].Last() == |t| - 1 && r[|r| - 1].start <= j
    {
      assert !t[j];
      var k :| 0 <= k < |r| && r[k].start <= j < r[k].End();
    }
  }

  /**
   * UNSELECT dissolves exactly the unpicked points of the curves that hold a
   * picked point: a picked point survives, and so does every point of a curve
   * with no picked point.
   */
  lemma UnselectIff(o: seq<int>, r: seq<bool>, c: nat, p: int)
    requires ValidOffsets(o) && |r| == PointsNum(o) && c < CurvesNum(o) && o[c] <= p < o[c + 1]
    ensures Dissolved(o, r, Unselect, p) <==> !r[p] && exists q :: o[c] <= q < o[c + 1] && r[q]
  {
    CurveIndexUnique(o, p, c);
    var t := r[o[c]..o[c + 1]];
    assert t[p - o[c]] == r[p];
    if q :| o[c] <= q < o[c + 1] && r[q] {
      assert t[q - o[c]];
    }
  }

  /**
   * BETWEEN dissolves exactly the unpicked points that have a picked point
   * before them and a picked point after them in their own curve.
   */
  lemma BetweenIff(o: seq<int>, r: seq<bool>, c: nat, p: int)
    requires ValidOffsets(o) && |r| == PointsNum(o) && c < CurvesNum(o) && o[c] <= p < o[c + 1]
    ensures Dissolved(o, r, Between, p) <==>
      !r[p] && (exists q :: o[c] <= q < p && r[q]) && (exists q :: p < q < o[c + 1] && r[q])
  {
    CurveIndexUnique(o, p, c);
    var t := r[o[c]..o[c + 1]];
    var j := p - o[c];
    assert t[j] == r[p];
    if q :| o[c] <= q < p && r[q] {
      assert t[q - o[c]] && q - o[c] <= j;
    }
    if q :| p < q < o[c + 1] && r[q] {
      assert t[q - o[c]] && j <= q - o[c];
    }
    if !Leading(t, j) {
      var k :| 0 <= k <= j && k < |t| && t[k];
      assert r[o[c] + k];
    }
    if !Trailing(t, j) {
      var k :| 0 <= k && j <= k < |t| && t[k];
      assert r[o[c] + k];
    }
  }

  /** `MutableSpan::fill(true)` over `lo .. hi-1`. */
  method FillTrue(a: array<bool>, lo: int, hi: int)
    requires 0 <= lo <= hi <= a.Length
    modifies a
    ensures forall p :: 0 <= p < a.Length ==> a[p] == (if lo <= p < hi then true else old(a[p]))
  {
    var i := lo;
    while i < hi
      invariant lo <= i <= hi
      invariant forall p :: 0 <= p < a.Length ==> a[p] == (if lo <= p < i then true else old(a[p]))
    {
      a[i] := true;
      i := i + 1;
    }
  }

  /** `array_utils::invert_booleans`. */
  method Invert(a: array<bool>)
    modifies a
    ensures forall p :: 0 <= p < a.Length ==> a[p] == !old(a[p])
  {
    var i := 0;
    while i < a.Length
      invariant 0 <= i <= a.Length
      invariant forall p :: 0 <= p < a.Length ==> a[p] == (if p < i then !old(a[p]) else old(a[p]))
    {
      a[i] := !a[i];
      i := i + 1;
    }
  }
}
