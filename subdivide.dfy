/**
 * The number of cuts the subdivide operator asks for on each segment.
 *
 * Entry `p` of the cut array is the number of new points to insert on the
 * segment that leaves point `p`: towards `p+1` inside a curve, or back to the
 * first point from the last point of a cyclic curve.
 */
module Subdivide {
  import opened Layout

  /** The attribute domain the editor selects on. */
  datatype SelectionDomain = PointDomain | CurveDomain

  /**
   * The point that follows `p` along its curve: the next point, the first
   * point again after the last point of a cyclic curve, and none after the
   * last point of an open curve.
   */
  function Successor(o: seq<int>, cyclic: seq<bool>, p: int): (q: Option<int>)
    requires ValidOffsets(o) && |cyclic| == CurvesNum(o) && 0 <= p < PointsNum(o)
    ensures q.Some? ==> o[CurveIndex(o, p)] <= q.value < o[CurveIndex(o, p) + 1]
  {
    var c := CurveIndex(o, p);
    if p + 1 < o[c + 1] then Some(p + 1)
    else if cyclic[c] then Some(o[c])
    else None
  }

  /** The cuts of the segment leaving `p` when only segments between selected points are cut. */
  function SegmentCuts(o: seq<int>, cyclic: seq<bool>, sel: seq<bool>, cuts: int, p: int): int
    requires ValidOffsets(o) && |cyclic| == CurvesNum(o) && |sel| == PointsNum(o) && 0 <= p < |sel|
  {
    var q := Successor(o, cyclic, p);
    if q.Some? && sel[p] && sel[q.value] then cuts else 0
  }

  /**
   * The cut array handed to `subdivide_curves`: `cuts` everywhere when the
   * selection is per curve or the operator subdivides whole curves, and
   * otherwise `cuts` exactly on the segments whose two ends are selected.
   */
  method CutsPerPoint(o: seq<int>, cyclic: seq<bool>, selection: Option<seq<bool>>,
                      domain: SelectionDomain, onlySelected: bool, cuts: int)
    returns (vcuts: seq<int>)
    requires ValidOffsets(o) && |cyclic| == CurvesNum(o)
    requires selection.Some? ==> |selection.value| == PointsNum(o)
    ensures |vcuts| == PointsNum(o)
    ensures domain == CurveDomain || !onlySelected ==> vcuts == Filled(PointsNum(o), cuts)
    ensures domain == PointDomain && onlySelected ==> forall p :: 0 <= p < |vcuts| ==>
      vcuts[p] == SegmentCuts(o, cyclic, OrDefault(selection, PointsNum(o), true), cuts, p)
  {
    var n := PointsNum(o);
    if domain == CurveDomain || !onlySelected {
      return Filled(n, cuts);
    }
    var sel := OrDefault(selection, n, true);
    var useCuts := new int[n](_ => 0);
    var c := 0;
    while c < CurvesNum(o)
      invariant 0 <= c <= CurvesNum(o)
      invariant forall p :: 0 <= p < o[c] ==> useCuts[p] == SegmentCuts(o, cyclic, sel, cuts, p)
      invariant forall p :: o[c] <= p < n ==> useCuts[p] == 0
    {
      assert o[c] <= o[c + 1] <= n;
      CutCurve(useCuts, o, cyclic, sel, cuts, c);
      c := c + 1;
    }
    return useCuts[..];
  }

  /** The body of the loop over curves: the cuts of the segments leaving the points of curve `c`. */
  method CutCurve(a: array<int>, o: seq<int>, cyclic: seq<bool>, sel: seq<bool>, cuts: int, c: nat)
    requires ValidOffsets(o) && |cyclic| == CurvesNum(o) && a.Length == |sel| == PointsNum(o)
    requires c < CurvesNum(o)
    requires forall p :: o[c] <= p < o[c + 1] ==> a[p] == 0
    modifies a
    ensures forall p :: 0 <= p < a.Length && !(o[c] <= p < o[c + 1]) ==> a[p] == old(a[p])
    ensures forall p :: o[c] <= p < o[c + 1] ==> a[p] == SegmentCuts(o, cyclic, sel, cuts, p)
  {
    var lo, hi := o[c], o[c + 1];
    assert hi <= a.Length;
    var point := lo;
    while point < hi - 1
      invariant lo <= point <= (if lo < hi then hi - 1 else lo)
      invariant forall p :: 0 <= p < a.Length && !(lo <= p < hi) ==> a[p] == old(a[p])
      invariant forall p :: lo <= p < point ==> a[p] == CurveCuts(sel, lo, hi, cyclic[c], cuts, p)
      invariant forall p :: point <= p < hi ==> a[p] == 0
    {
      if sel[point] && sel[point + 1] {
        a[point] := cuts;
      }
      point := point + 1;
    }
    if cyclic[c] && lo < hi {
      if sel[lo] && sel[hi - 1] {
        a[hi - 1] := cuts;
      }
    }
    assert forall p :: lo <= p < hi ==> a[p] == CurveCuts(sel, lo, hi, cyclic[c], cuts, p);
    forall p | lo <= p < hi
      ensures a[p] == SegmentCuts(o, cyclic, sel, cuts, p)
    {
      SegmentCutsInCurve(o, cyclic, sel, cuts, c, p);
    }
  }

  /** `SegmentCuts` for a point `p` of the curve `lo .. hi-1`. */
  function CurveCuts(sel: seq<bool>, lo: int, hi: int, cyclic: bool, cuts: int, p: int): int
    requires 0 <= lo <= p < hi <= |sel|
  {
    if p + 1 < hi then (if sel[p] && sel[p + 1] then cuts else 0)
    else if cyclic && sel[lo] && sel[p] then cuts else 0
  }

  lemma SegmentCutsInCurve(o: seq<int>, cyclic: seq<bool>, sel: seq<bool>, cuts: int, c: nat, p: int)
    requires ValidOffsets(o) && |cyclic| == CurvesNum(o) && |sel| == PointsNum(o)
    requires c < CurvesNum(o) && o[c] <= p < o[c + 1]
    ensures SegmentCuts(o, cyclic, sel, cuts, p) == CurveCuts(sel, o[c], o[c + 1], cyclic[c], cuts, p)
  {
    CurveIndexUnique(o, p, c);
  }
}
