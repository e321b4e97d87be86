/**
 * What the extrude operator's result promises: consistent sizes, curve
 * sizes that add up to the point count, one selected point per extruded
 * point, and open two-point curves whose source point lies in the curve
 * they are made from.
 */
module ExtrudeFacts {
  import opened Layout
  import opened Extrude

  /** The number of `true` entries. */
  function Selected(s: seq<bool>): nat {
    if |s| == 0 then 0 else Selected(s[..|s| - 1]) + Bit(s[|s| - 1])
  }

  lemma {:induction false} SelectedConcat(a: seq<bool>, b: seq<bool>)
    ensures Selected(a + b) == Selected(a) + Selected(b)
    decreases |b|
  {
    if |b| == 0 {
      assert a + b == a;
    } else {
      ConcatDropLast(a, b);
      SelectedConcat(a, b[..|b| - 1]);
    }
  }

  lemma {:induction false} SelectedNone(n: nat)
    ensures Selected(Filled(n, false)) == 0
  {
    if n > 0 {
      FilledSnoc(n - 1, false);
      assert Filled(n, false)[..n - 1] == Filled(n - 1, false);
      SelectedNone(n - 1);
    }
  }

  lemma {:induction false} SelectedPairs(m: nat)
    ensures Selected(PairsSel(m)) == m && |PairsSel(m)| == 2 * m
  {
    if m > 0 {
      SelectedPairs(m - 1);
      SelectedConcat(PairsSel(m - 1), [false, true]);
      assert [false, true][..1] == [false];
    }
  }

  lemma {:induction false} DoubledLength(s: seq<int>)
    ensures |Doubled(s)| == 2 * |s|
    decreases |s|
  {
    if |s| > 0 {
      DoubledLength(s[..|s| - 1]);
    }
  }

  /** Both points of the `j`-th two-point curve come from `s[j]`. */
  lemma {:induction false} DoubledAt(s: seq<int>, j: int)
    requires 0 <= j < |s|
    ensures |Doubled(s)| == 2 * |s| && Doubled(s)[2 * j] == s[j] && Doubled(s)[2 * j + 1] == s[j]
    decreases |s|
  {
    DoubledLength(s);
    var t := s[..|s| - 1];
    DoubledLength(t);
    if j < |s| - 1 {
      DoubledAt(t, j);
    }
  }

  lemma {:induction false} PairsSelAt(m: nat, j: int)
    requires 0 <= j < m
    ensures |PairsSel(m)| == 2 * m && !PairsSel(m)[2 * j] && PairsSel(m)[2 * j + 1]
  {
    SelectedPairs(m);
    SelectedPairs(m - 1);
    if j < m - 1 {
      PairsSelAt(m - 1, j);
    }
  }

  lemma {:induction false} SumTwos(m: nat)
    ensures Sum(Filled(m, 2)) == 2 * m
  {
    if m > 0 {
      FilledSnoc(m - 1, 2);
      SumConcat(Filled(m - 1, 2), [2]);
      SumTwos(m - 1);
      assert [2][..0] == [];
    }
  }

  lemma {:induction false} SumDoneCounts(o: seq<int>, cyclic: seq<bool>, mask: seq<int>, k: int)
    requires ValidOffsets(o) && |cyclic| == CurvesNum(o) && 0 <= k <= CurvesNum(o)
    ensures Sum(DoneCounts(o, cyclic, mask, k)) == |ExpandedCurves(o, cyclic, mask, k)|
  {
    if k > 0 {
      SumDoneCounts(o, cyclic, mask, k - 1);
      var last := |CurveExpand(o, cyclic, mask, k - 1)|;
      assert DoneCounts(o, cyclic, mask, k) == DoneCounts(o, cyclic, mask, k - 1) + [last];
      SumConcat(DoneCounts(o, cyclic, mask, k - 1), [last]);
      assert [last][..0] == [];
    }
  }

  lemma {:induction false} SelLength(o: seq<int>, cyclic: seq<bool>, mask: seq<int>, k: int)
    requires ValidOffsets(o) && |cyclic| == CurvesNum(o) && 0 <= k <= CurvesNum(o)
    ensures |ExpandedSelCurves(o, cyclic, mask, k)| == |ExpandedCurves(o, cyclic, mask, k)|
  {
    if k > 0 {
      SelLength(o, cyclic, mask, k - 1);
    }
  }

  /**
   * The sizes of the result agree: one selection flag per point, one
   * curve map entry, size and cyclic flag per curve. The original curves
   * keep their index and cyclic flag; each appended curve has two points
   * and is open.
   */
  lemma ResultShape(o: seq<int>, cyclic: seq<bool>, mask: seq<int>, e: Extrusion)
    requires ValidOffsets(o) && |cyclic| == CurvesNum(o) && e == Expected(o, cyclic, mask)
    ensures |e.selected| == |e.pointMap|
    ensures |e.curveMap| == |e.counts| == |e.cyclic| == CurvesNum(o) + |AllInner(o, cyclic, mask, CurvesNum(o))|
    ensures forall c :: 0 <= c < CurvesNum(o) ==> e.curveMap[c] == c && e.cyclic[c] == cyclic[c]
    ensures forall c :: CurvesNum(o) <= c < |e.curveMap| ==> e.counts[c] == 2 && !e.cyclic[c]
  {
    var cn := CurvesNum(o);
    SelLength(o, cyclic, mask, cn);
    DoubledLength(AllInner(o, cyclic, mask, cn));
    SelectedPairs(|AllInner(o, cyclic, mask, cn)|);
    OwnersLength(o, cyclic, mask, cn);
    RangeAt(0, cn);
  }

  /** The curve sizes add up to the number of points, so the offsets built from them cover every point. */
  lemma CountsCoverPoints(o: seq<int>, cyclic: seq<bool>, mask: seq<int>, e: Extrusion)
    requires ValidOffsets(o) && |cyclic| == CurvesNum(o) && e == Expected(o, cyclic, mask)
    ensures Sum(e.counts) == |e.pointMap|
  {
    var cn := CurvesNum(o);
    var inner := AllInner(o, cyclic, mask, cn);
    SumConcat(DoneCounts(o, cyclic, mask, cn), Filled(|inner|, 2));
    SumDoneCounts(o, cyclic, mask, cn);
    SumTwos(|inner|);
    DoubledLength(inner);
  }

  /** The number of head and tail copies inserted into the first `k` curves. */
  function EndBits(o: seq<int>, cyclic: seq<bool>, mask: seq<int>, k: int): int
    requires ValidOffsets(o) && |cyclic| == CurvesNum(o) && 0 <= k <= CurvesNum(o)
  {
    if k == 0 then 0
    else EndBits(o, cyclic, mask, k - 1) + Bit(StartDup(o, cyclic, mask, k - 1)) + Bit(EndDup(o, cyclic, mask, k - 1))
  }

  /** The first `k` curves after the extrusion hold their old points plus their head and tail copies. */
  lemma {:induction false} ExpandedLength(o: seq<int>, cyclic: seq<bool>, mask: seq<int>, k: int)
    requires ValidOffsets(o) && |cyclic| == CurvesNum(o) && 0 <= k <= CurvesNum(o)
    ensures |ExpandedCurves(o, cyclic, mask, k)| == o[k] + EndBits(o, cyclic, mask, k)
  {
    if k > 0 {
      ExpandedLength(o, cyclic, mask, k - 1);
    }
  }

  /**
   * The extruded geometry has the old points, one more point per head or
   * tail copy, and two more per extruded inner point.
   */
  lemma PointCount(o: seq<int>, cyclic: seq<bool>, mask: seq<int>, e: Extrusion)
    requires ValidOffsets(o) && |cyclic| == CurvesNum(o) && e == Expected(o, cyclic, mask)
    ensures |e.pointMap| == PointsNum(o) + EndBits(o, cyclic, mask, CurvesNum(o)) + 2 * |AllInner(o, cyclic, mask, CurvesNum(o))|
  {
    ExpandedLength(o, cyclic, mask, CurvesNum(o));
    DoubledLength(AllInner(o, cyclic, mask, CurvesNum(o)));
  }

  /** Every mask entry is in the slice of the curve that contains it, and the slices follow each other. */
  lemma SliceChain(o: seq<int>, cyclic: seq<bool>, mask: seq<int>, c: int)
    requires Input(o, cyclic, mask) && 0 <= c < CurvesNum(o)
    ensures c == 0 ==> CurveSlice(o, mask, c).0 == 0
    ensures c + 1 < CurvesNum(o) ==> CurveSlice(o, mask, c).1 == CurveSlice(o, mask, c + 1).0
    ensures c + 1 == CurvesNum(o) ==> CurveSlice(o, mask, c).1 == |mask|
  {
    var sl := CurveSlice(o, mask, c);
    if c + 1 < CurvesNum(o) {
      var nx := CurveSlice(o, mask, c + 1);
    }
  }

  /**
   * Visiting the mask entries of curve `ci` up to `k`: each one gives
   * either the head copy, the tail copy or an inner point.
   */
  lemma {:induction false} SliceCount(o: seq<int>, cyclic: seq<bool>, mask: seq<int>, ci: int, k: int)
    requires Input(o, cyclic, mask) && 0 <= ci < CurvesNum(o)
    requires CurveSlice(o, mask, ci).0 <= k <= CurveSlice(o, mask, ci).1
    ensures var sl := CurveSlice(o, mask, ci);
            |InnerIn(o, cyclic, mask, ci, sl.0, k)| + Bit(StartDup(o, cyclic, mask, ci) && sl.0 < k)
            + Bit(EndDup(o, cyclic, mask, ci) && k == sl.1) == k - sl.0
    decreases k - CurveSlice(o, mask, ci).0
  {
    var sl := CurveSlice(o, mask, ci);
    if k > sl.0 {
      SliceCount(o, cyclic, mask, ci, k - 1);
      var head := StartDup(o, cyclic, mask, ci) && sl.0 < k - 1;
      var tail := EndDup(o, cyclic, mask, ci) && k - 1 == sl.1;
      LinkStep(o, cyclic, mask, ci, k - 1, head, tail, InnerIn(o, cyclic, mask, ci, sl.0, k - 1));
    }
  }

  /** Each extruded point of a curve gives exactly one of its head copy, its tail copy and its inner points. */
  lemma CurveCount(o: seq<int>, cyclic: seq<bool>, mask: seq<int>, c: int)
    requires Input(o, cyclic, mask) && 0 <= c < CurvesNum(o)
    ensures Bit(StartDup(o, cyclic, mask, c)) + Bit(EndDup(o, cyclic, mask, c)) + |CurveInner(o, cyclic, mask, c)|
            == CurveSlice(o, mask, c).1 - CurveSlice(o, mask, c).0
  {
    SliceCount(o, cyclic, mask, c, CurveSlice(o, mask, c).1);
    if StartDup(o, cyclic, mask, c) {
      StartAt(o, cyclic, mask, c);
    }
  }

  /** The mask entries before curve `k`. */
  function SliceEnd(o: seq<int>, mask: seq<int>, k: int): int
    requires ValidOffsets(o) && 0 <= k <= CurvesNum(o)
  {
    if k == 0 then 0 else CurveSlice(o, mask, k - 1).1
  }

  /** Only the head and tail copies of an original curve are selected. */
  lemma SelectedCurve(o: seq<int>, cyclic: seq<bool>, mask: seq<int>, c: int)
    requires ValidOffsets(o) && |cyclic| == CurvesNum(o) && 0 <= c < CurvesNum(o)
    ensures Selected(CurveExpandSel(o, cyclic, mask, c)) == Bit(StartDup(o, cyclic, mask, c)) + Bit(EndDup(o, cyclic, mask, c))
  {
    var sd, ed := StartDup(o, cyclic, mask, c), EndDup(o, cyclic, mask, c);
    assert o[c] <= o[c + 1];
    SelectedConcat(OptTrue(sd) + Filled(CurveSize(o, c), false), OptTrue(ed));
    SelectedConcat(OptTrue(sd), Filled(CurveSize(o, c), false));
    SelectedNone(CurveSize(o, c));
    assert Selected(OptTrue(sd)) == Bit(sd) && Selected(OptTrue(ed)) == Bit(ed);
  }

  lemma {:induction false} SelectedCurves(o: seq<int>, cyclic: seq<bool>, mask: seq<int>, k: int)
    requires Input(o, cyclic, mask) && 0 <= k <= CurvesNum(o)
    ensures Selected(ExpandedSelCurves(o, cyclic, mask, k)) + |AllInner(o, cyclic, mask, k)| == SliceEnd(o, mask, k)
  {
    if k > 0 {
      var c := k - 1;
      SelectedCurves(o, cyclic, mask, c);
      SliceChain(o, cyclic, mask, c);
      if c > 0 {
        SliceChain(o, cyclic, mask, c - 1);
      }
      CurveCount(o, cyclic, mask, c);
      SelectedConcat(ExpandedSelCurves(o, cyclic, mask, c), CurveExpandSel(o, cyclic, mask, c));
      SelectedCurve(o, cyclic, mask, c);
    }
  }

  /** Exactly as many points are selected after the extrusion as were extruded. */
  lemma SelectionCount(o: seq<int>, cyclic: seq<bool>, mask: seq<int>, e: Extrusion)
    requires Input(o, cyclic, mask) && e == Expected(o, cyclic, mask)
    ensures Selected(e.selected) == |mask|
  {
    var cn := CurvesNum(o);
    var inner := AllInner(o, cyclic, mask, cn);
    SelectedConcat(ExpandedSelCurves(o, cyclic, mask, cn), PairsSel(|inner|));
    SelectedPairs(|inner|);
    SelectedCurves(o, cyclic, mask, cn);
    if cn > 0 {
      SliceChain(o, cyclic, mask, cn - 1);
    }
    MaskSize(mask, PointsNum(o));
  }

  /** The inner points of curve `c` among its mask entries before `j` lie in curve `c`. */
  lemma {:induction false} InnerInAt(o: seq<int>, cyclic: seq<bool>, mask: seq<int>, c: int, j: int, i: int)
    requires Input(o, cyclic, mask) && 0 <= c < CurvesNum(o)
    requires CurveSlice(o, mask, c).0 <= j <= CurveSlice(o, mask, c).1
    requires 0 <= i < |InnerIn(o, cyclic, mask, c, CurveSlice(o, mask, c).0, j)|
    ensures o[c] <= InnerIn(o, cyclic, mask, c, CurveSlice(o, mask, c).0, j)[i] < o[c + 1]
    decreases j
  {
    var a := CurveSlice(o, mask, c).0;
    var prev := InnerIn(o, cyclic, mask, c, a, j - 1);
    if i < |prev| {
      InnerInAt(o, cyclic, mask, c, j - 1, i);
    } else {
      InSlice(o, cyclic, mask, c, j - 1);
    }
  }

  /** The `j`-th appended curve comes from curve `AllOwners[j]`, and its source point lies in that curve. */
  lemma {:induction false} OwnerAt(o: seq<int>, cyclic: seq<bool>, mask: seq<int>, k: int, j: int)
    requires Input(o, cyclic, mask) && 0 <= k <= CurvesNum(o) && 0 <= j < |AllInner(o, cyclic, mask, k)|
    ensures |AllOwners(o, cyclic, mask, k)| == |AllInner(o, cyclic, mask, k)|
    ensures var c := AllOwners(o, cyclic, mask, k)[j];
            0 <= c < k && o[c] <= AllInner(o, cyclic, mask, k)[j] < o[c + 1]
  {
    OwnersLength(o, cyclic, mask, k);
    var c := k - 1;
    OwnersLength(o, cyclic, mask, c);
    var inner, owners, cur := AllInner(o, cyclic, mask, c), AllOwners(o, cyclic, mask, c), CurveInner(o, cyclic, mask, c);
    if j < |inner| {
      OwnerAt(o, cyclic, mask, c, j);
      assert AllOwners(o, cyclic, mask, k)[j] == owners[j];
      assert AllInner(o, cyclic, mask, k)[j] == inner[j];
    } else {
      InnerInAt(o, cyclic, mask, c, CurveSlice(o, mask, c).1, j - |inner|);
      assert AllOwners(o, cyclic, mask, k)[j] == Filled(|cur|, c)[j - |owners|];
      assert AllInner(o, cyclic, mask, k)[j] == cur[j - |inner|];
    }
  }

  /**
   * The `j`-th appended curve: two points, both copies of the inner point
   * `AllInner[j]`, of which only the second is selected.
   */
  lemma AppendedPoints(o: seq<int>, cyclic: seq<bool>, mask: seq<int>, e: Extrusion, j: int)
    requires ValidOffsets(o) && |cyclic| == CurvesNum(o) && e == Expected(o, cyclic, mask)
    requires 0 <= j < |AllInner(o, cyclic, mask, CurvesNum(o))|
    ensures var base, src := |ExpandedCurves(o, cyclic, mask, CurvesNum(o))| + 2 * j, AllInner(o, cyclic, mask, CurvesNum(o))[j];
            0 <= base && base + 1 < |e.pointMap| == |e.selected| &&
            e.pointMap[base] == src && e.pointMap[base + 1] == src && !e.selected[base] && e.selected[base + 1]
  {
    var cn := CurvesNum(o);
    SelLength(o, cyclic, mask, cn);
    PairAt(ExpandedCurves(o, cyclic, mask, cn), ExpandedSelCurves(o, cyclic, mask, cn), AllInner(o, cyclic, mask, cn), j);
  }

  lemma PairAt(points: seq<int>, sel: seq<bool>, inner: seq<int>, j: int)
    requires |sel| == |points| && 0 <= j < |inner|
    ensures var base := |points| + 2 * j;
            base + 1 < |points + Doubled(inner)| == |sel + PairsSel(|inner|)| &&
            (points + Doubled(inner))[base] == inner[j] && (points + Doubled(inner))[base + 1] == inner[j] &&
            !(sel + PairsSel(|inner|))[base] && (sel + PairsSel(|inner|))[base + 1]
  {
    DoubledAt(inner, j);
    PairsSelAt(|inner|, j);
  }

  /** The source curve of the `j`-th appended curve contains its source point. */
  lemma AppendedOwner(o: seq<int>, cyclic: seq<bool>, mask: seq<int>, e: Extrusion, j: int)
    requires Input(o, cyclic, mask) && e == Expected(o, cyclic, mask)
    requires 0 <= j < |AllInner(o, cyclic, mask, CurvesNum(o))|
    ensures CurvesNum(o) + j < |e.curveMap| &&
            var owner := e.curveMap[CurvesNum(o) + j];
            0 <= owner < CurvesNum(o) && o[owner] <= AllInner(o, cyclic, mask, CurvesNum(o))[j] < o[owner + 1]
  {
    OwnerAt(o, cyclic, mask, CurvesNum(o), j);
  }
}
