/**
 * `extrude_grease_pencil_curves`: the index maps of the extrude operator.
 *
 * Extruding the first or last point of an open curve inserts a selected
 * copy of it next to it, in the same curve. Extruding any other point, or
 * any point of a cyclic curve, appends a new curve of two copies of it, of
 * which only the second is selected. Original points end up unselected and
 * the new curves are open.
 */
module Extrude {
  import opened Layout

  /** A layout, its cyclic flags and the index mask of the points to extrude. */
  predicate Input(o: seq<int>, cyclic: seq<bool>, mask: seq<int>) {
    Shape(o, cyclic, mask) && IsMask(mask, PointsNum(o))
  }

  /** `Input` without the ordering of the mask. */
  predicate Shape(o: seq<int>, cyclic: seq<bool>, mask: seq<int>) {
    ValidOffsets(o) && |cyclic| == CurvesNum(o) && forall i :: 0 <= i < |mask| ==> 0 <= mask[i] < PointsNum(o)
  }

  /** The first index from `i` on whose entry is at least `x`. */
  function FirstAtLeast(mask: seq<int>, x: int, i: int): (r: int)
    requires 0 <= i <= |mask|
    requires forall k :: 0 <= k < i ==> mask[k] < x
    ensures i <= r <= |mask|
    ensures forall k :: 0 <= k < r ==> mask[k] < x
    ensures r < |mask| ==> x <= mask[r]
    decreases |mask| - i
  {
    if i == |mask| || x <= mask[i] then i else FirstAtLeast(mask, x, i + 1)
  }

  /**
   * `IndexMask::slice_content` of curve `c`: the extruded points of the curve
   * are the mask entries from index `first` up to (not including) `last`.
   */
  function CurveSlice(o: seq<int>, mask: seq<int>, c: int): (r: (int, int))
    requires ValidOffsets(o) && 0 <= c < CurvesNum(o)
    ensures 0 <= r.0 <= r.1 <= |mask|
    ensures forall i :: 0 <= i < r.0 ==> mask[i] < o[c]
    ensures forall i :: 0 <= i < r.1 ==> mask[i] < o[c + 1]
    ensures r.0 < |mask| ==> o[c] <= mask[r.0]
    ensures r.1 < |mask| ==> o[c + 1] <= mask[r.1]
  {
    assert o[c] <= o[c + 1];
    var first := FirstAtLeast(mask, o[c], 0);
    (first, FirstAtLeast(mask, o[c + 1], first))
  }

  /** Curve `c` is open and its first point is extruded: a copy goes before it. */
  predicate StartDup(o: seq<int>, cyclic: seq<bool>, mask: seq<int>, c: int)
    requires ValidOffsets(o) && |cyclic| == CurvesNum(o) && 0 <= c < CurvesNum(o)
  {
    !cyclic[c] && o[c] < o[c + 1] && o[c] in mask
  }

  /** Curve `c` is open, has two points or more, and its last point is extruded: a copy goes after it. */
  predicate EndDup(o: seq<int>, cyclic: seq<bool>, mask: seq<int>, c: int)
    requires ValidOffsets(o) && |cyclic| == CurvesNum(o) && 0 <= c < CurvesNum(o)
  {
    !cyclic[c] && o[c] < o[c + 1] - 1 && o[c + 1] - 1 in mask
  }

  /** An extruded point `p` of curve `c` that gets a two-point curve of its own. */
  predicate InnerPoint(o: seq<int>, cyclic: seq<bool>, c: int, p: int)
    requires ValidOffsets(o) && |cyclic| == CurvesNum(o) && 0 <= c < CurvesNum(o)
  {
    cyclic[c] || (p != o[c] && p != o[c + 1] - 1)
  }

  function Opt(b: bool, x: int): seq<int> {
    if b then [x] else []
  }

  function OptTrue(b: bool): seq<bool> {
    if b then [true] else []
  }

  function Bit(b: bool): int {
    if b then 1 else 0
  }

  /** The source points of curve `c` after the extrusion. */
  function CurveExpand(o: seq<int>, cyclic: seq<bool>, mask: seq<int>, c: int): seq<int>
    requires ValidOffsets(o) && |cyclic| == CurvesNum(o) && 0 <= c < CurvesNum(o)
  {
    assert o[c] <= o[c + 1];
    Opt(StartDup(o, cyclic, mask, c), o[c]) + Range(o[c], o[c + 1]) + Opt(EndDup(o, cyclic, mask, c), o[c + 1] - 1)
  }

  /** Their selection: only the inserted copies are selected. */
  function CurveExpandSel(o: seq<int>, cyclic: seq<bool>, mask: seq<int>, c: int): seq<bool>
    requires ValidOffsets(o) && |cyclic| == CurvesNum(o) && 0 <= c < CurvesNum(o)
  {
    assert o[c] <= o[c + 1];
    OptTrue(StartDup(o, cyclic, mask, c)) + Filled(CurveSize(o, c), false) + OptTrue(EndDup(o, cyclic, mask, c))
  }

  /** The points of the first `k` curves after the extrusion. */
  function ExpandedCurves(o: seq<int>, cyclic: seq<bool>, mask: seq<int>, k: int): seq<int>
    requires ValidOffsets(o) && |cyclic| == CurvesNum(o) && 0 <= k <= CurvesNum(o)
  {
    if k == 0 then [] else ExpandedCurves(o, cyclic, mask, k - 1) + CurveExpand(o, cyclic, mask, k - 1)
  }

  function ExpandedSelCurves(o: seq<int>, cyclic: seq<bool>, mask: seq<int>, k: int): seq<bool>
    requires ValidOffsets(o) && |cyclic| == CurvesNum(o) && 0 <= k <= CurvesNum(o)
  {
    if k == 0 then [] else ExpandedSelCurves(o, cyclic, mask, k - 1) + CurveExpandSel(o, cyclic, mask, k - 1)
  }

  /** The inner points of curve `c` among the mask entries `a .. j-1`, in mask order. */
  function InnerIn(o: seq<int>, cyclic: seq<bool>, mask: seq<int>, c: int, a: int, j: int): seq<int>
    requires ValidOffsets(o) && |cyclic| == CurvesNum(o) && 0 <= c < CurvesNum(o) && 0 <= a <= j <= |mask|
    decreases j - a
  {
    if j == a then []
    else InnerIn(o, cyclic, mask, c, a, j - 1) + Opt(InnerPoint(o, cyclic, c, mask[j - 1]), mask[j - 1])
  }

  function CurveInner(o: seq<int>, cyclic: seq<bool>, mask: seq<int>, c: int): seq<int>
    requires ValidOffsets(o) && |cyclic| == CurvesNum(o) && 0 <= c < CurvesNum(o)
  {
    var r := CurveSlice(o, mask, c);
    InnerIn(o, cyclic, mask, c, r.0, r.1)
  }

  /** The inner points of the first `k` curves: the sources of the appended curves. */
  function AllInner(o: seq<int>, cyclic: seq<bool>, mask: seq<int>, k: int): seq<int>
    requires ValidOffsets(o) && |cyclic| == CurvesNum(o) && 0 <= k <= CurvesNum(o)
  {
    if k == 0 then [] else AllInner(o, cyclic, mask, k - 1) + CurveInner(o, cyclic, mask, k - 1)
  }

  /** The source curve of each appended curve. */
  function AllOwners(o: seq<int>, cyclic: seq<bool>, mask: seq<int>, k: int): seq<int>
    requires ValidOffsets(o) && |cyclic| == CurvesNum(o) && 0 <= k <= CurvesNum(o)
  {
    if k == 0 then [] else AllOwners(o, cyclic, mask, k - 1) + Filled(|CurveInner(o, cyclic, mask, k - 1)|, k - 1)
  }

  /** The source points of the appended two-point curves. */
  function Doubled(s: seq<int>): seq<int> {
    if |s| == 0 then [] else Doubled(s[..|s| - 1]) + [s[|s| - 1], s[|s| - 1]]
  }

  /** The selection of `k` appended two-point curves. */
  function PairsSel(k: nat): seq<bool> {
    if k == 0 then [] else PairsSel(k - 1) + [false, true]
  }

  /** The index maps, curve sizes, selection and cyclic flags of the extruded geometry. */
  datatype Extrusion = Extrusion(pointMap: seq<int>, curveMap: seq<int>, counts: seq<int>,
                                 selected: seq<bool>, cyclic: seq<bool>)

  function Expected(o: seq<int>, cyclic: seq<bool>, mask: seq<int>): Extrusion
    requires ValidOffsets(o) && |cyclic| == CurvesNum(o)
  {
    var cn := CurvesNum(o);
    var inner := AllInner(o, cyclic, mask, cn);
    Extrusion(ExpandedCurves(o, cyclic, mask, cn) + Doubled(inner),
              Range(0, cn) + AllOwners(o, cyclic, mask, cn),
              DoneCounts(o, cyclic, mask, cn) + Filled(|inner|, 2),
              ExpandedSelCurves(o, cyclic, mask, cn) + PairsSel(|inner|),
              cyclic + Filled(|inner|, false))
  }

  /** `Vector::insert`: `x` goes in at index `i`. */
  function Insert<T>(s: seq<T>, i: int, x: T): (r: seq<T>)
    requires 0 <= i <= |s|
    ensures |r| == |s| + 1
  {
    s[..i] + [x] + s[i..]
  }

  /** The growing arrays of the operator: `dst_to_src_points`, `dst_selected`, `dst_to_src_curves`, `dst_curve_counts`. */
  datatype Buffers = Buffers(points: seq<int>, selected: seq<bool>, curves: seq<int>, counts: seq<int>)

  /**
   * The parts of the buffers that stay fixed while one curve is visited:
   * the points and selection of the curves already done, the inner points
   * seen so far, the curve map, the sizes of the curves done and the
   * original sizes of the curves after the current one.
   */
  datatype Frame = Frame(done: seq<int>, doneSel: seq<bool>, pairs: seq<int>, curves: seq<int>,
                         counts: seq<int>, later: seq<int>)

  /** The sizes of the first `ci` curves after the extrusion. */
  function DoneCounts(o: seq<int>, cyclic: seq<bool>, mask: seq<int>, ci: int): seq<int>
    requires ValidOffsets(o) && |cyclic| == CurvesNum(o) && 0 <= ci <= CurvesNum(o)
  {
    seq(ci, c requires 0 <= c < ci => |CurveExpand(o, cyclic, mask, c)|)
  }

  /** The original sizes of the curves `lo .. hi-1`. */
  function Sizes(o: seq<int>, lo: int, hi: int): seq<int>
    requires ValidOffsets(o) && 0 <= lo <= hi <= CurvesNum(o)
  {
    seq(hi - lo, j requires 0 <= j < hi - lo => CurveSize(o, lo + j))
  }

  /** `g` is the frame when the loop reaches curve `ci`; `later` still holds the size of curve `ci` itself. */
  predicate Matches(g: Frame, o: seq<int>, cyclic: seq<bool>, mask: seq<int>, ci: int)
    requires ValidOffsets(o) && |cyclic| == CurvesNum(o) && 0 <= ci <= CurvesNum(o)
  {
    g.done == ExpandedCurves(o, cyclic, mask, ci) &&
    g.doneSel == ExpandedSelCurves(o, cyclic, mask, ci) &&
    g.pairs == AllInner(o, cyclic, mask, ci) &&
    g.curves == Range(0, CurvesNum(o)) + AllOwners(o, cyclic, mask, ci) &&
    g.counts == DoneCounts(o, cyclic, mask, ci) &&
    g.later == Sizes(o, ci, CurvesNum(o))
  }

  /**
   * The buffers between two curves: the curves before curve `ci` (whose
   * points start at `lo`) are done as `g` says, the points from `lo` on are
   * still the original ones, and the appended two-point curves follow.
   */
  predicate Outer(b: Buffers, offset: int, g: Frame, ci: int, lo: int, n: int) {
    lo <= n && |g.doneSel| == |g.done| && |g.counts| == ci &&
    b.points == g.done + Range(lo, n) + Doubled(g.pairs) &&
    b.selected == g.doneSel + Filled(n - lo, false) + PairsSel(|g.pairs|) &&
    b.curves == g.curves &&
    b.counts == g.counts + g.later + Filled(|g.pairs|, 2) &&
    offset == |g.done| - lo
  }

  /** The points inside a curve: done curves, head copy, the curve, tail copy, the rest, the pairs. */
  predicate PointsShape(points: seq<int>, done: seq<int>, lo: int, hi: int, n: int, head: bool, tail: bool, pairs: seq<int>)
    requires lo <= hi <= n
  {
    points == done + Opt(head, lo) + Range(lo, hi) + Opt(tail, hi - 1) + Range(hi, n) + Doubled(pairs)
  }

  predicate SelShape(sel: seq<bool>, done: seq<bool>, size: nat, rest: nat, head: bool, tail: bool, m: nat) {
    sel == done + OptTrue(head) + Filled(size, false) + OptTrue(tail) + Filled(rest, false) + PairsSel(m)
  }

  predicate CountsShape(counts: seq<int>, done: seq<int>, size: int, head: bool, tail: bool, later: seq<int>, m: nat) {
    counts == done + [size + Bit(head) + Bit(tail)] + later + Filled(m, 2)
  }

  /**
   * The buffers inside the curve `lo .. hi-1` (index `ci`): `head` and `tail`
   * say whether its head and tail copies are in place, `inner` lists the
   * inner points visited so far.
   */
  predicate Shaped(b: Buffers, offset: int, f: Frame, ci: int, lo: int, hi: int, n: int,
                   head: bool, tail: bool, inner: seq<int>)
  {
    lo <= hi <= n && |f.doneSel| == |f.done| && |f.counts| == ci &&
    PointsShape(b.points, f.done, lo, hi, n, head, tail, f.pairs + inner) &&
    SelShape(b.selected, f.doneSel, hi - lo, n - hi, head, tail, |f.pairs| + |inner|) &&
    b.curves == f.curves + Filled(|inner|, ci) &&
    CountsShape(b.counts, f.counts, hi - lo, head, tail, f.later, |f.pairs| + |inner|) &&
    offset == |f.done| - lo + Bit(head) + Bit(tail)
  }

  /** `head`, `tail` and `inner` are those of curve `ci` once its mask entries before `k` are done. */
  predicate Link(o: seq<int>, cyclic: seq<bool>, mask: seq<int>, ci: int, k: int, head: bool, tail: bool, inner: seq<int>)
    requires ValidOffsets(o) && |cyclic| == CurvesNum(o) && 0 <= ci < CurvesNum(o)
  {
    var sl := CurveSlice(o, mask, ci);
    sl.0 <= k <= sl.1 &&
    head == (StartDup(o, cyclic, mask, ci) && sl.0 < k) &&
    tail == (EndDup(o, cyclic, mask, ci) && k == sl.1) &&
    inner == InnerIn(o, cyclic, mask, ci, sl.0, k)
  }

  /** The state inside curve `ci` once its mask entries before `k` are done. */
  predicate Inside(o: seq<int>, cyclic: seq<bool>, mask: seq<int>, ci: int, k: int, offset: int, b: Buffers,
                   f: Frame, head: bool, tail: bool, inner: seq<int>)
    requires ValidOffsets(o) && |cyclic| == CurvesNum(o) && 0 <= ci < CurvesNum(o)
  {
    Link(o, cyclic, mask, ci, k, head, tail, inner) &&
    Shaped(b, offset, f, ci, o[ci], o[ci + 1], PointsNum(o), head, tail, inner)
  }

  /** The extruded point `p` is the first point of its open curve `lo .. hi-1`. */
  predicate IsFirst(curveCyclic: bool, lo: int, hi: int, p: int) {
    !curveCyclic && p == lo
  }

  /** The extruded point `p` is the last point, and not also the first, of its open curve `lo .. hi-1`. */
  predicate IsLast(curveCyclic: bool, lo: int, hi: int, p: int) {
    !curveCyclic && p != lo && p == hi - 1
  }

  /** The inner points seen so far, once `p` is visited. */
  function InnerAfter(inner: seq<int>, curveCyclic: bool, lo: int, hi: int, p: int): seq<int> {
    if IsFirst(curveCyclic, lo, hi, p) || IsLast(curveCyclic, lo, hi, p) then inner else inner + [p]
  }

  /** `extrude_grease_pencil_curves`: the index maps, sizes, selection and cyclic flags of the result. */
  method ExtrudeCurves(o: seq<int>, cyclic: seq<bool>, mask: seq<int>) returns (e: Extrusion)
    requires Input(o, cyclic, mask)
    ensures e == Expected(o, cyclic, mask)
  {
    var n, cn := PointsNum(o), CurvesNum(o);
    var b := Buffers(Range(0, n), Filled(n, false), Range(0, cn), seq(cn, c requires 0 <= c < cn => CurveSize(o, c)));
    var pointOffset := 0;
    ghost var g := Frame([], [], [], Range(0, cn), [], Sizes(o, 0, cn));
    Start(o, cyclic, mask, b, g);
    var ci := 0;
    while ci < cn
      invariant 0 <= ci <= cn && Matches(g, o, cyclic, mask, ci)
      invariant Outer(b, pointOffset, g, ci, o[ci], n)
    {
      ghost var f := Enter(o, cyclic, mask, ci, pointOffset, b, g);
      b, pointOffset := ExtrudeCurve(o, cyclic, mask, ci, pointOffset, b, f);
      Leave(b, pointOffset, f, ci, o[ci], o[ci + 1], n, StartDup(o, cyclic, mask, ci), EndDup(o, cyclic, mask, ci),
            CurveInner(o, cyclic, mask, ci));
      Advance(o, cyclic, mask, ci, g, f);
      g := Closed(f, ci, o[ci], o[ci + 1], StartDup(o, cyclic, mask, ci), EndDup(o, cyclic, mask, ci),
                  CurveInner(o, cyclic, mask, ci));
      ci := ci + 1;
    }
    Finish(o, cyclic, mask, b, pointOffset, g);
    e := Extrusion(b.points, b.curves, b.counts, b.selected, cyclic + Filled(|b.curves| - cn, false));
  }

  /**
   * The `foreach_index` loop over the extruded points of curve `ci`: it
   * adds the curve's head and tail copies and its inner points' curves.
   */
  method ExtrudeCurve(o: seq<int>, cyclic: seq<bool>, mask: seq<int>, ci: int, offset: int, b: Buffers, ghost f: Frame)
    returns (b': Buffers, offset': int)
    requires Input(o, cyclic, mask) && 0 <= ci < CurvesNum(o)
    requires Shaped(b, offset, f, ci, o[ci], o[ci + 1], PointsNum(o), false, false, [])
    ensures Shaped(b', offset', f, ci, o[ci], o[ci + 1], PointsNum(o), StartDup(o, cyclic, mask, ci),
                   EndDup(o, cyclic, mask, ci), CurveInner(o, cyclic, mask, ci))
  {
    var curvePoints := CurveSlice(o, mask, ci);
    var curveCyclic := cyclic[ci];
    b', offset' := b, offset;
    ghost var head, tail, inner := false, false, [];
    EnterLink(o, cyclic, mask, ci);
    var k := curvePoints.0;
    while k < curvePoints.1
      invariant Inside(o, cyclic, mask, ci, k, offset', b', f, head, tail, inner)
    {
      LinkStep(o, cyclic, mask, ci, k, head, tail, inner);
      var p := mask[k];
      b', offset' := ExtrudePoint(p, curveCyclic, o[ci], o[ci + 1], ci, offset', b', PointsNum(o), f, head, inner);
      head, tail, inner := head || IsFirst(curveCyclic, o[ci], o[ci + 1], p), IsLast(curveCyclic, o[ci], o[ci + 1], p),
                           InnerAfter(inner, curveCyclic, o[ci], o[ci + 1], p);
      k := k + 1;
    }
    LeaveLink(o, cyclic, mask, ci, head, tail, inner);
  }

  /**
   * The loop body for the extruded point `p` of curve `ci` (points `lo .. hi-1`):
   * a head copy for the first point, a tail copy for the last point of an
   * open curve, a new two-point curve for any other point.
   */
  method ExtrudePoint(p: int, curveCyclic: bool, lo: int, hi: int, ci: int, offset: int, b: Buffers,
                      ghost n: int, ghost f: Frame, ghost head: bool, ghost inner: seq<int>)
    returns (b': Buffers, offset': int)
    requires lo <= p < hi && Shaped(b, offset, f, ci, lo, hi, n, head, false, inner)
    requires IsFirst(curveCyclic, lo, hi, p) ==> !head
    ensures Shaped(b', offset', f, ci, lo, hi, n, head || IsFirst(curveCyclic, lo, hi, p), IsLast(curveCyclic, lo, hi, p),
                   InnerAfter(inner, curveCyclic, lo, hi, p))
  {
    ghost var m := |f.pairs| + |inner|;
    if !curveCyclic && p == lo {
      var points := InsertHeadPoint(b.points, p + offset, p, f.done, hi, n, f.pairs + inner);
      var selected := InsertHeadSelected(b.selected, p + offset, f.doneSel, hi - lo, n - hi, m);
      var counts := IncrementCount(b.counts, ci, f.counts, hi - lo, false, false, true, false, f.later, m);
      b', offset' := Buffers(points, selected, b.curves, counts), offset + 1;
      return;
    }
    if !curveCyclic && p == hi - 1 {
      var points := InsertTailPoint(b.points, p + offset + 1, p, f.done, lo, n, head, f.pairs + inner);
      var selected := InsertTailSelected(b.selected, p + offset + 1, f.doneSel, hi - lo, n - hi, head, m);
      var counts := IncrementCount(b.counts, ci, f.counts, hi - lo, head, false, head, true, f.later, m);
      b', offset' := Buffers(points, selected, b.curves, counts), offset + 1;
      return;
    }
    b' := Buffers(b.points + [p, p], b.selected + [false, true], b.curves + [ci], b.counts + [2]);
    offset' := offset;
    PairStep(b, offset, f, ci, lo, hi, n, head, inner, p, b');
  }

  /** `dst_to_src_points.insert` of the head copy, in front of the curve's first point `x`. */
  method InsertHeadPoint(points: seq<int>, pos: int, x: int, ghost done: seq<int>, ghost hi: int, ghost n: int,
                         ghost pairs: seq<int>) returns (points': seq<int>)
    requires x <= hi <= n && PointsShape(points, done, x, hi, n, false, false, pairs) && pos == |done|
    ensures PointsShape(points', done, x, hi, n, true, false, pairs)
  {
    InsertHead(done, x, Range(x, hi), [], Range(hi, n), Doubled(pairs));
    points' := Insert(points, pos, x);
  }

  /** `dst_to_src_points.insert` of the tail copy, after the curve's last point `x`. */
  method InsertTailPoint(points: seq<int>, pos: int, x: int, ghost done: seq<int>, ghost lo: int, ghost n: int,
                         ghost head: bool, ghost pairs: seq<int>) returns (points': seq<int>)
    requires lo <= x + 1 <= n && PointsShape(points, done, lo, x + 1, n, head, false, pairs)
    requires pos == |done| + Bit(head) + (x + 1 - lo)
    ensures PointsShape(points', done, lo, x + 1, n, head, true, pairs)
  {
    InsertTail(done, Opt(head, lo), Range(lo, x + 1), x, Range(x + 1, n), Doubled(pairs));
    points' := Insert(points, pos, x);
  }

  /** `dst_selected.insert` of the selected head copy. */
  method InsertHeadSelected(selected: seq<bool>, pos: int, ghost done: seq<bool>, ghost size: nat, ghost rest: nat,
                            ghost m: nat) returns (selected': seq<bool>)
    requires SelShape(selected, done, size, rest, false, false, m) && pos == |done|
    ensures SelShape(selected', done, size, rest, true, false, m)
  {
    InsertHead(done, true, Filled(size, false), [], Filled(rest, false), PairsSel(m));
    selected' := Insert(selected, pos, true);
  }

  /** `dst_selected.insert` of the selected tail copy. */
  method InsertTailSelected(selected: seq<bool>, pos: int, ghost done: seq<bool>, ghost size: nat, ghost rest: nat,
                            ghost head: bool, ghost m: nat) returns (selected': seq<bool>)
    requires SelShape(selected, done, size, rest, head, false, m) && pos == |done| + Bit(head) + size
    ensures SelShape(selected', done, size, rest, head, true, m)
  {
    InsertTail(done, OptTrue(head), Filled(size, false), true, Filled(rest, false), PairsSel(m));
    selected' := Insert(selected, pos, true);
  }

  /** `++dst_curve_counts[curve_index]` for a head or a tail copy. */
  method IncrementCount(counts: seq<int>, ci: int, ghost done: seq<int>, ghost size: int, ghost head: bool, ghost tail: bool,
                        ghost head': bool, ghost tail': bool, ghost later: seq<int>, ghost m: nat) returns (counts': seq<int>)
    requires CountsShape(counts, done, size, head, tail, later, m) && ci == |done|
    requires Bit(head') + Bit(tail') == Bit(head) + Bit(tail) + 1
    ensures CountsShape(counts', done, size, head', tail', later, m)
  {
    counts' := counts[ci := counts[ci] + 1];
    assert counts' == done + [size + Bit(head') + Bit(tail')] + later + Filled(m, 2);
  }

  /** A mask entry lies in curve `ci` exactly when its index lies in the curve's slice. */
  lemma InSlice(o: seq<int>, cyclic: seq<bool>, mask: seq<int>, ci: int, i: int)
    requires Input(o, cyclic, mask) && 0 <= ci < CurvesNum(o) && 0 <= i < |mask|
    ensures var sl := CurveSlice(o, mask, ci);
            sl.0 <= i < sl.1 <==> o[ci] <= mask[i] < o[ci + 1]
  {
    var sl := CurveSlice(o, mask, ci);
    if sl.0 <= i && sl.0 < |mask| {
      assert mask[sl.0] <= mask[i];
    }
    if sl.1 <= i && sl.1 < |mask| {
      assert mask[sl.1] <= mask[i];
    }
  }
  /** An extruded first point of an open curve is the first entry of the curve's slice. */
  lemma StartAt(o: seq<int>, cyclic: seq<bool>, mask: seq<int>, ci: int)
    requires Input(o, cyclic, mask) && 0 <= ci < CurvesNum(o)
    requires StartDup(o, cyclic, mask, ci)
    ensures var sl := CurveSlice(o, mask, ci);
            sl.0 < sl.1 && mask[sl.0] == o[ci]
  {
    var sl := CurveSlice(o, mask, ci);
    var i :| 0 <= i < |mask| && mask[i] == o[ci];
    InSlice(o, cyclic, mask, ci, i);
    InSlice(o, cyclic, mask, ci, sl.0);
    assert mask[sl.0] <= mask[i];
  }

  /** An extruded last point of an open curve is the last entry of the curve's slice. */
  lemma EndAt(o: seq<int>, cyclic: seq<bool>, mask: seq<int>, ci: int)
    requires Input(o, cyclic, mask) && 0 <= ci < CurvesNum(o)
    requires EndDup(o, cyclic, mask, ci)
    ensures var sl := CurveSlice(o, mask, ci);
            sl.0 < sl.1 && mask[sl.1 - 1] == o[ci + 1] - 1
  {
    var sl := CurveSlice(o, mask, ci);
    var i :| 0 <= i < |mask| && mask[i] == o[ci + 1] - 1;
    InSlice(o, cyclic, mask, ci, i);
    InSlice(o, cyclic, mask, ci, sl.1 - 1);
    assert mask[i] <= mask[sl.1 - 1];
  }

  /** Visiting the mask entry `k` of curve `ci` moves the curve's bookkeeping to entry `k + 1`. */
  lemma LinkStep(o: seq<int>, cyclic: seq<bool>, mask: seq<int>, ci: int, k: int,
                 head: bool, tail: bool, inner: seq<int>)
    requires Input(o, cyclic, mask) && 0 <= ci < CurvesNum(o)
    requires Link(o, cyclic, mask, ci, k, head, tail, inner) && k < CurveSlice(o, mask, ci).1
    ensures 0 <= k < |mask| && o[ci] <= mask[k] < o[ci + 1] && !tail
    ensures IsFirst(cyclic[ci], o[ci], o[ci + 1], mask[k]) ==> !head
    ensures Link(o, cyclic, mask, ci, k + 1, head || IsFirst(cyclic[ci], o[ci], o[ci + 1], mask[k]),
                 IsLast(cyclic[ci], o[ci], o[ci + 1], mask[k]), InnerAfter(inner, cyclic[ci], o[ci], o[ci + 1], mask[k]))
  {
    InSlice(o, cyclic, mask, ci, k);
    if StartDup(o, cyclic, mask, ci) {
      StartAt(o, cyclic, mask, ci);
    }
    if EndDup(o, cyclic, mask, ci) {
      EndAt(o, cyclic, mask, ci);
    }
  }

  lemma InsertBetween<T>(a: seq<T>, b: seq<T>, x: T)
    ensures Insert(a + b, |a|, x) == a + [x] + b
  {
    assert (a + b)[..|a|] == a;
    assert (a + b)[|a|..] == b;
  }

  lemma InsertHead<T>(e: seq<T>, x: T, r1: seq<T>, t: seq<T>, r2: seq<T>, d: seq<T>)
    ensures Insert(e + [] + r1 + t + r2 + d, |e|, x) == e + [x] + r1 + t + r2 + d
  {
    var rest := r1 + t + r2 + d;
    assert e + [] + r1 + t + r2 + d == e + rest;
    InsertBetween(e, rest, x);
    assert e + [x] + rest == e + [x] + r1 + t + r2 + d;
  }

  lemma InsertTail<T>(e: seq<T>, s: seq<T>, r1: seq<T>, x: T, r2: seq<T>, d: seq<T>)
    ensures Insert(e + s + r1 + [] + r2 + d, |e| + |s| + |r1|, x) == e + s + r1 + [x] + r2 + d
  {
    var front, rest := e + s + r1, r2 + d;
    assert e + s + r1 + [] + r2 + d == front + rest;
    InsertBetween(front, rest, x);
    assert front + [x] + rest == e + s + r1 + [x] + r2 + d;
  }

  lemma {:induction false} DoubledSnoc(d: seq<int>, x: int)
    ensures Doubled(d + [x]) == Doubled(d) + [x, x]
  {
    assert (d + [x])[..|d + [x]| - 1] == d;
  }

  /** An inner point appends a two-point curve. */
  lemma PairStep(b: Buffers, offset: int, f: Frame, ci: int, lo: int, hi: int, n: int, head: bool, inner: seq<int>, p: int,
                 b': Buffers)
    requires Shaped(b, offset, f, ci, lo, hi, n, head, false, inner)
    requires b' == Buffers(b.points + [p, p], b.selected + [false, true], b.curves + [ci], b.counts + [2])
    ensures Shaped(b', offset, f, ci, lo, hi, n, head, false, inner + [p])
  {
    assert f.pairs + (inner + [p]) == (f.pairs + inner) + [p];
    PairPoints(b.points, f.done, lo, hi, n, head, f.pairs + inner, p);
    PairSel(b.selected, f.doneSel, hi - lo, n - hi, head, |f.pairs| + |inner|);
    PairCounts(b.counts, f.counts, hi - lo, head, f.later, |f.pairs| + |inner|);
    FilledSnoc(|inner|, ci);
  }

  lemma PairPoints(points: seq<int>, done: seq<int>, lo: int, hi: int, n: int, head: bool, pairs: seq<int>, p: int)
    requires lo <= hi <= n && PointsShape(points, done, lo, hi, n, head, false, pairs)
    ensures PointsShape(points + [p, p], done, lo, hi, n, head, false, pairs + [p])
  {
    DoubledSnoc(pairs, p);
  }

  lemma PairSel(sel: seq<bool>, done: seq<bool>, size: nat, rest: nat, head: bool, m: nat)
    requires SelShape(sel, done, size, rest, head, false, m)
    ensures SelShape(sel + [false, true], done, size, rest, head, false, m + 1)
  {
  }

  lemma PairCounts(counts: seq<int>, done: seq<int>, size: int, head: bool, later: seq<int>, m: nat)
    requires CountsShape(counts, done, size, head, false, later, m)
    ensures CountsShape(counts + [2], done, size, head, false, later, m + 1)
  {
    FilledSnoc(m, 2);
  }


  /** The buffers before the first curve. */
  lemma Start(o: seq<int>, cyclic: seq<bool>, mask: seq<int>, b: Buffers, g: Frame)
    requires ValidOffsets(o) && |cyclic| == CurvesNum(o)
    requires b == Buffers(Range(0, PointsNum(o)), Filled(PointsNum(o), false), Range(0, CurvesNum(o)),
                          seq(CurvesNum(o), c requires 0 <= c < CurvesNum(o) => CurveSize(o, c)))
    requires g == Frame([], [], [], Range(0, CurvesNum(o)), [], Sizes(o, 0, CurvesNum(o)))
    ensures Matches(g, o, cyclic, mask, 0) && Outer(b, 0, g, 0, o[0], PointsNum(o))
  {
    assert g.curves == Range(0, CurvesNum(o)) + [];
    assert g.counts == DoneCounts(o, cyclic, mask, 0);
    assert b.points == [] + Range(0, PointsNum(o)) + Doubled([]);
    assert b.selected == [] + Filled(PointsNum(o), false) + PairsSel(0);
    assert b.counts == [] + Sizes(o, 0, CurvesNum(o)) + Filled(0, 2);
  }

  /** Entering curve `ci`: nothing of it is done yet. */
  lemma Enter(o: seq<int>, cyclic: seq<bool>, mask: seq<int>, ci: int, offset: int, b: Buffers, g: Frame)
    returns (f: Frame)
    requires ValidOffsets(o) && |cyclic| == CurvesNum(o) && 0 <= ci < CurvesNum(o)
    requires Matches(g, o, cyclic, mask, ci) && Outer(b, offset, g, ci, o[ci], PointsNum(o))
    ensures f == g.(later := g.later[1..])
    ensures Shaped(b, offset, f, ci, o[ci], o[ci + 1], PointsNum(o), false, false, [])
  {
    assert o[ci] <= o[ci + 1] <= PointsNum(o);
    SizesCons(o, ci, CurvesNum(o));
    f := g.(later := g.later[1..]);
    EnterShape(b, offset, g, ci, o[ci], o[ci + 1], PointsNum(o));
  }

  /** `Sizes` of `lo .. hi-1` starts with the size of curve `lo`. */
  lemma SizesCons(o: seq<int>, lo: int, hi: int)
    requires ValidOffsets(o) && 0 <= lo < hi <= CurvesNum(o)
    ensures Sizes(o, lo, hi) == [CurveSize(o, lo)] + Sizes(o, lo + 1, hi)
  {
  }

  /** Before the first mask entry of curve `ci` no copy and no inner point is done. */
  lemma EnterLink(o: seq<int>, cyclic: seq<bool>, mask: seq<int>, ci: int)
    requires Input(o, cyclic, mask) && 0 <= ci < CurvesNum(o)
    ensures Link(o, cyclic, mask, ci, CurveSlice(o, mask, ci).0, false, false, [])
  {
    if EndDup(o, cyclic, mask, ci) {
      EndAt(o, cyclic, mask, ci);
    }
  }

  /** After the last mask entry of curve `ci` its head and tail copies and its inner points are all done. */
  lemma LeaveLink(o: seq<int>, cyclic: seq<bool>, mask: seq<int>, ci: int, head: bool, tail: bool, inner: seq<int>)
    requires Input(o, cyclic, mask) && 0 <= ci < CurvesNum(o)
    requires Link(o, cyclic, mask, ci, CurveSlice(o, mask, ci).1, head, tail, inner)
    ensures head == StartDup(o, cyclic, mask, ci) && tail == EndDup(o, cyclic, mask, ci)
    ensures inner == CurveInner(o, cyclic, mask, ci)
  {
    if StartDup(o, cyclic, mask, ci) {
      StartAt(o, cyclic, mask, ci);
    }
  }

  lemma EnterShape(b: Buffers, offset: int, g: Frame, ci: int, lo: int, hi: int, n: int)
    requires Outer(b, offset, g, ci, lo, n) && lo <= hi <= n && |g.later| > 0 && g.later[0] == hi - lo
    ensures Shaped(b, offset, g.(later := g.later[1..]), ci, lo, hi, n, false, false, [])
  {
    var f := g.(later := g.later[1..]);
    EnterPoints(g.done, lo, hi, n, Doubled(g.pairs));
    EnterSel(g.doneSel, lo, hi, n, PairsSel(|g.pairs|));
    assert g.pairs + [] == g.pairs;
    assert g.later == [hi - lo] + f.later;
    assert b.counts == f.counts + [hi - lo] + f.later + Filled(|g.pairs|, 2);
  }

  lemma EnterPoints(e: seq<int>, lo: int, hi: int, n: int, d: seq<int>)
    requires lo <= hi <= n
    ensures e + Range(lo, n) + d == e + Opt(false, lo) + Range(lo, hi) + Opt(false, hi - 1) + Range(hi, n) + d
  {
    RangeConcat(lo, hi, n);
  }

  lemma EnterSel(e: seq<bool>, lo: int, hi: int, n: int, d: seq<bool>)
    requires lo <= hi <= n
    ensures e + Filled(n - lo, false) + d
            == e + OptTrue(false) + Filled(hi - lo, false) + OptTrue(false) + Filled(n - hi, false) + d
  {
    FilledConcat(hi - lo, n - hi, false);
  }

  /** The frame once curve `ci` (points `lo .. hi-1`) is done. */
  function Closed(f: Frame, ci: int, lo: int, hi: int, head: bool, tail: bool, inner: seq<int>): Frame
    requires lo <= hi
  {
    Frame(f.done + (Opt(head, lo) + Range(lo, hi) + Opt(tail, hi - 1)),
          f.doneSel + (OptTrue(head) + Filled(hi - lo, false) + OptTrue(tail)),
          f.pairs + inner, f.curves + Filled(|inner|, ci), f.counts + [hi - lo + Bit(head) + Bit(tail)], f.later)
  }

  /** Leaving curve `ci`: the buffers are between curves again. */
  lemma Leave(b: Buffers, offset: int, f: Frame, ci: int, lo: int, hi: int, n: int, head: bool, tail: bool, inner: seq<int>)
    requires Shaped(b, offset, f, ci, lo, hi, n, head, tail, inner)
    ensures Outer(b, offset, Closed(f, ci, lo, hi, head, tail, inner), ci + 1, hi, n)
  {
    LeaveParts(f.done, Opt(head, lo), Range(lo, hi), Opt(tail, hi - 1), Range(hi, n), Doubled(f.pairs + inner));
    LeaveParts(f.doneSel, OptTrue(head), Filled(hi - lo, false), OptTrue(tail), Filled(n - hi, false),
               PairsSel(|f.pairs| + |inner|));
  }

  lemma LeaveParts<T>(e: seq<T>, s: seq<T>, r1: seq<T>, t: seq<T>, r2: seq<T>, d: seq<T>)
    ensures e + s + r1 + t + r2 + d == e + (s + r1 + t) + r2 + d
  {
  }

  /** Closing curve `ci` with its head and tail copies and all its inner points gives the frame of curve `ci + 1`. */
  lemma Advance(o: seq<int>, cyclic: seq<bool>, mask: seq<int>, ci: int, g: Frame, f: Frame)
    requires ValidOffsets(o) && |cyclic| == CurvesNum(o) && 0 <= ci < CurvesNum(o)
    requires Matches(g, o, cyclic, mask, ci) && f == g.(later := g.later[1..])
    ensures o[ci] <= o[ci + 1]
    ensures Matches(Closed(f, ci, o[ci], o[ci + 1], StartDup(o, cyclic, mask, ci), EndDup(o, cyclic, mask, ci),
                           CurveInner(o, cyclic, mask, ci)), o, cyclic, mask, ci + 1)
  {
    assert o[ci] <= o[ci + 1];
    SizesCons(o, ci, CurvesNum(o));
    AdvanceDone(o, cyclic, mask, ci, f.done);
    AdvanceSel(o, cyclic, mask, ci, f.doneSel);
    AdvanceCurves(o, cyclic, mask, ci, f.curves);
    AdvanceCounts(o, cyclic, mask, ci, f.counts);
  }

  lemma AdvanceDone(o: seq<int>, cyclic: seq<bool>, mask: seq<int>, ci: int, d: seq<int>)
    requires ValidOffsets(o) && |cyclic| == CurvesNum(o) && 0 <= ci < CurvesNum(o)
    requires d == ExpandedCurves(o, cyclic, mask, ci)
    ensures o[ci] <= o[ci + 1]
    ensures d + (Opt(StartDup(o, cyclic, mask, ci), o[ci]) + Range(o[ci], o[ci + 1])
                 + Opt(EndDup(o, cyclic, mask, ci), o[ci + 1] - 1))
            == ExpandedCurves(o, cyclic, mask, ci + 1)
  {
    assert o[ci] <= o[ci + 1];
  }

  lemma AdvanceSel(o: seq<int>, cyclic: seq<bool>, mask: seq<int>, ci: int, d: seq<bool>)
    requires ValidOffsets(o) && |cyclic| == CurvesNum(o) && 0 <= ci < CurvesNum(o)
    requires d == ExpandedSelCurves(o, cyclic, mask, ci)
    ensures o[ci] <= o[ci + 1]
    ensures d + (OptTrue(StartDup(o, cyclic, mask, ci)) + Filled(o[ci + 1] - o[ci], false)
                 + OptTrue(EndDup(o, cyclic, mask, ci)))
            == ExpandedSelCurves(o, cyclic, mask, ci + 1)
  {
    assert o[ci] <= o[ci + 1];
  }

  lemma AdvanceCurves(o: seq<int>, cyclic: seq<bool>, mask: seq<int>, ci: int, d: seq<int>)
    requires ValidOffsets(o) && |cyclic| == CurvesNum(o) && 0 <= ci < CurvesNum(o)
    requires d == Range(0, CurvesNum(o)) + AllOwners(o, cyclic, mask, ci)
    ensures d + Filled(|CurveInner(o, cyclic, mask, ci)|, ci) == Range(0, CurvesNum(o)) + AllOwners(o, cyclic, mask, ci + 1)
  {
    AppendAssoc(Range(0, CurvesNum(o)), AllOwners(o, cyclic, mask, ci), Filled(|CurveInner(o, cyclic, mask, ci)|, ci));
  }

  lemma AdvanceCounts(o: seq<int>, cyclic: seq<bool>, mask: seq<int>, ci: int, d: seq<int>)
    requires ValidOffsets(o) && |cyclic| == CurvesNum(o) && 0 <= ci < CurvesNum(o)
    requires d == DoneCounts(o, cyclic, mask, ci)
    ensures o[ci] <= o[ci + 1]
    ensures d + [o[ci + 1] - o[ci] + Bit(StartDup(o, cyclic, mask, ci)) + Bit(EndDup(o, cyclic, mask, ci))]
            == DoneCounts(o, cyclic, mask, ci + 1)
  {
    assert o[ci] <= o[ci + 1];
    assert DoneCounts(o, cyclic, mask, ci + 1) == DoneCounts(o, cyclic, mask, ci) + [|CurveExpand(o, cyclic, mask, ci)|];
  }

  lemma {:induction false} OwnersLength(o: seq<int>, cyclic: seq<bool>, mask: seq<int>, k: int)
    requires ValidOffsets(o) && |cyclic| == CurvesNum(o) && 0 <= k <= CurvesNum(o)
    ensures |AllOwners(o, cyclic, mask, k)| == |AllInner(o, cyclic, mask, k)|
  {
    if k > 0 {
      OwnersLength(o, cyclic, mask, k - 1);
    }
  }

  /** After the last curve the buffers are the expected result. */
  lemma Finish(o: seq<int>, cyclic: seq<bool>, mask: seq<int>, b: Buffers, offset: int, g: Frame)
    requires ValidOffsets(o) && |cyclic| == CurvesNum(o)
    requires Matches(g, o, cyclic, mask, CurvesNum(o)) && Outer(b, offset, g, CurvesNum(o), o[CurvesNum(o)], PointsNum(o))
    ensures Extrusion(b.points, b.curves, b.counts, b.selected, cyclic + Filled(|b.curves| - CurvesNum(o), false))
            == Expected(o, cyclic, mask)
  {
    OwnersLength(o, cyclic, mask, CurvesNum(o));
    assert g.later == [];
    FinishParts(b, offset, g, CurvesNum(o), PointsNum(o));
  }

  /** Between curves, with no original point and no curve size left, the buffers are the done parts and the pairs. */
  lemma FinishParts(b: Buffers, offset: int, g: Frame, ci: int, n: int)
    requires Outer(b, offset, g, ci, n, n) && g.later == []
    ensures b.points == g.done + Doubled(g.pairs)
    ensures b.selected == g.doneSel + PairsSel(|g.pairs|)
    ensures b.counts == g.counts + Filled(|g.pairs|, 2)
  {
    assert Range(n, n) == [];
    assert Filled(0, false) == [];
  }
}
