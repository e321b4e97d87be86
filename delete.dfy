/**
 * The delete operator's point mode, `remove_points_and_split`: the selected
 * points are removed, and every curve falls apart into one new curve per
 * maximal run of surviving points. On a cyclic curve whose first and last
 * points both survive, the run that touches the end is joined with the run
 * that touches the beginning, so the cut does not open the curve at its
 * closing segment.
 *
 * The result is described by the maps the source builds before it gathers
 * the attributes: `pointMap` (`dst_to_src_point`), `curveMap`
 * (`dst_to_src_curve`), the new cyclic flags and the new offsets.
 */
module DeleteSplit {
  import opened Layout
  import opened Runs

  datatype Split = Split(pointMap: seq<int>, curveMap: seq<int>, cyclic: seq<bool>, offsets: seq<int>)

  /** A drawing (its offsets and cyclic flags) with one deletion flag per point. */
  predicate Input(o: seq<int>, cyc: seq<bool>, del: seq<bool>) {
    ValidOffsets(o) && |cyc| == CurvesNum(o) && |del| == PointsNum(o)
  }

  /** The maximal runs of surviving points of curve `c`, relative to its first point. */
  function CurveRanges(o: seq<int>, cyc: seq<bool>, del: seq<bool>, c: int): seq<IndexRange>
    requires Input(o, cyc, del) && 0 <= c < CurvesNum(o)
  {
    FindAllRanges(del[o[c]..o[c + 1]], false)
  }

  /**
   * `is_last_segment_selected` for a curve of `size` points whose surviving
   * runs are `r`: the curve is cyclic and both its first and last points survive.
   */
  predicate JoinsEnd(r: seq<IndexRange>, size: int, cyclic: bool) {
    cyclic && r != [] && r[0].start == 0 && r[|r| - 1].Last() == size - 1
  }

  /** `is_curve_self_joined`: the last run is continued by the first one. */
  predicate SelfJoined(r: seq<IndexRange>, size: int, cyclic: bool) {
    JoinsEnd(r, size, cyclic) && |r| != 1
  }

  /** `is_cyclic`: the curve survives as one cyclic piece. */
  predicate StaysCyclic(r: seq<IndexRange>, size: int, cyclic: bool) {
    JoinsEnd(r, size, cyclic) && |r| == 1
  }

  /** The point lists of the runs `lo .. hi-1`, shifted to absolute point indices. */
  function Pieces(r: seq<IndexRange>, b: int, lo: int, hi: int): (ps: seq<seq<int>>)
    requires 0 <= lo <= hi <= |r|
    ensures |ps| == hi - lo
    decreases hi - lo
  {
    if lo == hi then [] else Pieces(r, b, lo, hi - 1) + [r[hi - 1].Shift(b).Indices()]
  }

  /**
   * The new curves made from a curve whose first point is `b`, each as its
   * list of source points: one per run, except that a self-joined curve
   * carries its first run at the end of its last one.
   */
  function RunPieces(r: seq<IndexRange>, b: int, size: int, cyclic: bool): seq<seq<int>>
  {
    if SelfJoined(r, size, cyclic) then
      Pieces(r, b, 1, |r| - 1) + [r[|r| - 1].Shift(b).Indices() + r[0].Shift(b).Indices()]
    else Pieces(r, b, 0, |r|)
  }

  function CurvePieces(o: seq<int>, cyc: seq<bool>, del: seq<bool>, c: int): seq<seq<int>>
    requires Input(o, cyc, del) && 0 <= c < CurvesNum(o)
  {
    RunPieces(CurveRanges(o, cyc, del, c), o[c], o[c + 1] - o[c], cyc[c])
  }

  predicate CurveSelfJoined(o: seq<int>, cyc: seq<bool>, del: seq<bool>, c: int)
    requires Input(o, cyc, del) && 0 <= c < CurvesNum(o)
  {
    SelfJoined(CurveRanges(o, cyc, del, c), o[c + 1] - o[c], cyc[c])
  }

  predicate KeepsCyclic(o: seq<int>, cyc: seq<bool>, del: seq<bool>, c: int)
    requires Input(o, cyc, del) && 0 <= c < CurvesNum(o)
  {
    StaysCyclic(CurveRanges(o, cyc, del, c), o[c + 1] - o[c], cyc[c])
  }

  /** The new curves made from the first `k` source curves. */
  function AllPieces(o: seq<int>, cyc: seq<bool>, del: seq<bool>, k: int): seq<seq<int>>
    requires Input(o, cyc, del) && 0 <= k <= CurvesNum(o)
  {
    if k == 0 then [] else AllPieces(o, cyc, del, k - 1) + CurvePieces(o, cyc, del, k - 1)
  }

  /** The source curve of each of those new curves. */
  function AllCurves(o: seq<int>, cyc: seq<bool>, del: seq<bool>, k: int): (cs: seq<int>)
    requires Input(o, cyc, del) && 0 <= k <= CurvesNum(o)
    ensures |cs| == |AllPieces(o, cyc, del, k)|
  {
    if k == 0 then []
    else AllCurves(o, cyc, del, k - 1) + Filled(|CurvePieces(o, cyc, del, k - 1)|, k - 1)
  }

  /** The cyclic flag of each of those new curves. */
  function AllCyclic(o: seq<int>, cyc: seq<bool>, del: seq<bool>, k: int): (fs: seq<bool>)
    requires Input(o, cyc, del) && 0 <= k <= CurvesNum(o)
    ensures |fs| == |AllPieces(o, cyc, del, k)|
  {
    if k == 0 then []
    else AllCyclic(o, cyc, del, k - 1) + Filled(|CurvePieces(o, cyc, del, k - 1)|, KeepsCyclic(o, cyc, del, k - 1))
  }

  /** The geometry that remains once the points flagged in `del` are removed. */
  function Expected(o: seq<int>, cyc: seq<bool>, del: seq<bool>): Split
    requires Input(o, cyc, del)
  {
    var ps := AllPieces(o, cyc, del, CurvesNum(o));
    Split(Flatten(ps), AllCurves(o, cyc, del, CurvesNum(o)), AllCyclic(o, cyc, del, CurvesNum(o)),
          PrefixSums(Lengths(ps)))
  }

  /**
   * `remove_points_and_split`. When every point is deleted the result is the
   * empty geometry; otherwise the curves are scanned in order and each run of
   * survivors is appended as a new curve.
   */
  method RemovePointsAndSplit(o: seq<int>, cyc: seq<bool>, mask: seq<int>) returns (r: Split)
    requires ValidOffsets(o) && |cyc| == CurvesNum(o) && IsMask(mask, PointsNum(o))
    ensures r == Expected(o, cyc, ToBools(mask, PointsNum(o)))
  {
    var del := ToBools(mask, PointsNum(o));
    var total := multiset(del)[false];
    SurvivorTotal(del);
    if total == 0 {
      NothingSurvives(o, cyc, del);
      return Split([], [], [], [0]);
    }
    var pts := new int[total];
    var cur := 0;
    var counts: seq<nat> := [];
    var curves: seq<int> := [];
    var flags: seq<bool> := [];
    var ci := 0;
    while ci < CurvesNum(o)
      invariant 0 <= ci <= CurvesNum(o)
      invariant cur == |Flatten(AllPieces(o, cyc, del, ci))| <= total
      invariant pts[..cur] == Flatten(AllPieces(o, cyc, del, ci))
      invariant counts == Lengths(AllPieces(o, cyc, del, ci))
      invariant curves == AllCurves(o, cyc, del, ci)
      invariant flags == AllCyclic(o, cyc, del, ci)
    {
      SurvivorsBefore(o, cyc, del, ci + 1);
      AllStep(o, cyc, del, ci);
      cur, counts, curves, flags := EmitCurve(pts, cur, o, cyc, del, ci, counts, curves, flags);
      ci := ci + 1;
    }
    SurvivorsBefore(o, cyc, del, CurvesNum(o));
    assert pts[..] == pts[..cur];
    r := Split(pts[..], curves, flags, PrefixSums(counts));
  }

  /** One more source curve appends its pieces, their points and sizes, its index and its cyclic flag. */
  lemma AllStep(o: seq<int>, cyc: seq<bool>, del: seq<bool>, k: int)
    requires Input(o, cyc, del) && 0 <= k < CurvesNum(o)
    ensures var a, cp := AllPieces(o, cyc, del, k), CurvePieces(o, cyc, del, k);
      Flatten(AllPieces(o, cyc, del, k + 1)) == Flatten(a) + Flatten(cp) &&
      Lengths(AllPieces(o, cyc, del, k + 1)) == Lengths(a) + Lengths(cp) &&
      AllCurves(o, cyc, del, k + 1) == AllCurves(o, cyc, del, k) + Filled(|cp|, k) &&
      AllCyclic(o, cyc, del, k + 1) == AllCyclic(o, cyc, del, k) + Filled(|cp|, KeepsCyclic(o, cyc, del, k))
  {
    var a, cp := AllPieces(o, cyc, del, k), CurvePieces(o, cyc, del, k);
    assert AllPieces(o, cyc, del, k + 1) == a + cp;
    FlattenConcat(a, cp);
    LengthsConcat(a, cp);
  }

  /**
   * The body of the loop over curves: appends the pieces of curve `ci` to the
   * point map and their sizes, source curve and cyclic flag to the lists.
   */
  method EmitCurve(pts: array<int>, cur: nat, o: seq<int>, cyc: seq<bool>, del: seq<bool>, ci: int,
                   counts: seq<nat>, curves: seq<int>, flags: seq<bool>)
    returns (next: nat, counts': seq<nat>, curves': seq<int>, flags': seq<bool>)
    requires Input(o, cyc, del) && 0 <= ci < CurvesNum(o)
    requires cur + |Flatten(CurvePieces(o, cyc, del, ci))| <= pts.Length
    modifies pts
    ensures next == cur + |Flatten(CurvePieces(o, cyc, del, ci))|
    ensures pts[..next] == old(pts[..cur]) + Flatten(CurvePieces(o, cyc, del, ci))
    ensures counts' == counts + Lengths(CurvePieces(o, cyc, del, ci))
    ensures curves' == curves + Filled(|CurvePieces(o, cyc, del, ci)|, ci)
    ensures flags' == flags + Filled(|CurvePieces(o, cyc, del, ci)|, KeepsCyclic(o, cyc, del, ci))
  {
    var ranges := FindAllRanges(del[o[ci]..o[ci + 1]], false);
    assert CurvePieces(o, cyc, del, ci) == RunPieces(ranges, o[ci], o[ci + 1] - o[ci], cyc[ci]);
    assert KeepsCyclic(o, cyc, del, ci) == StaysCyclic(ranges, o[ci + 1] - o[ci], cyc[ci]);
    next, counts', curves', flags' := EmitRuns(pts, cur, ranges, o[ci], o[ci + 1] - o[ci], cyc[ci], ci, counts, curves, flags);
  }

  /**
   * The surviving runs of one curve whose first point is `b`: a self-joined
   * curve skips its first run and appends it to its last one.
   */
  method EmitRuns(pts: array<int>, cur: nat, ranges: seq<IndexRange>, b: int, size: int, cyclic: bool, ci: int,
                  counts: seq<nat>, curves: seq<int>, flags: seq<bool>)
    returns (next: nat, counts': seq<nat>, curves': seq<int>, flags': seq<bool>)
    requires cur + |Flatten(RunPieces(ranges, b, size, cyclic))| <= pts.Length
    modifies pts
    ensures next == cur + |Flatten(RunPieces(ranges, b, size, cyclic))|
    ensures pts[..next] == old(pts[..cur]) + Flatten(RunPieces(ranges, b, size, cyclic))
    ensures counts' == counts + Lengths(RunPieces(ranges, b, size, cyclic))
    ensures curves' == curves + Filled(|RunPieces(ranges, b, size, cyclic)|, ci)
    ensures flags' == flags + Filled(|RunPieces(ranges, b, size, cyclic)|, StaysCyclic(ranges, size, cyclic))
  {
    ghost var cp := RunPieces(ranges, b, size, cyclic);
    if ranges == [] {
      assert cp == [];
      next, counts', curves', flags' := cur, counts, curves, flags;
      return;
    }
    var lastSegment := cyclic && ranges[0].start == 0 && ranges[|ranges| - 1].Last() == size - 1;
    var selfJoined := lastSegment && |ranges| != 1;
    var isCyclic := |ranges| == 1 && lastSegment;
    var skip := if selfJoined then 1 else 0;
    RunPiecesAre(ranges, b, size, cyclic, selfJoined, skip);
    next, counts', curves', flags' := CopyRuns(pts, cur, ranges, b, skip, selfJoined, isCyclic, ci, cp, counts, curves, flags);
  }

  /** Piece `i - skip` of a curve: run `i`, followed by run 0 when it closes a self-joined curve. */
  function PieceOf(r: seq<IndexRange>, b: int, i: int, selfJoined: bool): seq<int>
    requires 0 <= i < |r|
  {
    if selfJoined && i == |r| - 1 then r[i].Shift(b).Indices() + r[0].Shift(b).Indices()
    else r[i].Shift(b).Indices()
  }

  lemma RunPiecesAre(r: seq<IndexRange>, b: int, size: int, cyclic: bool, selfJoined: bool, skip: int)
    requires r != [] && selfJoined == SelfJoined(r, size, cyclic) && skip == if selfJoined then 1 else 0
    ensures |RunPieces(r, b, size, cyclic)| == |r| - skip
    ensures forall i :: skip <= i < |r| ==> RunPieces(r, b, size, cyclic)[i - skip] == PieceOf(r, b, i, selfJoined)
  {
    PieceAt(r, b, size, cyclic, skip);
    forall i | skip <= i < |r|
      ensures RunPieces(r, b, size, cyclic)[i - skip] == PieceOf(r, b, i, selfJoined)
    {
      PieceAt(r, b, size, cyclic, i);
    }
  }

  /** The loop over the runs `skip .. |ranges|-1`, appending piece `i - skip` of `cp` for run `i`. */
  method CopyRuns(pts: array<int>, cur: nat, ranges: seq<IndexRange>, b: int, skip: int, selfJoined: bool,
                  isCyclic: bool, ci: int, ghost cp: seq<seq<int>>, counts: seq<nat>, curves: seq<int>, flags: seq<bool>)
    returns (next: nat, counts': seq<nat>, curves': seq<int>, flags': seq<bool>)
    requires 0 <= skip <= |ranges| && (selfJoined ==> skip == 1) && |cp| == |ranges| - skip
    requires forall i :: skip <= i < |ranges| ==> cp[i - skip] == PieceOf(ranges, b, i, selfJoined)
    requires cur + |Flatten(cp)| <= pts.Length
    modifies pts
    ensures next == cur + |Flatten(cp)|
    ensures pts[..next] == old(pts[..cur]) + Flatten(cp)
    ensures counts' == counts + Lengths(cp)
    ensures curves' == curves + Filled(|cp|, ci)
    ensures flags' == flags + Filled(|cp|, isCyclic)
  {
    ghost var start := pts[..cur];
    next, counts', curves', flags' := cur, counts, curves, flags;
    var i := skip;
    while i < |ranges|
      invariant skip <= i <= |ranges|
      invariant next == cur + |Flatten(cp[..i - skip])| <= pts.Length
      invariant pts[..next] == start + Flatten(cp[..i - skip])
      invariant counts' == counts + Lengths(cp[..i - skip])
      invariant curves' == curves + Filled(i - skip, ci)
      invariant flags' == flags + Filled(i - skip, isCyclic)
    {
      var count;
      ghost var piece := cp[i - skip];
      assert piece == PieceOf(ranges, b, i, selfJoined);
      FlattenGrows(cp, i - skip);
      ghost var mid := pts[..next];
      next, count := CopyPiece(pts, next, ranges, b, i, selfJoined);
      ExtendFlat(cp, i - skip, start, counts, mid, counts');
      FilledSnoc(i - skip, ci);
      FilledSnoc(i - skip, isCyclic);
      counts' := counts' + [count];
      curves' := curves' + [ci];
      flags' := flags' + [isCyclic];
      i := i + 1;
    }
    SliceAll(cp);
  }

  /** Copies the points of run `i`, and those of run 0 after them when run `i` closes a self-joined curve. */
  method CopyPiece(pts: array<int>, cur: nat, ranges: seq<IndexRange>, b: int, i: int, selfJoined: bool)
    returns (next: nat, count: nat)
    requires 0 <= i < |ranges| && cur + |PieceOf(ranges, b, i, selfJoined)| <= pts.Length
    modifies pts
    ensures count == |PieceOf(ranges, b, i, selfJoined)| && next == cur + count
    ensures pts[..next] == old(pts[..cur]) + PieceOf(ranges, b, i, selfJoined)
  {
    var range := ranges[i].Shift(b);
    if selfJoined && i == |ranges| - 1 {
      var first_range := ranges[0].Shift(b);
      assert PieceOf(ranges, b, i, selfJoined) == range.Indices() + first_range.Indices();
      next := CopyJoined(pts, cur, range, first_range);
      count := range.size + first_range.size;
    } else {
      assert PieceOf(ranges, b, i, selfJoined) == range.Indices();
      next := CopyPoints(pts, cur, range.start, range.End());
      count := range.size;
    }
  }

  /** The last run of a self-joined curve, followed by its first run. */
  method CopyJoined(pts: array<int>, cur: nat, last: IndexRange, first: IndexRange) returns (next: nat)
    requires cur + last.size + first.size <= pts.Length
    modifies pts
    ensures next == cur + last.size + first.size
    ensures pts[..next] == old(pts[..cur]) + (last.Indices() + first.Indices())
  {
    ghost var before := pts[..cur];
    next := CopyPoints(pts, cur, last.start, last.End());
    next := CopyPoints(pts, next, first.start, first.End());
    AppendAssoc(before, last.Indices(), first.Indices());
  }

  /** One more piece laid end to end extends both the points and the sizes. */
  lemma ExtendFlat(cp: seq<seq<int>>, k: nat, start: seq<int>, counts: seq<nat>, mid: seq<int>, cs: seq<nat>)
    requires k < |cp| && mid == start + Flatten(cp[..k]) && cs == counts + Lengths(cp[..k])
    ensures mid + cp[k] == start + Flatten(cp[..k + 1])
    ensures cs + [|cp[k]|] == counts + Lengths(cp[..k + 1])
  {
    PrefixSnoc(cp, k);
    FlattenSnoc(cp[..k], cp[k]);
    LengthsConcat(cp[..k], [cp[k]]);
  }

  /** The first `k + 1` pieces hold no more points than all of them. */
  lemma FlattenGrows(cp: seq<seq<int>>, k: nat)
    requires k < |cp|
    ensures |Flatten(cp[..k])| + |cp[k]| == |Flatten(cp[..k + 1])| <= |Flatten(cp)|
  {
    FlattenSplit(cp, k);
    PrefixSnoc(cp, k);
    FlattenSnoc(cp[..k], cp[k]);
  }

  /** The inner loop: `dst_to_src_point[curr_dst_point_id++] = src_point` over `lo .. hi-1`. */
  method CopyPoints(pts: array<int>, cur: nat, lo: int, hi: int) returns (next: nat)
    requires lo <= hi && cur + (hi - lo) <= pts.Length
    modifies pts
    ensures next == cur + (hi - lo)
    ensures pts[..next] == old(pts[..cur]) + Range(lo, hi)
  {
    next := cur;
    var p := lo;
    while p < hi
      invariant lo <= p <= hi && next == cur + (p - lo)
      invariant pts[..next] == old(pts[..cur]) + Range(lo, p)
    {
      RangeSnoc(lo, p);
      pts[next] := p;
      PrefixSnoc(pts[..], next);
      next := next + 1;
      p := p + 1;
    }
  }

  /** The `j`-th point list of `Pieces`. */
  lemma {:induction false} PiecesAt(r: seq<IndexRange>, b: int, lo: int, hi: int, j: int)
    requires 0 <= lo <= j < hi <= |r|
    ensures Pieces(r, b, lo, hi)[j - lo] == r[j].Shift(b).Indices()
    decreases hi - lo
  {
    if j < hi - 1 {
      PiecesAt(r, b, lo, hi - 1, j);
    }
  }

  /**
   * Counting over all runs, piece `i - skip` is run `i`, with the first run
   * appended to the last one when the curve is self-joined.
   */
  lemma PieceAt(r: seq<IndexRange>, b: int, size: int, cyclic: bool, i: int)
    requires var skip := if SelfJoined(r, size, cyclic) then 1 else 0; skip <= i < |r|
    ensures var skip := if SelfJoined(r, size, cyclic) then 1 else 0;
      |RunPieces(r, b, size, cyclic)| == |r| - skip &&
      RunPieces(r, b, size, cyclic)[i - skip] ==
        if SelfJoined(r, size, cyclic) && i == |r| - 1 then r[i].Shift(b).Indices() + r[0].Shift(b).Indices()
        else r[i].Shift(b).Indices()
  {
    if SelfJoined(r, size, cyclic) {
      if i < |r| - 1 {
        PiecesAt(r, b, 1, |r| - 1, i);
      }
    } else {
      PiecesAt(r, b, 0, |r|, i);
    }
  }

  lemma SurvivorTotal(del: seq<bool>)
    ensures multiset(del)[false] == |IndicesIn(del, false, 0, |del|)|
  {
    IndicesInCount(del, false, 0, |del|);
    SliceAll(del);
  }

  /** The pieces of the first `k` curves hold as many points as survive in those curves. */
  lemma SurvivorsBefore(o: seq<int>, cyc: seq<bool>, del: seq<bool>, k: int)
    requires Input(o, cyc, del) && 0 <= k <= CurvesNum(o)
    ensures |Flatten(AllPieces(o, cyc, del, k))| == |IndicesIn(del, false, 0, o[k])| <= |IndicesIn(del, false, 0, |del|)|
  {
    AllPiecesSurvivors(o, cyc, del, k);
    BagSize(Flatten(AllPieces(o, cyc, del, k)));
    BagSize(IndicesIn(del, false, 0, o[k]));
    IndicesInSplit(del, false, 0, o[k], |del|);
  }

  /** With no survivor there is no piece at all. */
  lemma NothingSurvives(o: seq<int>, cyc: seq<bool>, del: seq<bool>)
    requires Input(o, cyc, del) && |IndicesIn(del, false, 0, |del|)| == 0
    ensures Expected(o, cyc, del) == Split([], [], [], [0])
  {
    var k := CurvesNum(o);
    var ps := AllPieces(o, cyc, del, k);
    SurvivorsBefore(o, cyc, del, k);
    PiecesOrigin(o, cyc, del, k);
    if ps != [] {
      FlattenSplit(ps, 0);
    }
    assert Lengths(ps) == [];
  }

  /** The points of the runs `lo .. hi-1`, shifted by `b`, end to end. */
  function Points(r: seq<IndexRange>, b: int, lo: int, hi: int): seq<int>
    requires 0 <= lo <= hi <= |r|
    decreases hi - lo
  {
    if lo == hi then [] else Points(r, b, lo, hi - 1) + r[hi - 1].Shift(b).Indices()
  }

  /** Laid end to end, `Pieces` are the runs' points. */
  lemma {:induction false} PiecesPoints(r: seq<IndexRange>, b: int, lo: int, hi: int)
    requires 0 <= lo <= hi <= |r|
    ensures Flatten(Pieces(r, b, lo, hi)) == Points(r, b, lo, hi)
    decreases hi - lo
  {
    if lo < hi {
      var ps, x := Pieces(r, b, lo, hi - 1), r[hi - 1].Shift(b).Indices();
      PiecesPoints(r, b, lo, hi - 1);
      FlattenSnoc(ps, x);
      assert Pieces(r, b, lo, hi) == ps + [x];
      assert Points(r, b, lo, hi) == Points(r, b, lo, hi - 1) + x;
    }
  }

  lemma {:induction false} PointsCons(r: seq<IndexRange>, b: int, lo: int, hi: int)
    requires 0 <= lo < hi <= |r|
    ensures Points(r, b, lo, hi) == r[lo].Shift(b).Indices() + Points(r, b, lo + 1, hi)
    decreases hi - lo
  {
    if lo + 1 < hi {
      PointsCons(r, b, lo, hi - 1);
    }
  }

  /** `Points` over a suffix agrees with the runs' points `RangesPoints`. */
  lemma {:induction false} PointsSuffix(r: seq<IndexRange>, b: int, i: int)
    requires 0 <= i <= |r|
    ensures Points(r, b, i, |r|) == RangesPoints(r[i..], b)
    decreases |r| - i
  {
    if i < |r| {
      PointsSuffix(r, b, i + 1);
      PointsCons(r, b, i, |r|);
      assert r[i..][1..] == r[i + 1..];
    } else {
      assert r[i..] == [];
    }
  }

  lemma PointsAll(r: seq<IndexRange>, b: int)
    ensures Points(r, b, 0, |r|) == RangesPoints(r, b)
  {
    PointsSuffix(r, b, 0);
    SliceAll(r);
  }

  /**
   * Laid end to end, the pieces are the runs' points in order, except that a
   * self-joined curve has its first run moved behind the last.
   */
  lemma RunPiecesPoints(r: seq<IndexRange>, b: int, size: int, cyclic: bool)
    ensures !SelfJoined(r, size, cyclic) ==> Flatten(RunPieces(r, b, size, cyclic)) == Points(r, b, 0, |r|)
    ensures SelfJoined(r, size, cyclic) ==>
      Flatten(RunPieces(r, b, size, cyclic)) == Points(r, b, 1, |r|) + r[0].Shift(b).Indices() &&
      Points(r, b, 0, |r|) == r[0].Shift(b).Indices() + Points(r, b, 1, |r|)
  {
    if SelfJoined(r, size, cyclic) {
      var p0, pl := r[0].Shift(b).Indices(), r[|r| - 1].Shift(b).Indices();
      FlattenSnoc(Pieces(r, b, 1, |r| - 1), pl + p0);
      PiecesPoints(r, b, 1, |r| - 1);
      PointsCons(r, b, 0, |r|);
    } else {
      PiecesPoints(r, b, 0, |r|);
    }
  }

  /**
   * The pieces of curve `c` hold exactly its surviving points, each once, in
   * ascending order unless the curve is self-joined.
   */
  lemma CurvePiecesSurvivors(o: seq<int>, cyc: seq<bool>, del: seq<bool>, c: int)
    requires Input(o, cyc, del) && 0 <= c < CurvesNum(o)
    ensures Bag(Flatten(CurvePieces(o, cyc, del, c))) == Bag(IndicesIn(del, false, o[c], o[c + 1]))
  {
    var r := CurveRanges(o, cyc, del, c);
    RunsIndices(del, false, o[c], o[c + 1]);
    PointsAll(r, o[c]);
    RunPiecesPoints(r, o[c], o[c + 1] - o[c], cyc[c]);
    if CurveSelfJoined(o, cyc, del, c) {
      BagConcat(Points(r, o[c], 1, |r|), r[0].Shift(o[c]).Indices());
      BagConcat(r[0].Shift(o[c]).Indices(), Points(r, o[c], 1, |r|));
    }
  }

  /** A curve that is not self-joined keeps its survivors in ascending order. */
  lemma CurvePiecesInOrder(o: seq<int>, cyc: seq<bool>, del: seq<bool>, c: int)
    requires Input(o, cyc, del) && 0 <= c < CurvesNum(o) && !CurveSelfJoined(o, cyc, del, c)
    ensures Flatten(CurvePieces(o, cyc, del, c)) == IndicesIn(del, false, o[c], o[c + 1])
  {
    var r := CurveRanges(o, cyc, del, c);
    RunsIndices(del, false, o[c], o[c + 1]);
    PointsAll(r, o[c]);
    RunPiecesPoints(r, o[c], o[c + 1] - o[c], cyc[c]);
  }

  /** The new curves hold exactly the surviving points, each once. */
  lemma {:induction false} AllPiecesSurvivors(o: seq<int>, cyc: seq<bool>, del: seq<bool>, k: int)
    requires Input(o, cyc, del) && 0 <= k <= CurvesNum(o)
    ensures Bag(Flatten(AllPieces(o, cyc, del, k))) == Bag(IndicesIn(del, false, 0, o[k]))
  {
    if k == 0 {
      assert IndicesIn(del, false, 0, 0) == [];
    } else {
      var a, cp := AllPieces(o, cyc, del, k - 1), CurvePieces(o, cyc, del, k - 1);
      var x, y := IndicesIn(del, false, 0, o[k - 1]), IndicesIn(del, false, o[k - 1], o[k]);
      AllPiecesSurvivors(o, cyc, del, k - 1);
      CurvePiecesSurvivors(o, cyc, del, k - 1);
      IndicesInSplit(del, false, 0, o[k - 1], o[k]);
      assert IndicesIn(del, false, 0, o[k]) == x + y;
      BagStep(a, cp, x, y);
      assert AllPieces(o, cyc, del, k) == a + cp;
    }
  }

  lemma BagStep(a: seq<seq<int>>, b: seq<seq<int>>, x: seq<int>, y: seq<int>)
    requires Bag(Flatten(a)) == Bag(x) && Bag(Flatten(b)) == Bag(y)
    ensures Bag(Flatten(a + b)) == Bag(x + y)
  {
    FlattenConcat(a, b);
    BagConcat(Flatten(a), Flatten(b));
    BagConcat(x, y);
  }

  /** Without a self-joined curve the point map is the survivors in ascending order. */
  lemma {:induction false} AllPiecesInOrder(o: seq<int>, cyc: seq<bool>, del: seq<bool>, k: int)
    requires Input(o, cyc, del) && 0 <= k <= CurvesNum(o)
    requires forall c :: 0 <= c < k ==> !CurveSelfJoined(o, cyc, del, c)
    ensures Flatten(AllPieces(o, cyc, del, k)) == IndicesIn(del, false, 0, o[k])
  {
    if k == 0 {
      assert IndicesIn(del, false, 0, 0) == [];
    } else {
      AllPiecesInOrder(o, cyc, del, k - 1);
      CurvePiecesInOrder(o, cyc, del, k - 1);
      FlattenConcat(AllPieces(o, cyc, del, k - 1), CurvePieces(o, cyc, del, k - 1));
      IndicesInSplit(del, false, 0, o[k - 1], o[k]);
    }
  }

  /** A point list that is non-empty and lies inside `lo .. hi-1`. */
  predicate InSpan(piece: seq<int>, lo: int, hi: int) {
    piece != [] && forall i :: 0 <= i < |piece| ==> lo <= piece[i] < hi
  }

  predicate InCurve(o: seq<int>, c: int, piece: seq<int>)
    requires 0 <= c < |o| - 1
  {
    InSpan(piece, o[c], o[c + 1])
  }

  /** Pieces of non-empty runs inside `0 .. size-1` are non-empty and inside `b .. b+size-1`. */
  lemma RunPiecesInSpan(r: seq<IndexRange>, b: int, size: int, cyclic: bool)
    requires forall k :: 0 <= k < |r| ==> 0 < r[k].size && 0 <= r[k].start && r[k].End() <= size
    ensures forall j :: 0 <= j < |RunPieces(r, b, size, cyclic)| ==> InSpan(RunPieces(r, b, size, cyclic)[j], b, b + size)
  {
    var skip := if SelfJoined(r, size, cyclic) then 1 else 0;
    if |r| > 0 {
      PieceAt(r, b, size, cyclic, skip);
    } else {
      assert RunPieces(r, b, size, cyclic) == [];
    }
    forall j | 0 <= j < |RunPieces(r, b, size, cyclic)| ensures InSpan(RunPieces(r, b, size, cyclic)[j], b, b + size) {
      RunPieceInSpan(r, b, size, cyclic, j + skip);
    }
  }

  /** The piece of `RunPiecesInSpan` that run `i` starts. */
  lemma RunPieceInSpan(r: seq<IndexRange>, b: int, size: int, cyclic: bool, i: int)
    requires forall k :: 0 <= k < |r| ==> 0 < r[k].size && 0 <= r[k].start && r[k].End() <= size
    requires var skip := if SelfJoined(r, size, cyclic) then 1 else 0; skip <= i < |r|
    ensures var skip := if SelfJoined(r, size, cyclic) then 1 else 0;
      InSpan(RunPieces(r, b, size, cyclic)[i - skip], b, b + size)
  {
    PieceAt(r, b, size, cyclic, i);
    RunInSpan(r[i], b, size);
    if SelfJoined(r, size, cyclic) && i == |r| - 1 {
      RunInSpan(r[0], b, size);
      InSpanConcat(r[i].Shift(b).Indices(), r[0].Shift(b).Indices(), b, b + size);
    }
  }

  /** The points of a non-empty run inside `0 .. size-1`, shifted by `b`. */
  lemma RunInSpan(x: IndexRange, b: int, size: int)
    requires 0 < x.size && 0 <= x.start && x.End() <= size
    ensures InSpan(x.Shift(b).Indices(), b, b + size)
  {
    RangeAt(x.start + b, x.start + b + x.size);
  }

  lemma InSpanConcat(p: seq<int>, q: seq<int>, lo: int, hi: int)
    requires InSpan(p, lo, hi) && InSpan(q, lo, hi)
    ensures InSpan(p + q, lo, hi)
  {
  }

  /** Each piece of curve `c` is non-empty and lies inside curve `c`. */
  lemma CurvePiecesInCurve(o: seq<int>, cyc: seq<bool>, del: seq<bool>, c: int)
    requires Input(o, cyc, del) && 0 <= c < CurvesNum(o)
    ensures forall j :: 0 <= j < |CurvePieces(o, cyc, del, c)| ==> InCurve(o, c, CurvePieces(o, cyc, del, c)[j])
  {
    var t := del[o[c]..o[c + 1]];
    FindAllRangesMaximal(t, false);
    RunPiecesInSpan(CurveRanges(o, cyc, del, c), o[c], o[c + 1] - o[c], cyc[c]);
  }

  /**
   * Every new curve is non-empty, comes from a curve before `k`, lies inside
   * that curve, and is cyclic exactly when `is_cyclic` held for that curve.
   */
  lemma {:induction false} PiecesOrigin(o: seq<int>, cyc: seq<bool>, del: seq<bool>, k: int)
    requires Input(o, cyc, del) && 0 <= k <= CurvesNum(o)
    ensures forall j :: 0 <= j < |AllPieces(o, cyc, del, k)| ==>
      0 <= AllCurves(o, cyc, del, k)[j] < k &&
      InCurve(o, AllCurves(o, cyc, del, k)[j], AllPieces(o, cyc, del, k)[j]) &&
      AllCyclic(o, cyc, del, k)[j] == KeepsCyclic(o, cyc, del, AllCurves(o, cyc, del, k)[j])
  {
    if k > 0 {
      PiecesOrigin(o, cyc, del, k - 1);
      CurvePiecesInCurve(o, cyc, del, k - 1);
      var before := |AllPieces(o, cyc, del, k - 1)|;
      forall j | before <= j < |AllPieces(o, cyc, del, k)|
        ensures AllCurves(o, cyc, del, k)[j] == k - 1
        ensures AllPieces(o, cyc, del, k)[j] == CurvePieces(o, cyc, del, k - 1)[j - before]
        ensures AllCyclic(o, cyc, del, k)[j] == KeepsCyclic(o, cyc, del, k - 1)
      {
      }
    }
  }

  /** New curves come in the order of their source curves. */
  lemma {:induction false} CurveMapSorted(o: seq<int>, cyc: seq<bool>, del: seq<bool>, k: int)
    requires Input(o, cyc, del) && 0 <= k <= CurvesNum(o)
    ensures forall j :: 0 <= j < |AllCurves(o, cyc, del, k)| ==> 0 <= AllCurves(o, cyc, del, k)[j] < k
    ensures Ascending(AllCurves(o, cyc, del, k))
  {
    if k > 0 {
      CurveMapSorted(o, cyc, del, k - 1);
      var cs := AllCurves(o, cyc, del, k - 1);
      AscendingAppend(cs, |CurvePieces(o, cyc, del, k - 1)|, k - 1);
    }
  }

  predicate Ascending(xs: seq<int>) {
    forall i, j :: 0 <= i < j < |xs| ==> xs[i] <= xs[j]
  }

  /** Appending copies of a value at least as large as every entry keeps a sequence ascending. */
  lemma AscendingAppend(xs: seq<int>, n: nat, v: int)
    requires Ascending(xs) && forall j :: 0 <= j < |xs| ==> xs[j] < v
    ensures Ascending(xs + Filled(n, v))
    ensures forall j :: 0 <= j < |xs + Filled(n, v)| ==> (xs + Filled(n, v))[j] <= v
  {
  }


  /** No point of `t` is deleted. */
  predicate NoneDeleted(t: seq<bool>) {
    forall j :: 0 <= j < |t| ==> !t[j]
  }

  /**
   * With `r` the maximal surviving runs of `t`, the curve stays cyclic exactly
   * when it was cyclic, has points and loses none of them.
   */
  lemma StaysCyclicIff(r: seq<IndexRange>, t: seq<bool>, cyclic: bool)
    requires MaximalRuns(t, false, 0, r)
    ensures StaysCyclic(r, |t|, cyclic) <==> cyclic && |t| > 0 && NoneDeleted(t)
  {
    if cyclic && |t| > 0 && NoneDeleted(t) {
      assert !t[0];
      var k :| 0 <= k < |r| && r[k].start <= 0 < r[k].End();
      assert k == 0;
      assert r[0].End() == |t|;
      FirstRunBelowEnd(r, t);
    }
  }

  /** Of two or more maximal runs, the first ends before the last point. */
  lemma FirstRunBelowEnd(r: seq<IndexRange>, t: seq<bool>)
    requires MaximalRuns(t, false, 0, r)
    ensures |r| >= 2 ==> r[0].End() < |t|
  {
    if |r| >= 2 {
      assert r[0].End() < r[1].start < r[1].End();
    }
  }

  /** `find_all_ranges` finds one run covering the whole curve exactly when no point is deleted. */
  lemma StaysCyclicRanges(t: seq<bool>, cyclic: bool)
    ensures StaysCyclic(FindAllRanges(t, false), |t|, cyclic) <==> cyclic && |t| > 0 && NoneDeleted(t)
  {
    FindAllRangesMaximal(t, false);
    StaysCyclicIff(FindAllRanges(t, false), t, cyclic);
  }

  lemma KeepsCyclicIff(o: seq<int>, cyc: seq<bool>, del: seq<bool>, c: int)
    requires Input(o, cyc, del) && 0 <= c < CurvesNum(o)
    ensures KeepsCyclic(o, cyc, del, c) <==>
      cyc[c] && o[c] < o[c + 1] && forall p :: o[c] <= p < o[c + 1] ==> !del[p]
  {
    StaysCyclicRanges(del[o[c]..o[c + 1]], cyc[c]);
    SliceSurvives(del, o[c], o[c + 1]);
  }

  lemma SliceSurvives(del: seq<bool>, lo: int, hi: int)
    requires 0 <= lo <= hi <= |del|
    ensures NoneDeleted(del[lo..hi]) <==> (forall p :: lo <= p < hi ==> !del[p])
  {
    var t := del[lo..hi];
    if NoneDeleted(t) {
      forall p | lo <= p < hi ensures !del[p] {
        assert !t[p - lo];
      }
    }
  }

  /** The result is a well-formed geometry: valid offsets, one curve per entry of the curve maps. */
  lemma SplitShape(o: seq<int>, cyc: seq<bool>, del: seq<bool>, s: Split)
    requires Input(o, cyc, del) && s == Expected(o, cyc, del)
    ensures ValidOffsets(s.offsets)
    ensures CurvesNum(s.offsets) == |s.curveMap| == |s.cyclic|
    ensures PointsNum(s.offsets) == |s.pointMap|
  {
    var ps := AllPieces(o, cyc, del, CurvesNum(o));
    if ps != [] {
      FlattenSlice(ps, 0);
    } else {
      assert Lengths(ps) == [];
    }
  }

  /** Every surviving point appears in the point map exactly once, and no deleted point does. */
  lemma SplitSurvivors(o: seq<int>, cyc: seq<bool>, del: seq<bool>, s: Split)
    requires Input(o, cyc, del) && s == Expected(o, cyc, del)
    ensures multiset(s.pointMap) == multiset(IndicesIn(del, false, 0, |del|))
  {
    var n := CurvesNum(o);
    assert o[n] == |del|;
    AllPiecesSurvivors(o, cyc, del, n);
    BagIsMultiset(Flatten(AllPieces(o, cyc, del, n)));
    BagIsMultiset(IndicesIn(del, false, 0, |del|));
  }

  /** When no curve is self-joined, the point map is the survivors in ascending order. */
  lemma SplitInOrder(o: seq<int>, cyc: seq<bool>, del: seq<bool>, s: Split)
    requires Input(o, cyc, del) && s == Expected(o, cyc, del)
    requires forall c :: 0 <= c < CurvesNum(o) ==> !CurveSelfJoined(o, cyc, del, c)
    ensures s.pointMap == IndicesIn(del, false, 0, |del|)
  {
    var n := CurvesNum(o);
    assert o[n] == |del|;
    AllPiecesInOrder(o, cyc, del, n);
  }

  /** The points of new curve `k` in the point map (its slice between two offsets). */
  function CurvePoints(s: Split, k: int): seq<int>
    requires 0 <= k < |s.offsets| - 1 && 0 <= s.offsets[k] <= s.offsets[k + 1] <= |s.pointMap|
  {
    s.pointMap[s.offsets[k]..s.offsets[k + 1]]
  }

  /** Every new curve is non-empty and lies inside its source curve. */
  lemma SplitOrigins(o: seq<int>, cyc: seq<bool>, del: seq<bool>, s: Split)
    requires Input(o, cyc, del) && s == Expected(o, cyc, del)
    ensures ValidOffsets(s.offsets) && |s.offsets| == |s.curveMap| + 1 && PointsNum(s.offsets) == |s.pointMap|
    ensures forall k :: 0 <= k < |s.curveMap| ==>
      0 <= s.curveMap[k] < CurvesNum(o) && InCurve(o, s.curveMap[k], CurvePoints(s, k))
  {
    SplitShape(o, cyc, del, s);
    var ps := AllPieces(o, cyc, del, CurvesNum(o));
    PiecesOrigin(o, cyc, del, CurvesNum(o));
    forall k | 0 <= k < |ps|
      ensures CurvePoints(s, k) == ps[k]
    {
      FlattenSlice(ps, k);
    }
  }

  /** A new curve is cyclic exactly when its source curve was cyclic and lost no point. */
  lemma SplitCyclic(o: seq<int>, cyc: seq<bool>, del: seq<bool>, s: Split)
    requires Input(o, cyc, del) && s == Expected(o, cyc, del)
    ensures |s.cyclic| == |s.curveMap|
    ensures forall k :: 0 <= k < |s.curveMap| ==>
      0 <= s.curveMap[k] < CurvesNum(o) &&
      (s.cyclic[k] <==> cyc[s.curveMap[k]] && forall p :: o[s.curveMap[k]] <= p < o[s.curveMap[k] + 1] ==> !del[p])
  {
    var ps := AllPieces(o, cyc, del, CurvesNum(o));
    PiecesOrigin(o, cyc, del, CurvesNum(o));
    forall k | 0 <= k < |ps|
      ensures s.cyclic[k] <==> cyc[s.curveMap[k]] && forall p :: o[s.curveMap[k]] <= p < o[s.curveMap[k] + 1] ==> !del[p]
    {
      var c := s.curveMap[k];
      assert o[c] <= ps[k][0] < o[c + 1];
      KeepsCyclicIff(o, cyc, del, c);
    }
  }

  /** New curves come in the order of their source curves. */
  lemma SplitSorted(o: seq<int>, cyc: seq<bool>, del: seq<bool>, s: Split)
    requires Input(o, cyc, del) && s == Expected(o, cyc, del)
    ensures Ascending(s.curveMap)
  {
    CurveMapSorted(o, cyc, del, CurvesNum(o));
  }
}
