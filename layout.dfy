/**
 * Curve layouts of a grease-pencil drawing.
 *
 * A drawing stores its points in one flat range; `offsets` cuts that range
 * into curves (strokes): curve `c` owns the points `offsets[c] .. offsets[c+1]-1`.
 * An index mask is a strictly increasing sequence of indices, the form in
 * which the editor hands over a selection of points or of curves.
 */
module Layout {

  /** A value that may be missing (an attribute that a geometry may lack). */
  datatype Option<T> = None | Some(value: T)

  /** An offsets array: starts at 0 and never decreases. */
  predicate ValidOffsets(o: seq<int>) {
    |o| >= 1 && o[0] == 0 &&
    forall i, j :: 0 <= i <= j < |o| ==> o[i] <= o[j]
  }

  function CurvesNum(o: seq<int>): nat
    requires |o| >= 1
  {
    |o| - 1
  }

  function PointsNum(o: seq<int>): int
    requires |o| >= 1
  {
    o[|o| - 1]
  }

  /** The number of points of curve `c` (`points_by_curve[c].size()`). */
  function CurveSize(o: seq<int>, c: int): int
    requires ValidOffsets(o) && 0 <= c < CurvesNum(o)
  {
    o[c + 1] - o[c]
  }

  /** A selection given as an index mask: sorted, no duplicates, inside `0 .. n-1`. */
  predicate IsMask(m: seq<int>, n: int) {
    (forall i :: 0 <= i < |m| ==> 0 <= m[i] < n) &&
    (forall i, j :: 0 <= i < j < |m| ==> m[i] < m[j])
  }

  /** Entry `i` of a mask is at least `i`. */
  lemma {:induction false} MaskAtLeast(m: seq<int>, n: int, i: int)
    requires IsMask(m, n) && 0 <= i < |m|
    ensures m[i] >= i
  {
    if i > 0 {
      MaskAtLeast(m, n, i - 1);
    }
  }

  /** A mask of indices below `n` has at most `n` entries. */
  lemma MaskSize(m: seq<int>, n: int)
    requires IsMask(m, n)
    ensures |m| == 0 || |m| <= n
  {
    if |m| > 0 {
      MaskAtLeast(m, n, |m| - 1);
    }
  }

  /** The integers `lo .. hi-1` in ascending order (an `IndexRange` as a sequence). */
  function Range(lo: int, hi: int): (r: seq<int>)
    requires lo <= hi
    ensures |r| == hi - lo
    decreases hi - lo
  {
    if lo == hi then [] else [lo] + Range(lo + 1, hi)
  }

  /** Entry `i` of `Range(lo, hi)` is `lo + i`. */
  lemma {:induction false} RangeAt(lo: int, hi: int)
    requires lo <= hi
    ensures forall i :: 0 <= i < hi - lo ==> Range(lo, hi)[i] == lo + i
    decreases hi - lo
  {
    if lo < hi {
      RangeAt(lo + 1, hi);
    }
  }

  lemma PrefixSnoc<T>(s: seq<T>, k: nat)
    requires k < |s|
    ensures s[..k + 1] == s[..k] + [s[k]]
  {
  }

  lemma SuffixCons<T>(s: seq<T>, k: nat)
    requires k < |s|
    ensures s[k..] == [s[k]] + s[k + 1..]
  {
  }

  lemma TakeDrop<T>(s: seq<T>, k: nat)
    requires k <= |s|
    ensures s == s[..k] + s[k..]
  {
  }

  lemma ConcatDropLast<T>(a: seq<T>, b: seq<T>)
    requires b != []
    ensures (a + b)[..|a + b| - 1] == a + b[..|b| - 1] && (a + b)[|a + b| - 1] == b[|b| - 1]
  {
  }

  lemma AppendAssoc<T>(a: seq<T>, b: seq<T>, c: seq<T>)
    ensures (a + b) + c == a + (b + c)
  {
  }

  lemma FilledSnoc<T>(n: nat, v: T)
    ensures Filled(n + 1, v) == Filled(n, v) + [v]
  {
  }

  lemma FilledCons<T>(n: nat, v: T)
    ensures Filled(n + 1, v) == [v] + Filled(n, v)
  {
  }

  lemma FilledConcat<T>(a: nat, b: nat, v: T)
    ensures Filled(a + b, v) == Filled(a, v) + Filled(b, v)
  {
  }

  /** `Range(lo, hi)` splits at any `mid` in between. */
  lemma {:induction false} RangeConcat(lo: int, mid: int, hi: int)
    requires lo <= mid <= hi
    ensures Range(lo, hi) == Range(lo, mid) + Range(mid, hi)
    decreases mid - lo
  {
    if lo < mid {
      RangeConcat(lo + 1, mid, hi);
    }
  }

  lemma {:induction false} RangeSnoc(lo: int, hi: int)
    requires lo <= hi
    ensures Range(lo, hi + 1) == Range(lo, hi) + [hi]
    decreases hi - lo
  {
    if lo < hi {
      RangeSnoc(lo + 1, hi);
    }
  }

  lemma SliceAll<T>(s: seq<T>)
    ensures s[0..|s|] == s && s[..|s|] == s
  {
  }

  lemma SliceSnoc<T>(s: seq<T>, lo: int, hi: int)
    requires 0 <= lo < hi <= |s|
    ensures s[lo..hi] == s[lo..hi - 1] + [s[hi - 1]]
  {
  }

  /** `n` copies of `v`, as a freshly filled array holds them. */
  function Filled<T>(n: nat, v: T): (r: seq<T>)
    ensures |r| == n
    ensures forall i :: 0 <= i < n ==> r[i] == v
  {
    seq(n, _ => v)
  }

  /**
   * An attribute looked up with a default (`lookup_or_default`): the stored
   * values, or `d` everywhere when the geometry has no such attribute.
   */
  function OrDefault<T>(attr: Option<seq<T>>, n: nat, d: T): (r: seq<T>)
    requires attr.Some? ==> |attr.value| == n
    ensures |r| == n
  {
    if attr.Some? then attr.value else Filled(n, d)
  }

  /** `IndexMask::to_bools`: entry `i` is true exactly when `i` is in the mask. */
  function ToBools(m: seq<int>, n: nat): (b: seq<bool>)
    ensures |b| == n
  {
    seq(n, i => i in m)
  }

  /** Concatenation of a sequence of sequences, in order. */
  function Flatten<T>(ss: seq<seq<T>>): seq<T>
  {
    if ss == [] then [] else Flatten(ss[..|ss| - 1]) + ss[|ss| - 1]
  }

  function Lengths<T>(ss: seq<seq<T>>): (r: seq<nat>)
    ensures |r| == |ss|
    ensures forall i :: 0 <= i < |ss| ==> r[i] == |ss[i]|
  {
    seq(|ss|, i requires 0 <= i < |ss| => |ss[i]|)
  }

  function Sum(xs: seq<int>): int
  {
    if xs == [] then 0 else Sum(xs[..|xs| - 1]) + xs[|xs| - 1]
  }

  /** The multiset of the elements of `s`, built one element at a time. */
  ghost function Bag(s: seq<int>): multiset<int>
  {
    if s == [] then multiset{} else Bag(s[..|s| - 1]) + multiset{s[|s| - 1]}
  }

  lemma {:induction false} BagConcat(a: seq<int>, b: seq<int>)
    ensures Bag(a + b) == Bag(a) + Bag(b)
    decreases |b|
  {
    if b == [] {
      assert a + b == a;
    } else {
      ConcatDropLast(a, b);
      BagConcat(a, b[..|b| - 1]);
    }
  }

  lemma {:induction false} BagSize(s: seq<int>)
    ensures |Bag(s)| == |s|
  {
    if s != [] {
      BagSize(s[..|s| - 1]);
    }
  }

  lemma {:induction false} BagIsMultiset(s: seq<int>)
    ensures Bag(s) == multiset(s)
  {
    if s != [] {
      BagIsMultiset(s[..|s| - 1]);
      assert s == s[..|s| - 1] + [s[|s| - 1]];
    }
  }

  /**
   * `offset_indices::accumulate_counts_to_offsets`: the offsets whose group
   * sizes are `counts`.
   */
  function PrefixSums(counts: seq<nat>): (o: seq<int>)
    ensures |o| == |counts| + 1
    ensures ValidOffsets(o)
    ensures forall i :: 0 <= i < |counts| ==> o[i + 1] == o[i] + counts[i]
    ensures o[|counts|] == Sum(counts)
  {
    if counts == [] then [0]
    else
      var p := PrefixSums(counts[..|counts| - 1]);
      assert counts[..|counts| - 1] + [counts[|counts| - 1]] == counts;
      p + [p[|p| - 1] + counts[|counts| - 1]]
  }

  lemma {:induction false} FlattenConcat<T>(a: seq<seq<T>>, b: seq<seq<T>>)
    ensures Flatten(a + b) == Flatten(a) + Flatten(b)
    decreases |b|
  {
    if b == [] {
      assert a + b == a;
    } else {
      ConcatDropLast(a, b);
      FlattenConcat(a, b[..|b| - 1]);
    }
  }

  lemma FlattenSnoc<T>(ss: seq<seq<T>>, x: seq<T>)
    ensures Flatten(ss + [x]) == Flatten(ss) + x
  {
    assert (ss + [x])[..|ss|] == ss;
  }

  lemma LengthsConcat<T>(a: seq<seq<T>>, b: seq<seq<T>>)
    ensures Lengths(a + b) == Lengths(a) + Lengths(b)
  {
  }

  lemma FlattenSingle<T>(x: seq<T>)
    ensures Flatten([x]) == x
  {
    assert [x][..0] == [];
  }

  lemma {:induction false} FlattenLength<T>(ss: seq<seq<T>>)
    ensures |Flatten(ss)| == Sum(Lengths(ss))
  {
    if ss != [] {
      FlattenLength(ss[..|ss| - 1]);
      assert Lengths(ss)[..|ss| - 1] == Lengths(ss[..|ss| - 1]);
    }
  }

  lemma {:induction false} PrefixSumsAt(counts: seq<nat>, k: nat)
    requires k <= |counts|
    ensures PrefixSums(counts)[k] == Sum(counts[..k])
  {
    if k > 0 {
      PrefixSumsAt(counts, k - 1);
      assert counts[..k][..k - 1] == counts[..k - 1];
    }
  }

  lemma FlattenSplit<T>(ss: seq<seq<T>>, k: nat)
    requires k < |ss|
    ensures Flatten(ss) == Flatten(ss[..k]) + ss[k] + Flatten(ss[k + 1..])
  {
    PrefixSnoc(ss, k);
    FlattenSnoc(ss[..k], ss[k]);
    TakeDrop(ss, k + 1);
    FlattenConcat(ss[..k + 1], ss[k + 1..]);
  }

  lemma OffsetOfGroup<T>(ss: seq<seq<T>>, k: nat)
    requires k <= |ss|
    ensures PrefixSums(Lengths(ss))[k] == |Flatten(ss[..k])|
  {
    PrefixSumsAt(Lengths(ss), k);
    assert Lengths(ss)[..k] == Lengths(ss[..k]);
    FlattenLength(ss[..k]);
  }

  /**
   * The group `k` of the offsets built from the lengths of `ss` is exactly
   * `ss[k]` inside the flattened sequence: counts turned into offsets locate
   * each group.
   */
  lemma {:induction false} FlattenSlice<T>(ss: seq<seq<T>>, k: nat)
    requires k < |ss|
    ensures var o := PrefixSums(Lengths(ss));
      o[|ss|] == |Flatten(ss)| && o[k] <= o[k + 1] <= |Flatten(ss)| &&
      Flatten(ss)[o[k]..o[k + 1]] == ss[k]
  {
    FlattenSplit(ss, k);
    OffsetOfGroup(ss, k);
    OffsetOfGroup(ss, |ss|);
    assert ss[..|ss|] == ss;
  }

  lemma {:induction false} SumConcat(a: seq<int>, b: seq<int>)
    ensures Sum(a + b) == Sum(a) + Sum(b)
    decreases |b|
  {
    if b == [] {
      assert a + b == a;
    } else {
      ConcatDropLast(a, b);
      SumConcat(a, b[..|b| - 1]);
    }
  }

  /**
   * The curve that owns point `p`: the last curve whose first offset is at
   * most `p` (empty curves own no point, so the owner is unique).
   */
  function CurveIndex(o: seq<int>, p: int): (c: nat)
    requires ValidOffsets(o) && 0 <= p < PointsNum(o)
    ensures c < CurvesNum(o) && o[c] <= p < o[c + 1]
  {
    CurveIndexBelow(o, p, CurvesNum(o))
  }

  function CurveIndexBelow(o: seq<int>, p: int, k: nat): (c: nat)
    requires ValidOffsets(o) && 0 <= p && k < |o| && p < o[k]
    ensures c < k && o[c] <= p < o[c + 1]
  {
    if o[k - 1] <= p then k - 1 else CurveIndexBelow(o, p, k - 1)
  }

  lemma CurveIndexUnique(o: seq<int>, p: int, c: nat)
    requires ValidOffsets(o) && c < CurvesNum(o) && o[c] <= p < o[c + 1]
    ensures CurveIndex(o, p) == c
  {
  }
}
