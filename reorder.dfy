/**
 * The stroke reorder operator: `get_reordered_indices` computes, for a
 * selection of curves, the new draw order as a table `indices` in which new
 * curve `j` is old curve `indices[j]` (the form `reorder_curves_geometry`
 * consumes). Curves later in the table are drawn in front.
 */
module Reorder {
  import opened Layout
  import opened Runs

  datatype Direction = Top | Up | Down | Bottom

  /** `s` with the entries at `i` and `j` exchanged (`std::swap`). */
  function Swap(s: seq<int>, i: int, j: int): seq<int>
    requires 0 <= i < |s| && 0 <= j < |s|
  {
    s[i := s[j]][j := s[i]]
  }

  /** The curves of `0 .. n-1` that are not selected, ascending (`IndexMask::complement`). */
  function Complement(m: seq<int>, n: nat): seq<int>
  {
    IndicesIn(ToBools(m, n), false, 0, n)
  }

  /** Every curve up to `c` is selected: `c` touches the beginning without gaps. */
  predicate Packed(sel: seq<bool>, c: int)
    requires c < |sel|
  {
    forall t :: 0 <= t <= c ==> sel[t]
  }

  /** Every curve from `c` to the last is selected: `c` touches the end without gaps. */
  predicate PackedEnd(sel: seq<bool>, c: int)
    requires 0 <= c
  {
    forall t :: c <= t < |sel| ==> sel[t]
  }

  /** The largest unselected curve at or below `j`. */
  function LastUnselected(sel: seq<bool>, j: int): (t: int)
    requires 0 <= j < |sel| && !Packed(sel, j)
    ensures 0 <= t <= j && !sel[t]
    ensures forall u :: t < u <= j ==> sel[u]
    decreases j
  {
    if !sel[j] then j
    else
      assert j > 0 && !Packed(sel, j - 1) by {
        var t :| 0 <= t <= j && !sel[t];
      }
      LastUnselected(sel, j - 1)
  }

  /** The smallest unselected curve at or above `j`. */
  function FirstUnselected(sel: seq<bool>, j: int): (t: int)
    requires 0 <= j < |sel| && !PackedEnd(sel, j)
    ensures j <= t < |sel| && !sel[t]
    ensures forall u :: j <= u < t ==> sel[u]
    decreases |sel| - j
  {
    if !sel[j] then j
    else
      assert j + 1 < |sel| && !PackedEnd(sel, j + 1) by {
        var t :| j <= t < |sel| && !sel[t];
      }
      FirstUnselected(sel, j + 1)
  }

  /**
   * Send backward: every block of selected curves that does not already touch
   * the beginning moves one place down, and the unselected curve just below
   * the block moves to the block's top.
   */
  function DownTarget(sel: seq<bool>, j: int): int
    requires 0 <= j < |sel|
  {
    if j + 1 < |sel| && sel[j + 1] && !Packed(sel, j + 1) then j + 1
    else if sel[j] && !Packed(sel, j) then LastUnselected(sel, j)
    else j
  }

  /**
   * Bring forward: every block of selected curves that does not already touch
   * the end moves one place up, and the unselected curve just above the block
   * moves to the block's bottom.
   */
  function UpTarget(sel: seq<bool>, j: int): int
    requires 0 <= j < |sel|
  {
    if 0 < j && sel[j - 1] && !PackedEnd(sel, j - 1) then j - 1
    else if sel[j] && !PackedEnd(sel, j) then FirstUnselected(sel, j)
    else j
  }

  /** The send-backward order: position `j` holds `DownTarget(sel, j)`. */
  function DownOrder(sel: seq<bool>): (r: seq<int>)
    ensures |r| == |sel|
  {
    DownOrderFrom(sel, 0)
  }

  function DownOrderFrom(sel: seq<bool>, j: nat): (r: seq<int>)
    requires j <= |sel|
    ensures |r| == |sel| - j
    decreases |sel| - j
  {
    if j == |sel| then [] else [DownTarget(sel, j)] + DownOrderFrom(sel, j + 1)
  }

  /** The bring-forward order: position `j` holds `UpTarget(sel, j)`. */
  function UpOrder(sel: seq<bool>): (r: seq<int>)
    ensures |r| == |sel|
  {
    UpOrderFrom(sel, 0)
  }

  function UpOrderFrom(sel: seq<bool>, j: nat): (r: seq<int>)
    requires j <= |sel|
    ensures |r| == |sel| - j
    decreases |sel| - j
  {
    if j == |sel| then [] else [UpTarget(sel, j)] + UpOrderFrom(sel, j + 1)
  }

  lemma {:induction false} DownOrderFromAt(sel: seq<bool>, j: nat)
    requires j <= |sel|
    ensures forall i :: j <= i < |sel| ==> DownOrderFrom(sel, j)[i - j] == DownTarget(sel, i)
    decreases |sel| - j
  {
    if j < |sel| {
      DownOrderFromAt(sel, j + 1);
    }
  }

  lemma {:induction false} UpOrderFromAt(sel: seq<bool>, j: nat)
    requires j <= |sel|
    ensures forall i :: j <= i < |sel| ==> UpOrderFrom(sel, j)[i - j] == UpTarget(sel, i)
    decreases |sel| - j
  {
    if j < |sel| {
      UpOrderFromAt(sel, j + 1);
    }
  }

  lemma DownOrderAt(sel: seq<bool>)
    ensures forall j :: 0 <= j < |sel| ==> DownOrder(sel)[j] == DownTarget(sel, j)
  {
    DownOrderFromAt(sel, 0);
  }

  lemma UpOrderAt(sel: seq<bool>)
    ensures forall j :: 0 <= j < |sel| ==> UpOrder(sel)[j] == UpTarget(sel, j)
  {
    UpOrderFromAt(sel, 0);
  }

  /**
   * Send backward moves a maximal selected block `s .. e-1` that does not
   * touch the beginning one place down: its curves take positions
   * `s-1 .. e-2`, and the unselected curve `s-1` below it goes to `e-1`.
   */
  lemma DownBlock(sel: seq<bool>, s: int, e: int)
    requires 0 < s < e <= |sel| && !sel[s - 1] && (e == |sel| || !sel[e])
    requires forall t :: s <= t < e ==> sel[t]
    ensures DownOrder(sel)[s - 1..e] == Range(s, e) + [s - 1]
  {
    var r, b := DownOrder(sel)[s - 1..e], Range(s, e) + [s - 1];
    forall k | 0 <= k < |b| ensures r[k] == b[k] {
      DownBlockAt(sel, s, e, k);
    }
  }

  /** Entry `k` of the block `s-1 .. e-1` that `DownBlock` describes. */
  lemma DownBlockAt(sel: seq<bool>, s: int, e: int, k: int)
    requires 0 < s < e <= |sel| && !sel[s - 1] && (e == |sel| || !sel[e])
    requires forall t :: s <= t < e ==> sel[t]
    requires 0 <= k <= e - s
    ensures DownOrder(sel)[s - 1 + k] == (Range(s, e) + [s - 1])[k]
  {
    DownOrderAt(sel);
    RangeAt(s, e);
    DownBlockTarget(sel, s, e, s - 1 + k);
  }

  lemma DownBlockTarget(sel: seq<bool>, s: int, e: int, j: int)
    requires 0 < s < e <= |sel| && !sel[s - 1] && (e == |sel| || !sel[e])
    requires forall t :: s <= t < e ==> sel[t]
    requires s - 1 <= j < e
    ensures DownTarget(sel, j) == if j < e - 1 then j + 1 else s - 1
  {
    if j < e - 1 {
      assert !Packed(sel, j + 1) by { assert !sel[s - 1]; }
    } else {
      LastUnselectedIs(sel, s, j);
    }
  }

  /** Below a run of selected curves `s .. j`, the largest unselected curve is `s-1`. */
  lemma {:induction false} LastUnselectedIs(sel: seq<bool>, s: int, j: int)
    requires 0 < s && s - 1 <= j < |sel| && !sel[s - 1]
    requires forall t :: s <= t <= j ==> sel[t]
    ensures !Packed(sel, j) && LastUnselected(sel, j) == s - 1
    decreases j
  {
    assert !Packed(sel, j) by { assert !sel[s - 1]; }
    if j >= s {
      LastUnselectedIs(sel, s, j - 1);
    }
  }

  /**
   * Under send backward, a curve of a selected block packed against the
   * beginning, and an unselected curve with no selected curve right above it,
   * keep their places.
   */
  lemma DownFixed(sel: seq<bool>, j: int)
    requires 0 <= j < |sel|
    requires (sel[j] && Packed(sel, j)) || (!sel[j] && (j + 1 == |sel| || !sel[j + 1]))
    ensures DownOrder(sel)[j] == j
  {
    DownOrderAt(sel);
    if sel[j] && j + 1 < |sel| && sel[j + 1] {
      assert Packed(sel, j + 1);
    }
  }

  /**
   * Bring forward moves a maximal selected block `s .. e-1` that does not
   * touch the end one place up: its curves take positions `s+1 .. e`, and
   * the unselected curve `e` above it goes to `s`.
   */
  lemma UpBlock(sel: seq<bool>, s: int, e: int)
    requires 0 <= s < e < |sel| && !sel[e] && (s == 0 || !sel[s - 1])
    requires forall t :: s <= t < e ==> sel[t]
    ensures UpOrder(sel)[s..e + 1] == [e] + Range(s, e)
  {
    var r, b := UpOrder(sel)[s..e + 1], [e] + Range(s, e);
    forall k | 0 <= k < |b| ensures r[k] == b[k] {
      UpBlockAt(sel, s, e, k);
    }
  }

  /** Entry `k` of the block `s .. e` that `UpBlock` describes. */
  lemma UpBlockAt(sel: seq<bool>, s: int, e: int, k: int)
    requires 0 <= s < e < |sel| && !sel[e] && (s == 0 || !sel[s - 1])
    requires forall t :: s <= t < e ==> sel[t]
    requires 0 <= k <= e - s
    ensures UpOrder(sel)[s + k] == ([e] + Range(s, e))[k]
  {
    UpOrderAt(sel);
    RangeAt(s, e);
    UpBlockTarget(sel, s, e, s + k);
  }

  lemma UpBlockTarget(sel: seq<bool>, s: int, e: int, j: int)
    requires 0 <= s < e < |sel| && !sel[e] && (s == 0 || !sel[s - 1])
    requires forall t :: s <= t < e ==> sel[t]
    requires s <= j <= e
    ensures UpTarget(sel, j) == if j == s then e else j - 1
  {
    if j == s {
      FirstUnselectedIs(sel, e, j);
    } else {
      assert !PackedEnd(sel, j - 1) by { assert !sel[e]; }
    }
  }

  /** Above a run of selected curves `j .. e-1`, the smallest unselected curve is `e`. */
  lemma {:induction false} FirstUnselectedIs(sel: seq<bool>, e: int, j: int)
    requires 0 <= j <= e < |sel| && !sel[e]
    requires forall t :: j <= t < e ==> sel[t]
    ensures !PackedEnd(sel, j) && FirstUnselected(sel, j) == e
    decreases e - j
  {
    assert !PackedEnd(sel, j) by { assert !sel[e]; }
    if j < e {
      FirstUnselectedIs(sel, e, j + 1);
    }
  }

  /**
   * Under bring forward, a curve of a selected block packed against the end,
   * and an unselected curve with no selected curve right below it, keep
   * their places.
   */
  lemma UpFixed(sel: seq<bool>, j: int)
    requires 0 <= j < |sel|
    requires (sel[j] && PackedEnd(sel, j)) || (!sel[j] && (j == 0 || !sel[j - 1]))
    ensures UpOrder(sel)[j] == j
  {
    UpOrderAt(sel);
    if sel[j] && 0 < j && sel[j - 1] {
      assert PackedEnd(sel, j - 1);
    }
  }

  /** The new draw order for each direction. */
  function Reordered(n: nat, m: seq<int>, d: Direction): seq<int>
  {
    match d
    case Top => Complement(m, n) + m
    case Bottom => m + Complement(m, n)
    case Down => DownOrder(ToBools(m, n))
    case Up => UpOrder(ToBools(m, n))
  }

  /** The curves flagged once the first `k` selected curves have been visited. */
  function Marked(m: seq<int>, k: nat, n: nat): (sel: seq<bool>)
    requires IsMask(m, n) && k <= |m|
    ensures |sel| == n
  {
    if k == 0 then Filled(n, false) else Marked(m, k - 1, n)[m[k - 1] := true]
  }

  /** The curves flagged once the selected curves from position `k` on have been visited. */
  function MarkedFrom(m: seq<int>, k: nat, n: nat): (sel: seq<bool>)
    requires IsMask(m, n) && k <= |m|
    ensures |sel| == n
    decreases |m| - k
  {
    if k == |m| then Filled(n, false) else MarkedFrom(m, k + 1, n)[m[k] := true]
  }

  /** Position `k` of a mask holds at least `k` and at most `n - |m| + k`. */
  lemma {:induction false} MaskBounds(m: seq<int>, n: int, k: int)
    requires IsMask(m, n) && 0 <= k < |m|
    ensures k <= m[k] <= n - |m| + k
  {
    MaskAtLeast(m, n, k);
    MaskAtMost(m, n, k);
  }

  lemma {:induction false} MaskAtLeast(m: seq<int>, n: int, k: int)
    requires IsMask(m, n) && 0 <= k < |m|
    ensures k <= m[k]
    decreases k
  {
    if k > 0 {
      MaskAtLeast(m, n, k - 1);
    }
  }

  lemma {:induction false} MaskAtMost(m: seq<int>, n: int, k: int)
    requires IsMask(m, n) && 0 <= k < |m|
    ensures m[k] <= n - |m| + k
    decreases |m| - k
  {
    if k < |m| - 1 {
      MaskAtMost(m, n, k + 1);
    }
  }

  lemma {:induction false} MarkedHolds(m: seq<int>, n: nat, k: nat)
    requires IsMask(m, n) && k <= |m|
    ensures forall t :: 0 <= t < n ==> (Marked(m, k, n)[t] <==> exists i :: 0 <= i < k && m[i] == t)
  {
    if k > 0 {
      MarkedHolds(m, n, k - 1);
    }
  }

  lemma {:induction false} MarkedFromHolds(m: seq<int>, n: nat, k: nat)
    requires IsMask(m, n) && k <= |m|
    ensures forall t :: 0 <= t < n ==> (MarkedFrom(m, k, n)[t] <==> exists i :: k <= i < |m| && m[i] == t)
    decreases |m| - k
  {
    if k < |m| {
      MarkedFromHolds(m, n, k + 1);
    }
  }

  /** Visiting every selected curve flags exactly the selection. */
  lemma MarkedAll(m: seq<int>, n: nat)
    requires IsMask(m, n)
    ensures Marked(m, |m|, n) == ToBools(m, n)
    ensures MarkedFrom(m, 0, n) == ToBools(m, n)
  {
    MarkedHolds(m, n, |m|);
    MarkedFromHolds(m, n, 0);
  }

  /** Before curve `m[k]` is visited, nothing at or above it is flagged. */
  lemma MarkedBelow(m: seq<int>, n: nat, k: nat)
    requires IsMask(m, n) && k < |m|
    ensures forall t :: m[k] <= t < n ==> !Marked(m, k, n)[t]
  {
    MarkedHolds(m, n, k);
  }

  lemma MarkedFromAbove(m: seq<int>, n: nat, k: nat, s: seq<bool>)
    requires IsMask(m, n) && k < |m| && s == MarkedFrom(m, k + 1, n)
    ensures forall t :: 0 <= t <= m[k] ==> !s[t]
  {
    MarkedFromHolds(m, n, k + 1);
  }

  /** The `k`-th selected curve touches the beginning exactly when it is curve `k`. */
  lemma {:induction false} PackedMarked(m: seq<int>, n: nat, k: nat)
    requires IsMask(m, n) && k < |m|
    ensures Packed(Marked(m, k + 1, n), m[k]) <==> m[k] == k
  {
    var s := Marked(m, k + 1, n);
    MarkedHolds(m, n, k + 1);
    MaskAtLeast(m, n, k);
    if k == 0 {
      if Packed(s, m[0]) {
        assert s[0];
      }
    } else {
      var s0 := Marked(m, k, n);
      PackedMarked(m, n, k - 1);
      MaskAtLeast(m, n, k - 1);
      if Packed(s, m[k]) {
        assert Packed(s0, m[k - 1]) by {
          forall t | 0 <= t <= m[k - 1] ensures s0[t] {
            assert s[t];
          }
        }
        assert s[k];
      }
      if m[k] == k {
        assert m[k - 1] == k - 1;
        forall t | 0 <= t <= m[k] ensures s[t] {
          if t < k {
            assert s0[t];
          }
        }
      }
    }
  }

  /**
   * The selected curve at position `k` touches the end exactly when it sits
   * as many places below the end as there are selected curves after it.
   */
  lemma {:induction false} PackedEndMarked(m: seq<int>, n: nat, k: nat)
    requires IsMask(m, n) && k < |m|
    ensures PackedEnd(MarkedFrom(m, k, n), m[k]) <==> m[k] == n - |m| + k
    decreases |m| - k
  {
    var s := MarkedFrom(m, k, n);
    MarkedFromHolds(m, n, k);
    MaskAtMost(m, n, k);
    if k == |m| - 1 {
      if PackedEnd(s, m[k]) {
        assert s[n - 1];
      }
    } else {
      var s0 := MarkedFrom(m, k + 1, n);
      PackedEndMarked(m, n, k + 1);
      MaskAtMost(m, n, k + 1);
      var top := n - |m| + k;
      if PackedEnd(s, m[k]) {
        assert PackedEnd(s0, m[k + 1]) by {
          forall t | m[k + 1] <= t < n ensures s0[t] {
            assert s[t];
          }
        }
        assert s[top];
      }
      if m[k] == top {
        assert m[k + 1] == top + 1;
        forall t | m[k] <= t < n ensures s[t] {
          if t > top {
            assert s0[t];
          }
        }
      }
    }
  }

  lemma PackedAgree(sel: seq<bool>, sel': seq<bool>, j: int)
    requires 0 <= j < |sel| == |sel'| && forall t :: 0 <= t <= j ==> sel[t] == sel'[t]
    ensures Packed(sel, j) == Packed(sel', j)
  {
  }

  lemma PackedEndAgree(sel: seq<bool>, sel': seq<bool>, j: int)
    requires 0 <= j < |sel| == |sel'| && forall t :: j <= t < |sel| ==> sel[t] == sel'[t]
    ensures PackedEnd(sel, j) == PackedEnd(sel', j)
  {
  }

  /** Below `c` the flags agree, so the largest unselected curve is the same. */
  lemma {:induction false} LastUnselectedAgree(sel: seq<bool>, sel': seq<bool>, j: int)
    requires 0 <= j < |sel| <= |sel'| && forall t :: 0 <= t <= j ==> sel[t] == sel'[t]
    requires !Packed(sel, j)
    ensures !Packed(sel', j) && LastUnselected(sel', j) == LastUnselected(sel, j)
    decreases j
  {
    var t :| 0 <= t <= j && !sel[t];
    assert !sel'[t];
    if sel[j] {
      assert !Packed(sel, j - 1);
      LastUnselectedAgree(sel, sel', j - 1);
    }
  }

  lemma {:induction false} FirstUnselectedAgree(sel: seq<bool>, sel': seq<bool>, j: int)
    requires |sel| == |sel'| && 0 <= j < |sel| && forall t :: j <= t < |sel| ==> sel[t] == sel'[t]
    requires !PackedEnd(sel, j)
    ensures !PackedEnd(sel', j) && FirstUnselected(sel', j) == FirstUnselected(sel, j)
    decreases |sel| - j
  {
    var t :| j <= t < |sel| && !sel[t];
    assert !sel'[t];
    if sel[j] {
      assert !PackedEnd(sel, j + 1);
      FirstUnselectedAgree(sel, sel', j + 1);
    }
  }

  /**
   * Flagging one more curve `c`, above every flagged curve, changes the
   * send-backward order by one `std::swap` of `c` with the curve below,
   * unless `c` touches the beginning.
   */
  lemma DownStep(sel: seq<bool>, sel': seq<bool>, c: int)
    requires 0 <= c < |sel| && sel' == sel[c := true]
    requires forall t :: c <= t < |sel| ==> !sel[t]
    ensures !Packed(sel', c) ==> 0 < c
    ensures DownOrder(sel') == if !Packed(sel', c) then Swap(DownOrder(sel), c, c - 1) else DownOrder(sel)
  {
    var a, b := DownOrder(sel), DownOrder(sel');
    DownOrderAt(sel);
    DownOrderAt(sel');
    if Packed(sel', c) {
      forall j | 0 <= j < |sel| ensures b[j] == a[j] {
        DownStepPacked(sel, sel', c, j);
      }
    } else {
      forall j | 0 <= j < |sel| ensures b[j] == Swap(a, c, c - 1)[j] {
        if j < c - 1 {
          DownStepBelow(sel, sel', c, j);
        } else if j == c {
          DownStepAt(sel, sel', c);
        }
      }
    }
  }

  lemma DownStepPacked(sel: seq<bool>, sel': seq<bool>, c: int, j: int)
    requires 0 <= c < |sel| && sel' == sel[c := true]
    requires forall t :: c <= t < |sel| ==> !sel[t]
    requires Packed(sel', c) && 0 <= j < |sel|
    ensures DownTarget(sel', j) == DownTarget(sel, j) == j
  {
    if j < c {
      PackedAgree(sel, sel', j);
      if j + 1 < c {
        PackedAgree(sel, sel', j + 1);
      }
    }
  }

  lemma DownStepBelow(sel: seq<bool>, sel': seq<bool>, c: int, j: int)
    requires 0 <= c < |sel| && sel' == sel[c := true]
    requires 0 <= j && j + 1 < c
    ensures DownTarget(sel', j) == DownTarget(sel, j)
  {
    PackedAgree(sel, sel', j + 1);
    PackedAgree(sel, sel', j);
    if sel[j] && !Packed(sel, j) {
      LastUnselectedAgree(sel, sel', j);
    }
  }

  /** The curve just below `c` takes `c`'s old place. */
  lemma DownStepAt(sel: seq<bool>, sel': seq<bool>, c: int)
    requires 0 < c < |sel| && sel' == sel[c := true]
    requires forall t :: c <= t < |sel| ==> !sel[t]
    requires !Packed(sel', c)
    ensures DownTarget(sel', c) == DownTarget(sel, c - 1)
  {
    var t :| 0 <= t <= c && !sel'[t];
    assert !Packed(sel', c - 1);
    assert LastUnselected(sel', c) == LastUnselected(sel', c - 1);
    if sel[c - 1] {
      assert !Packed(sel, c - 1);
      LastUnselectedAgree(sel, sel', c - 1);
    }
  }

  /**
   * Flagging one more curve `c`, below every flagged curve, changes the
   * bring-forward order by one `std::swap` of `c` with the curve above,
   * unless `c` touches the end.
   */
  lemma UpStep(sel: seq<bool>, sel': seq<bool>, c: int)
    requires 0 <= c < |sel| && sel' == sel[c := true]
    requires forall t :: 0 <= t <= c ==> !sel[t]
    ensures !PackedEnd(sel', c) ==> c + 1 < |sel|
    ensures UpOrder(sel') == if !PackedEnd(sel', c) then Swap(UpOrder(sel), c, c + 1) else UpOrder(sel)
  {
    var a, b := UpOrder(sel), UpOrder(sel');
    UpOrderAt(sel);
    UpOrderAt(sel');
    if PackedEnd(sel', c) {
      forall j | 0 <= j < |sel| ensures b[j] == a[j] {
        UpStepPacked(sel, sel', c, j);
      }
    } else {
      forall j | 0 <= j < |sel| ensures b[j] == Swap(a, c, c + 1)[j] {
        if j > c + 1 {
          UpStepAbove(sel, sel', c, j);
        } else if j == c {
          UpStepAt(sel, sel', c);
        }
      }
    }
  }

  lemma UpStepPacked(sel: seq<bool>, sel': seq<bool>, c: int, j: int)
    requires 0 <= c < |sel| && sel' == sel[c := true]
    requires forall t :: 0 <= t <= c ==> !sel[t]
    requires PackedEnd(sel', c) && 0 <= j < |sel|
    ensures UpTarget(sel', j) == UpTarget(sel, j) == j
  {
    if j > c {
      PackedEndAgree(sel, sel', j);
      if j - 1 > c {
        PackedEndAgree(sel, sel', j - 1);
      }
    }
  }

  lemma UpStepAbove(sel: seq<bool>, sel': seq<bool>, c: int, j: int)
    requires 0 <= c && c + 1 < j < |sel| && sel' == sel[c := true]
    ensures UpTarget(sel', j) == UpTarget(sel, j)
  {
    PackedEndAgree(sel, sel', j - 1);
    PackedEndAgree(sel, sel', j);
    if sel[j] && !PackedEnd(sel, j) {
      FirstUnselectedAgree(sel, sel', j);
    }
  }

  /** The curve just above `c` takes `c`'s old place. */
  lemma UpStepAt(sel: seq<bool>, sel': seq<bool>, c: int)
    requires 0 <= c && c + 1 < |sel| && sel' == sel[c := true]
    requires forall t :: 0 <= t <= c ==> !sel[t]
    requires !PackedEnd(sel', c)
    ensures UpTarget(sel', c) == UpTarget(sel, c + 1)
  {
    var t :| c <= t < |sel| && !sel'[t];
    assert !PackedEnd(sel', c + 1);
    assert FirstUnselected(sel', c) == FirstUnselected(sel', c + 1);
    if sel[c + 1] {
      assert !PackedEnd(sel, c + 1);
      FirstUnselectedAgree(sel, sel', c + 1);
    }
  }

  /** `DownStep` for the `k`-th selected curve of a mask. */
  lemma DownStepMask(m: seq<int>, n: nat, k: nat)
    requires IsMask(m, n) && k < |m|
    ensures k <= m[k] < n
    ensures DownOrder(Marked(m, k + 1, n)) ==
            if m[k] != k then Swap(DownOrder(Marked(m, k, n)), m[k], m[k] - 1) else DownOrder(Marked(m, k, n))
  {
    MaskAtLeast(m, n, k);
    MarkedBelow(m, n, k);
    PackedMarked(m, n, k);
    DownStep(Marked(m, k, n), Marked(m, k + 1, n), m[k]);
  }

  /** `UpStep` for the selected curve at position `k` of a mask. */
  lemma UpStepMask(m: seq<int>, n: nat, k: nat)
    requires IsMask(m, n) && k < |m|
    ensures 0 <= m[k] <= n - |m| + k
    ensures UpOrder(MarkedFrom(m, k, n)) ==
            if m[k] != n - |m| + k then Swap(UpOrder(MarkedFrom(m, k + 1, n)), m[k], m[k] + 1)
            else UpOrder(MarkedFrom(m, k + 1, n))
  {
    MaskAtMost(m, n, k);
    MarkedFromAbove(m, n, k, MarkedFrom(m, k + 1, n));
    PackedEndMarked(m, n, k);
    UpStep(MarkedFrom(m, k + 1, n), MarkedFrom(m, k, n), m[k]);
  }

  /** `DownStepMask` on sequence values: the order after visiting position `k`. */
  lemma DownMaskStep(m: seq<int>, n: nat, k: nat, prev: seq<int>, cur: seq<int>)
    requires IsMask(m, n) && k < |m| && k <= m[k] < n
    requires prev == DownOrder(Marked(m, k, n))
    requires cur == if m[k] != k then Swap(prev, m[k], m[k] - 1) else prev
    ensures cur == DownOrder(Marked(m, k + 1, n))
  {
    DownStepMask(m, n, k);
  }

  /** `UpStepMask` on sequence values: the order after visiting position `pos`. */
  lemma UpMaskStep(m: seq<int>, n: nat, pos: nat, prev: seq<int>, cur: seq<int>)
    requires IsMask(m, n) && pos < |m| && 0 <= m[pos] < n - |m| + pos + 1 <= n
    requires prev == UpOrder(MarkedFrom(m, pos + 1, n))
    requires cur == if m[pos] != n - |m| + pos then Swap(prev, m[pos], m[pos] + 1) else prev
    ensures cur == UpOrder(MarkedFrom(m, pos, n))
  {
    UpStepMask(m, n, pos);
  }

  /** With nothing selected, or everything, both orders keep every curve in place. */
  lemma OrdersUniform(n: nat, v: bool)
    ensures DownOrder(Filled(n, v)) == Range(0, n)
    ensures UpOrder(Filled(n, v)) == Range(0, n)
  {
    var sel := Filled(n, v);
    RangeAt(0, n);
    DownOrderAt(sel);
    UpOrderAt(sel);
    forall j | 0 <= j < n ensures DownTarget(sel, j) == j && UpTarget(sel, j) == j {
      if v {
        assert Packed(sel, j) && PackedEnd(sel, j);
        if j + 1 < n { assert Packed(sel, j + 1); }
        if 0 < j { assert PackedEnd(sel, j - 1); }
      }
    }
  }

  /**
   * `get_reordered_indices`. Send backward visits the selected curves from
   * the lowest and swaps each one that has a gap below it; bring forward
   * visits them from the highest and swaps each one that has a gap above it.
   */
  method GetReorderedIndices(n: nat, selected: seq<int>, d: Direction) returns (indices: seq<int>)
    requires IsMask(selected, n)
    ensures indices == Reordered(n, selected, d)
  {
    if d == Top || d == Bottom {
      var unselected := Complement(selected, n);
      var front, back := if d == Bottom then selected else unselected,
                         if d == Bottom then unselected else selected;
      return front + back;
    }
    var a := new int[n](i => i);
    RangeAt(0, n);
    assert a[..] == Range(0, n);
    if d == Down {
      SendBackward(a, selected);
    } else {
      BringForward(a, selected);
    }
    indices := a[..];
  }

  /** The `Down` branch, on the identity order. */
  method SendBackward(a: array<int>, selected: seq<int>)
    requires IsMask(selected, a.Length) && a[..] == Range(0, a.Length)
    modifies a
    ensures a[..] == DownOrder(ToBools(selected, a.Length))
  {
    OrdersUniform(a.Length, false);
    var k := 0;
    while k < |selected|
      invariant 0 <= k <= |selected|
      invariant a[..] == DownOrder(Marked(selected, k, a.Length))
    {
      SendBackwardStep(a, selected, k);
      k := k + 1;
    }
    MarkedAll(selected, a.Length);
  }

  /** One turn of the send-backward loop: the `k`-th selected curve swaps with the curve below unless it is packed. */
  method SendBackwardStep(a: array<int>, selected: seq<int>, k: nat)
    requires IsMask(selected, a.Length) && k < |selected|
    requires a[..] == DownOrder(Marked(selected, k, a.Length))
    modifies a
    ensures a[..] == DownOrder(Marked(selected, k + 1, a.Length))
  {
    var c := selected[k];
    MaskAtLeast(selected, a.Length, k);
    ghost var prev := a[..];
    if c != k {
      SwapInPlace(a, c, c - 1);
    }
    DownMaskStep(selected, a.Length, k, prev, a[..]);
  }

  /** The `Up` branch, on the identity order. */
  method BringForward(a: array<int>, selected: seq<int>)
    requires IsMask(selected, a.Length) && a[..] == Range(0, a.Length)
    modifies a
    ensures a[..] == UpOrder(ToBools(selected, a.Length))
  {
    OrdersUniform(a.Length, false);
    var i := 0;
    while i < |selected|
      invariant 0 <= i <= |selected|
      invariant a[..] == UpOrder(MarkedFrom(selected, |selected| - i, a.Length))
    {
      BringForwardStep(a, selected, i);
      i := i + 1;
    }
    MarkedAll(selected, a.Length);
  }

  /**
   * One turn of the bring-forward loop: the `i`-th selected curve from the
   * top swaps with the curve above unless it is packed against the end.
   */
  method BringForwardStep(a: array<int>, selected: seq<int>, i: nat)
    requires IsMask(selected, a.Length) && i < |selected|
    requires a[..] == UpOrder(MarkedFrom(selected, |selected| - i, a.Length))
    modifies a
    ensures a[..] == UpOrder(MarkedFrom(selected, |selected| - (i + 1), a.Length))
  {
    var n, pos := a.Length, |selected| - 1 - i;
    var c := selected[pos];
    MaskAtMost(selected, n, pos);
    ghost var prev := a[..];
    if c != n - 1 - i {
      SwapInPlace(a, c, c + 1);
    }
    UpMaskStep(selected, n, pos, prev, a[..]);
  }

  /** `std::swap` of two entries of the order. */
  method SwapInPlace(a: array<int>, i: int, j: int)
    requires 0 <= i < a.Length && 0 <= j < a.Length
    modifies a
    ensures a[..] == Swap(old(a[..]), i, j)
  {
    a[i], a[j] := a[j], a[i];
  }

  lemma SwapPermutes(s: seq<int>, i: int, j: int)
    requires 0 <= i < |s| && 0 <= j < |s|
    ensures multiset(Swap(s, i, j)) == multiset(s)
  {
  }

  /** One step of send backward only exchanges two curves. */
  lemma DownStepPermutes(m: seq<int>, n: nat, k: nat)
    requires IsMask(m, n) && k < |m|
    ensures multiset(DownOrder(Marked(m, k + 1, n))) == multiset(DownOrder(Marked(m, k, n)))
  {
    DownStepMask(m, n, k);
    if m[k] != k {
      SwapPermutes(DownOrder(Marked(m, k, n)), m[k], m[k] - 1);
    }
  }

  /** One step of bring forward only exchanges two curves. */
  lemma UpStepPermutes(m: seq<int>, n: nat, k: nat)
    requires IsMask(m, n) && k < |m|
    ensures multiset(UpOrder(MarkedFrom(m, k, n))) == multiset(UpOrder(MarkedFrom(m, k + 1, n)))
  {
    UpStepMask(m, n, k);
    if m[k] != n - |m| + k {
      SwapPermutes(UpOrder(MarkedFrom(m, k + 1, n)), m[k], m[k] + 1);
    }
  }

  /** Every direction yields a permutation of the curves. */
  lemma ReorderedIsPermutation(n: nat, m: seq<int>, d: Direction)
    requires IsMask(m, n)
    ensures multiset(Reordered(n, m, d)) == multiset(Range(0, n))
  {
    MarkedAll(m, n);
    match d
    case Top =>
      ComplementPartition(n, m);
    case Bottom =>
      ComplementPartition(n, m);
    case Down =>
      DownPermutation(m, n, |m|);
    case Up =>
      UpPermutation(m, n, 0);
  }

  lemma ComplementPartition(n: nat, m: seq<int>)
    requires IsMask(m, n)
    ensures multiset(m) + multiset(Complement(m, n)) == multiset(Range(0, n))
  {
    IndicesInMask(ToBools(m, n), m, 0, n);
    IndicesInPartition(ToBools(m, n), 0, n);
  }

  lemma {:induction false} DownPermutation(m: seq<int>, n: nat, k: nat)
    requires IsMask(m, n) && k <= |m|
    ensures multiset(DownOrder(Marked(m, k, n))) == multiset(Range(0, n))
  {
    if k == 0 {
      OrdersUniform(n, false);
    } else {
      DownPermutation(m, n, k - 1);
      DownStepPermutes(m, n, k - 1);
    }
  }

  lemma {:induction false} UpPermutation(m: seq<int>, n: nat, k: nat)
    requires IsMask(m, n) && k <= |m|
    ensures multiset(UpOrder(MarkedFrom(m, k, n))) == multiset(Range(0, n))
    decreases |m| - k
  {
    if k == |m| {
      OrdersUniform(n, false);
    } else {
      UpPermutation(m, n, k + 1);
      UpStepPermutes(m, n, k);
    }
  }

  /**
   * With no curve or every curve selected, every direction keeps the order as
   * it is; this is why the operator skips such drawings.
   */
  lemma ReorderedNoneOrAll(n: nat, m: seq<int>, d: Direction)
    requires IsMask(m, n) && (|m| == 0 || |m| == n)
    ensures Reordered(n, m, d) == Range(0, n)
  {
    var s := ToBools(m, n);
    if |m| == 0 {
      assert s == Filled(n, false);
      IndicesInRun(s, false, 0, n, n);
      OrdersUniform(n, false);
    } else {
      forall k | 0 <= k < |m| ensures m[k] == k {
        MaskBounds(m, n, k);
      }
      RangeAt(0, n);
      assert m == Range(0, n);
      forall t | 0 <= t < n ensures s[t] {
        assert m[t] == t;
      }
      assert s == Filled(n, true);
      IndicesInNone(s, false, 0, n);
      OrdersUniform(n, true);
    }
  }

  /**
   * The per-drawing part of the reorder operator: a drawing with no selected
   * stroke, or with every stroke selected, is left alone; otherwise its
   * curves are put in the order `get_reordered_indices` computes. `order` is
   * the table that is applied (the identity when the drawing is skipped).
   */
  method ReorderDrawing(n: nat, strokes: seq<int>, d: Direction) returns (changed: bool, order: seq<int>)
    requires IsMask(strokes, n)
    ensures changed <==> 0 < |strokes| < n
    ensures !changed ==> order == Range(0, n)
    ensures order == Reordered(n, strokes, d)
    ensures multiset(order) == multiset(Range(0, n))
  {
    ReorderedIsPermutation(n, strokes, d);
    if |strokes| > 0 {
      MaskAtMost(strokes, n, 0);
    }
    if |strokes| == 0 || |strokes| == n {
      ReorderedNoneOrAll(n, strokes, d);
      return false, Range(0, n);
    }
    order := GetReorderedIndices(n, strokes, d);
    changed := true;
  }
}
