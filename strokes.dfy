/**
 * Per-stroke edits of the grease-pencil editor that work through an index
 * mask of selected strokes: stroke caps, the cyclic flag, the material index,
 * plus the active-material slot check, the loose-stroke predicate of the
 * clean-up operator and the material remap of pasted strokes.
 */
module StrokeEdits {
  import opened Layout
  import opened Runs

  /** The cap types of a stroke end (`GP_STROKE_CAP_ROUND`, `GP_STROKE_CAP_FLAT`). */
  const CapRound: int := 0
  const CapFlat: int := 1

  /** The first `k` entries of the mask; the loops below visit the mask in order. */
  predicate Visited(mask: seq<int>, k: int, i: int)
    requires 0 <= k <= |mask|
  {
    exists j :: 0 <= j < k && mask[j] == i
  }

  /** `index_mask::masked_fill`: writes `v` at every index of the mask. */
  method MaskedFill<T>(a: array<T>, v: T, mask: seq<int>)
    requires IsMask(mask, a.Length)
    modifies a
    ensures forall i :: 0 <= i < a.Length ==> a[i] == if i in mask then v else old(a[i])
  {
    var k := 0;
    while k < |mask|
      invariant 0 <= k <= |mask|
      invariant forall i :: 0 <= i < a.Length ==> a[i] == if Visited(mask, k, i) then v else old(a[i])
    {
      a[mask[k]] := v;
      k := k + 1;
    }
  }

  /** `array_utils::invert_booleans` restricted to a mask. */
  method InvertMasked(a: array<bool>, mask: seq<int>)
    requires IsMask(mask, a.Length)
    modifies a
    ensures forall i :: 0 <= i < a.Length ==> a[i] == if i in mask then !old(a[i]) else old(a[i])
  {
    var k := 0;
    while k < |mask|
      invariant 0 <= k <= |mask|
      invariant forall i :: 0 <= i < a.Length ==> a[i] == if Visited(mask, k, i) then !old(a[i]) else old(a[i])
    {
      a[mask[k]] := !a[mask[k]];
      k := k + 1;
    }
  }

  /** The cap a toggle gives a stroke end: FLAT becomes ROUND, anything else FLAT. */
  function Toggled(cap: int): int {
    if cap == CapFlat then CapRound else CapFlat
  }

  /** The caps after toggling the masked strokes. */
  function ToggledCaps(caps: seq<int>, mask: seq<int>): (r: seq<int>)
    ensures |r| == |caps|
  {
    seq(|caps|, i requires 0 <= i < |caps| => if i in mask then Toggled(caps[i]) else caps[i])
  }

  /** `toggle_caps`. */
  method ToggleCaps(caps: array<int>, mask: seq<int>)
    requires IsMask(mask, caps.Length)
    modifies caps
    ensures caps[..] == ToggledCaps(old(caps[..]), mask)
  {
    var k := 0;
    while k < |mask|
      invariant 0 <= k <= |mask|
      invariant forall i :: 0 <= i < caps.Length ==>
        caps[i] == if Visited(mask, k, i) then Toggled(old(caps[i])) else old(caps[i])
    {
      if caps[mask[k]] == CapFlat {
        caps[mask[k]] := CapRound;
      } else {
        caps[mask[k]] := CapFlat;
      }
      k := k + 1;
    }
  }

  /** Toggling the same strokes twice restores caps that are all ROUND or FLAT. */
  lemma ToggleCapsTwice(caps: seq<int>, mask: seq<int>)
    requires forall i :: 0 <= i < |caps| ==> caps[i] == CapRound || caps[i] == CapFlat
    ensures ToggledCaps(ToggledCaps(caps, mask), mask) == caps
  {
    var r := ToggledCaps(ToggledCaps(caps, mask), mask);
    forall i | 0 <= i < |caps|
      ensures r[i] == caps[i]
    {
    }
  }

  datatype CapsMode = Flat | Start | End | Round

  /**
   * The set-caps operator on one drawing: ROUND and FLAT set both ends of the
   * masked strokes, START and END toggle one end.
   */
  method CapsSet(startCaps: array<int>, endCaps: array<int>, mask: seq<int>, mode: CapsMode)
    requires startCaps != endCaps && startCaps.Length == endCaps.Length
    requires IsMask(mask, startCaps.Length)
    modifies startCaps, endCaps
    ensures mode == Round || mode == Flat ==>
      var cap := if mode == Round then CapRound else CapFlat;
      (forall i :: 0 <= i < startCaps.Length ==> startCaps[i] == if i in mask then cap else old(startCaps[i])) &&
      (forall i :: 0 <= i < endCaps.Length ==> endCaps[i] == if i in mask then cap else old(endCaps[i]))
    ensures mode == Start ==> startCaps[..] == ToggledCaps(old(startCaps[..]), mask) && endCaps[..] == old(endCaps[..])
    ensures mode == End ==> endCaps[..] == ToggledCaps(old(endCaps[..]), mask) && startCaps[..] == old(startCaps[..])
  {
    if mask == [] {
      return;
    }
    if mode == Round || mode == Flat {
      var cap := if mode == Round then CapRound else CapFlat;
      MaskedFill(startCaps, cap, mask);
      MaskedFill(endCaps, cap, mask);
    } else if mode == Start {
      ToggleCaps(startCaps, mask);
    } else {
      ToggleCaps(endCaps, mask);
    }
  }

  datatype CyclicalMode = Close | Open | Toggle

  /** The cyclic flags after CLOSE, OPEN or TOGGLE on the masked strokes. */
  function CyclicAfter(f: seq<bool>, mask: seq<int>, mode: CyclicalMode): (g: seq<bool>)
    ensures |g| == |f|
  {
    seq(|f|, i requires 0 <= i < |f| => if i !in mask then f[i] else
      match mode
      case Close => true
      case Open => false
      case Toggle => !f[i])
  }

  /**
   * The cyclical-set operator on one drawing. `cyclic` is the stored `cyclic`
   * curve attribute, if any; a missing attribute reads as all false. Returns
   * the attribute afterwards and whether the drawing was edited.
   */
  method CyclicalSet(cyclic: Option<seq<bool>>, n: nat, mask: seq<int>, mode: CyclicalMode)
    returns (r: Option<seq<bool>>, changed: bool)
    requires cyclic.Some? ==> |cyclic.value| == n
    requires IsMask(mask, n)
    ensures r.Some? ==> |r.value| == n
    ensures !changed <==> (mode == Open && cyclic.None?) || mask == []
    ensures !changed ==> r == cyclic
    ensures changed ==> OrDefault(r, n, false) == CyclicAfter(OrDefault(cyclic, n, false), mask, mode)
    ensures changed ==> (r.None? <==> mode != Close && forall i :: 0 <= i < n ==> !OrDefault(r, n, false)[i])
  {
    if mode == Open && cyclic.None? {
      return cyclic, false;
    }
    if mask == [] {
      return cyclic, false;
    }
    var f := OrDefault(cyclic, n, false);
    var a := new bool[n](i requires 0 <= i < n => f[i]);
    match mode {
      case Close => MaskedFill(a, true, mask);
      case Open => MaskedFill(a, false, mask);
      case Toggle => InvertMasked(a, mask);
    }
    var g := a[..];
    assert g == CyclicAfter(f, mask, mode);
    if mode != Close && !(true in g) {
      return None, true;
    }
    return Some(g), true;
  }

  /** TOGGLE twice restores the flags. */
  lemma CyclicToggleTwice(f: seq<bool>, mask: seq<int>)
    ensures CyclicAfter(CyclicAfter(f, mask, Toggle), mask, Toggle) == f
  {
    var g := CyclicAfter(CyclicAfter(f, mask, Toggle), mask, Toggle);
    forall i | 0 <= i < |f|
      ensures g[i] == f[i]
    {
    }
  }

  /** CLOSE and OPEN are idempotent, and each undoes the other on strokes it closed or opened. */
  lemma CyclicCloseOpen(f: seq<bool>, mask: seq<int>)
    ensures CyclicAfter(CyclicAfter(f, mask, Close), mask, Close) == CyclicAfter(f, mask, Close)
    ensures CyclicAfter(CyclicAfter(f, mask, Open), mask, Open) == CyclicAfter(f, mask, Open)
    ensures CyclicAfter(CyclicAfter(f, mask, Close), mask, Open) == CyclicAfter(f, mask, Open)
    ensures CyclicAfter(CyclicAfter(f, mask, Open), mask, Close) == CyclicAfter(f, mask, Close)
  {
    var c, o := CyclicAfter(f, mask, Close), CyclicAfter(f, mask, Open);
    assert CyclicAfter(c, mask, Close) == c;
    assert CyclicAfter(o, mask, Open) == o;
    assert CyclicAfter(c, mask, Open) == o;
    assert CyclicAfter(o, mask, Close) == c;
  }

  /** The material slots of an object; `actcol` is the active slot, counted from 1 (0 for none). */
  class MaterialSlots {
    var actcol: int
    const totcol: nat

    constructor (totcol: nat, actcol: int)
      ensures this.totcol == totcol && this.actcol == actcol
    {
      this.totcol := totcol;
      this.actcol := actcol;
    }

    /**
     * The set-active-material operator: accepts only an existing slot
     * `1 .. totcol`. Once it has, assigning a material without a name writes
     * that slot's zero-based index.
     */
    method SetMaterial(slot: int) returns (finished: bool)
      modifies this
      ensures finished <==> 1 <= slot <= totcol
      ensures actcol == if finished then slot else old(actcol)
      ensures finished ==> MaterialIndex(actcol, NoName) == Some(slot - 1)
    {
      if slot < 1 || slot > totcol {
        return false;
      }
      actcol := slot;
      return true;
    }
  }

  /**
   * The material named in the assign-material operator: none, a name no
   * material has, or a material together with the object's slot index of it
   * (-1 when the object does not use it).
   */
  datatype MaterialName = NoName | Unknown | Found(slotIndex: int)

  /**
   * The zero-based material index the assign-material operator writes: the
   * named material's slot, or else the active slot; none when the name is
   * unknown or the resulting index is -1.
   */
  function MaterialIndex(actcol: int, name: MaterialName): Option<int>
  {
    match name
    case Unknown => None
    case NoName => if actcol - 1 == -1 then None else Some(actcol - 1)
    case Found(i) => if i == -1 then None else Some(i)
  }

  /**
   * The assign-material operator on one drawing: writes the chosen material
   * index into the `material_index` of the masked strokes.
   */
  method StrokeMaterialSet(materials: array<int>, mask: seq<int>, obj: MaterialSlots, name: MaterialName)
    returns (finished: bool)
    requires IsMask(mask, materials.Length)
    modifies materials
    ensures finished <==> MaterialIndex(obj.actcol, name).Some?
    ensures forall i :: 0 <= i < materials.Length ==>
      materials[i] == if finished && i in mask then MaterialIndex(obj.actcol, name).value else old(materials[i])
  {
    var materialIndex := obj.actcol - 1;
    if name.Unknown? {
      return false;
    }
    if name.Found? {
      materialIndex := name.slotIndex;
    }
    if materialIndex == -1 {
      return false;
    }
    if mask != [] {
      MaskedFill(materials, materialIndex, mask);
    }
    return true;
  }

  /**
   * `IndexMask::from_predicate` with the clean-loose predicate: the editable
   * strokes that have at most `limit` points, in mask order.
   */
  function LooseCurves(o: seq<int>, editable: seq<int>, limit: int): (r: seq<int>)
    requires ValidOffsets(o) && IsMask(editable, CurvesNum(o))
    ensures IsMask(r, CurvesNum(o))
    ensures forall i :: 0 <= i < |r| ==> r[i] in editable
  {
    if editable == [] then []
    else
      var k := |editable| - 1;
      var last := editable[k];
      var front := LooseCurves(o, editable[..k], limit);
      assert forall i :: 0 <= i < |front| ==> front[i] < last;
      front + (if CurveSize(o, last) <= limit then [last] else [])
  }

  /** The strokes to delete are exactly the editable strokes with at most `limit` points. */
  lemma {:induction false} LooseCurvesIff(o: seq<int>, editable: seq<int>, limit: int)
    requires ValidOffsets(o) && IsMask(editable, CurvesNum(o))
    ensures forall c :: c in LooseCurves(o, editable, limit) <==> c in editable && CurveSize(o, c) <= limit
  {
    if editable != [] {
      var k := |editable| - 1;
      LooseCurvesIff(o, editable[..k], limit);
      assert editable == editable[..k] + [editable[k]];
    }
  }

  /**
   * The strokes pasted from the clipboard: the first `clipNum` curves when
   * pasting at the back, else the `clipNum` curves after the `targetNum`
   * existing ones.
   */
  function PastedRange(targetNum: nat, clipNum: nat, pasteBack: bool): IndexRange {
    if pasteBack then IndexRange(0, clipNum) else IndexRange(targetNum, clipNum)
  }

  /**
   * The material indices after pasting: the clipboard curves are joined
   * before or after the drawing's curves, then each pasted curve's index is
   * looked up in `remap`.
   */
  method PasteMaterials(target: seq<int>, clip: seq<int>, remap: seq<int>, pasteBack: bool)
    returns (joined: seq<int>, pasted: IndexRange)
    requires forall i :: 0 <= i < |clip| ==> 0 <= clip[i] < |remap|
    ensures pasted == PastedRange(|target|, |clip|, pasteBack)
    ensures |joined| == |target| + |clip| && 0 <= pasted.start && pasted.End() <= |joined|
    ensures forall i :: 0 <= i < |clip| ==> joined[pasted.start + i] == remap[clip[i]]
    ensures forall i :: 0 <= i < |target| ==> joined[(if pasteBack then |clip| else 0) + i] == target[i]
  {
    pasted := PastedRange(|target|, |clip|, pasteBack);
    var order := if pasteBack then clip + target else target + clip;
    var a := new int[|order|](i requires 0 <= i < |order| => order[i]);
    var i := pasted.start;
    while i < pasted.End()
      invariant pasted.start <= i <= pasted.End()
      invariant forall j :: 0 <= j < a.Length ==>
        a[j] == if pasted.start <= j < i then remap[order[j]] else order[j]
    {
      a[i] := remap[a[i]];
      i := i + 1;
    }
    joined := a[..];
  }
}
