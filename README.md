# Grease-pencil edit operators: index computations

This project models the index computations of Blender's grease-pencil edit
operators (`grease_pencil_edit.cc`) and proves properties about them. Each
operator works on one drawing, a `CurvesGeometry`. The model represents a
drawing by its curve offsets: `o[c] .. o[c+1]-1` are the points of curve `c`.
It adds per-curve `cyclic` flags and per-point selection flags. An `IndexMask`
(a set of selected strokes or points) is a strictly increasing sequence of
indices.

The operators modelled, one module each:

- `DeleteSplit`: `remove_points_and_split`, point-mode delete. Each curve
  falls apart into maximal runs of surviving points. On a cyclic curve whose
  two ends survive, the run at the end is joined to the run at the beginning.
- `Dissolve`: `get_points_to_dissolve`, with its three modes POINTS, UNSELECT
  and BETWEEN.
- `Reorder`: `get_reordered_indices` for the four directions, and the
  per-drawing skip when no stroke or every stroke is selected.
- `Subdivide`: the per-point cut array of the subdivide operator.
- `Extrude` and `ExtrudeFacts`: `extrude_grease_pencil_curves`.
  - Extruding an end point of an open curve inserts a selected copy next to it.
  - Extruding any other point appends a new two-point curve.
- `StrokeEdits`: the smaller per-stroke edits:
  - caps set and `toggle_caps`;
  - cyclical set;
  - assign material and the set-active-material slot check;
  - the clean-loose predicate;
  - the paste range and its material remap.
- `Runs`: the library helper `find_all_ranges` that several operators use.
- `Layout`: offsets, masks and small lemmas they share.

### How the operators are modelled

Each operator is an imperative method that follows the source loop for loop.
It is proved against a specification function written independently of the
loop. Separate lemmas then prove what the operator promises about that
function:

- survivors are kept and the result is a permutation;
- cyclic flags are kept;
- the selection counts are right;
- the curve sizes add up;
- each toggle is its own inverse.

Helper library calls are modelled by their documented meaning:

- `find_all_ranges` is modelled as maximal runs;
- `IndexMask::from_predicate` and `from_bools` as the sorted list of matching indices;
- `masked_fill` and `invert_booleans` as loops over the mask;
- `accumulate_counts_to_offsets` as the prefix sums of the counts.

A `Vector` that the source appends to or inserts into is a `seq` value that
the method reassigns. A fixed-size `Array` the source fills in place is a
Dafny `array`.

## Model

| member | source | states |
|---|---|---|
| `Layout.PrefixSums` | source/blender/editors/grease_pencil/intern/grease_pencil_edit.cc:429-431 | the offsets built from the curve counts are valid, each step grows by that curve's count, and the last offset is the total |
| `Runs.FindAllRangesMaximal` | source/blender/editors/grease_pencil/intern/grease_pencil_edit.cc:386-387 | `find_all_ranges` returns exactly the maximal runs of the value, in ascending order |
| `Runs.RunsIndices` | source/blender/editors/grease_pencil/intern/grease_pencil_edit.cc:386-406 | the points of the runs, shifted by the curve's first point, are exactly the curve's points holding the value, in order |
| `Runs.FromBoolsToBools` | source/blender/editors/grease_pencil/intern/grease_pencil_edit.cc:365-366 | `to_bools` then `from_bools` gives the mask back: the true entries of `ToBools(m, n)`, in order, are exactly `m` |
| `Runs.ToBoolsFromBools` | source/blender/editors/grease_pencil/intern/grease_pencil_edit.cc:319-320 | `from_bools` then `to_bools` gives the flags back: the indices of the true entries form a valid mask, and the mask flags exactly those entries |
| `Runs.IndicesInCount` | source/blender/editors/grease_pencil/intern/grease_pencil_edit.cc:367 | the number of indices with a value equals the number of occurrences of that value (`count(false)`) |
| `DeleteSplit.RemovePointsAndSplit` | source/blender/editors/grease_pencil/intern/grease_pencil_edit.cc:359-449 | the point map, curve map, cyclic flags and offsets equal the split geometry `Expected` of the layout and the deletion flags |
| `DeleteSplit.EmitCurve` | source/blender/editors/grease_pencil/intern/grease_pencil_edit.cc:380-421 | one curve's pass appends that curve's pieces to the point map, their sizes to the counts, the curve to the curve map and its cyclic flag |
| `DeleteSplit.EmitRuns` | source/blender/editors/grease_pencil/intern/grease_pencil_edit.cc:393-420 | the runs of one curve are emitted as pieces, skipping the first run when the curve is self-joined |
| `DeleteSplit.CopyRuns` | source/blender/editors/grease_pencil/intern/grease_pencil_edit.cc:400-420 | the range loop writes each piece in order and appends one count, curve and cyclic entry per piece |
| `DeleteSplit.CopyPiece` | source/blender/editors/grease_pencil/intern/grease_pencil_edit.cc:401-415 | a run is copied, followed by the first run when it is the last run of a self-joined curve |
| `DeleteSplit.CopyJoined` | source/blender/editors/grease_pencil/intern/grease_pencil_edit.cc:404-415 | the last run's points are followed by the first run's points |
| `DeleteSplit.CopyPoints` | source/blender/editors/grease_pencil/intern/grease_pencil_edit.cc:404-406 | the points of a shifted range are written in ascending order |
| `DeleteSplit.RunPiecesAre` | source/blender/editors/grease_pencil/intern/grease_pencil_edit.cc:399-415 | piece `i - skip` is run `i`, with the first run appended to the last when the curve is self-joined |
| `DeleteSplit.SurvivorTotal` | source/blender/editors/grease_pencil/intern/grease_pencil_edit.cc:365-367 | `total_points` equals the number of surviving points |
| `DeleteSplit.NothingSurvives` | source/blender/editors/grease_pencil/intern/grease_pencil_edit.cc:369-372 | when every point is deleted, the split geometry is the empty geometry (no points, no curves, offsets `[0]`) |
| `DeleteSplit.StaysCyclicIff` | source/blender/editors/grease_pencil/intern/grease_pencil_edit.cc:393-396 | a curve's piece stays cyclic exactly when the curve is cyclic, non-empty and loses no point (over any maximal runs) |
| `DeleteSplit.KeepsCyclicIff` | source/blender/editors/grease_pencil/intern/grease_pencil_edit.cc:393-396 | `is_cyclic` of curve `c` holds iff `c` is cyclic, non-empty and none of its points is deleted |
| `DeleteSplit.SplitShape` | source/blender/editors/grease_pencil/intern/grease_pencil_edit.cc:423-431 | the result's offsets are valid, it has one curve-map entry and one cyclic flag per curve, and one point-map entry per point |
| `DeleteSplit.SplitSurvivors` | source/blender/editors/grease_pencil/intern/grease_pencil_edit.cc:380-421 | the point map holds every surviving point exactly once (as a multiset it equals the survivors) |
| `DeleteSplit.SplitInOrder` | source/blender/editors/grease_pencil/intern/grease_pencil_edit.cc:380-421 | when no curve is self-joined, the point map is exactly the survivors in ascending order |
| `DeleteSplit.SplitOrigins` | source/blender/editors/grease_pencil/intern/grease_pencil_edit.cc:404-419 | every new curve's points all come from its source curve in the curve map |
| `DeleteSplit.SplitCyclic` | source/blender/editors/grease_pencil/intern/grease_pencil_edit.cc:393-419 | a new curve is cyclic exactly when its source curve is cyclic and lost no point |
| `DeleteSplit.SplitSorted` | source/blender/editors/grease_pencil/intern/grease_pencil_edit.cc:380-421 | the curve map is ascending: new curves keep the order of their source curves |
| `DeleteSplit.CurveMapSorted` | source/blender/editors/grease_pencil/intern/grease_pencil_edit.cc:380-421 | after `k` curves, every curve-map entry is below `k` and the map is ascending |
| `Dissolve.GetPointsToDissolve` | source/blender/editors/grease_pencil/intern/grease_pencil_edit.cc:532-592 | point `p` is dissolved exactly as `Dissolved` says for the mode. POINTS dissolves the picked points: those in the mask whose `.selection` is true, where a missing `.selection` counts as true everywhere. The other modes dissolve the negation of the kept points |
| `Dissolve.KeepCurve` | source/blender/editors/grease_pencil/intern/grease_pencil_edit.cc:555-586 | one curve's pass sets its points to "kept" per `KeptPoint` and leaves other points alone |
| `Dissolve.KeepRuns` | source/blender/editors/grease_pencil/intern/grease_pencil_edit.cc:559-585 | within the curve: all kept when nothing is selected; for BETWEEN the leading and trailing unselected runs are also kept |
| `Dissolve.BetweenKept` | source/blender/editors/grease_pencil/intern/grease_pencil_edit.cc:570-585 | after filling the first run (if it starts the curve) and the last run (if it ends it), the kept points are exactly the `KeptIn` ones |
| `Dissolve.FirstRunLeading` | source/blender/editors/grease_pencil/intern/grease_pencil_edit.cc:574-581 | a point lies in the first run that starts at the curve's first point iff it and all points before it are unselected |
| `Dissolve.LastRunTrailing` | source/blender/editors/grease_pencil/intern/grease_pencil_edit.cc:574-584 | a point lies in the last run that ends at the curve's last point iff it and all points after it are unselected |
| `Dissolve.UnselectIff` | source/blender/editors/grease_pencil/intern/grease_pencil_edit.cc:555-568 | UNSELECT dissolves a point iff it is unselected and its curve holds a selected point |
| `Dissolve.BetweenIff` | source/blender/editors/grease_pencil/intern/grease_pencil_edit.cc:564-585 | BETWEEN dissolves a point iff it is unselected and its curve has selected points both before and after it |
| `Dissolve.FillTrue` | source/blender/editors/grease_pencil/intern/grease_pencil_edit.cc:560 | `fill(true)` on a slice sets exactly that slice |
| `Dissolve.Invert` | source/blender/editors/grease_pencil/intern/grease_pencil_edit.cc:589 | `invert_booleans` negates every entry |
| `Reorder.GetReorderedIndices` | source/blender/editors/grease_pencil/intern/grease_pencil_edit.cc:1575-1645 | the index table equals `Reordered`: TOP puts unselected then selected, BOTTOM selected then unselected, DOWN and UP as `DownOrder` / `UpOrder` |
| `Reorder.SendBackward` | source/blender/editors/grease_pencil/intern/grease_pencil_edit.cc:1617-1625 | the swap loop over the selection in ascending order turns the identity into `DownOrder` of the selection |
| `Reorder.BringForward` | source/blender/editors/grease_pencil/intern/grease_pencil_edit.cc:1626-1642 | the swap loop over the selection in descending order turns the identity into `UpOrder` of the selection |
| `Reorder.SendBackwardStep` | source/blender/editors/grease_pencil/intern/grease_pencil_edit.cc:1618-1624 | one turn of the loop body: from the order after the first `k` selected curves, the swap (or its skip when `curve_i == pos`) yields the order after the first `k+1` |
| `Reorder.BringForwardStep` | source/blender/editors/grease_pencil/intern/grease_pencil_edit.cc:1632-1641 | one turn of the loop body: from the order after the top `i` selected curves, the swap (or its skip when `curve_i == universe.last(i)`) yields the order after the top `i+1` |
| `Reorder.SwapInPlace` | source/blender/editors/grease_pencil/intern/grease_pencil_edit.cc:1622 | `std::swap` exchanges the two entries and nothing else |
| `Reorder.DownStep` | source/blender/editors/grease_pencil/intern/grease_pencil_edit.cc:1618-1624 | visiting one more selected curve `c` (above all visited ones) changes the order by one swap of `c` with `c-1`, unless `c` is packed against the beginning, when nothing changes |
| `Reorder.DownBlock` | source/blender/editors/grease_pencil/intern/grease_pencil_edit.cc:1617-1625 | a maximal selected block `s .. e-1` with `s > 0` moves one place down: positions `s-1 .. e-1` hold `s .. e-1` then `s-1` |
| `Reorder.DownFixed` | source/blender/editors/grease_pencil/intern/grease_pencil_edit.cc:1617-1625 | a selected curve packed against the beginning, and an unselected curve with no selected curve right above it, keep their places |
| `Reorder.UpStep` | source/blender/editors/grease_pencil/intern/grease_pencil_edit.cc:1632-1641 | visiting one more selected curve `c` (below all visited ones) changes the order by one swap of `c` with `c+1`, unless `c` is packed against the end, when nothing changes |
| `Reorder.UpBlock` | source/blender/editors/grease_pencil/intern/grease_pencil_edit.cc:1626-1642 | a maximal selected block `s .. e-1` with `e < n` moves one place up: positions `s .. e` hold `e` then `s .. e-1` |
| `Reorder.UpFixed` | source/blender/editors/grease_pencil/intern/grease_pencil_edit.cc:1626-1642 | a selected curve packed against the end, and an unselected curve with no selected curve right below it, keep their places |
| `Reorder.ComplementPartition` | source/blender/editors/grease_pencil/intern/grease_pencil_edit.cc:1609-1615 | the selection and its complement together hold every curve index exactly once |
| `Reorder.DownPermutation` | source/blender/editors/grease_pencil/intern/grease_pencil_edit.cc:1617-1625 | after any number of send-backward steps the table is a permutation of the curve indices |
| `Reorder.UpPermutation` | source/blender/editors/grease_pencil/intern/grease_pencil_edit.cc:1626-1642 | after any number of bring-forward steps the table is a permutation of the curve indices |
| `Reorder.ReorderedIsPermutation` | source/blender/editors/grease_pencil/intern/grease_pencil_edit.cc:1575-1645 | for every direction the index table is a permutation of `0 .. n-1` |
| `Reorder.OrdersUniform` | source/blender/editors/grease_pencil/intern/grease_pencil_edit.cc:1617-1642 | with nothing or everything selected, UP and DOWN leave the identity unchanged |
| `Reorder.ReorderedNoneOrAll` | source/blender/editors/grease_pencil/intern/grease_pencil_edit.cc:1661-1669 | with no stroke or every stroke selected, every direction yields the identity, so the operator's skip changes nothing |
| `Reorder.ReorderDrawing` | source/blender/editors/grease_pencil/intern/grease_pencil_edit.cc:1657-1676 | a drawing is changed iff some but not all strokes are selected; the applied table is `Reordered` and a permutation |
| `Subdivide.Successor` | source/blender/editors/grease_pencil/intern/grease_pencil_edit.cc:1491-1508 | the point after `p` along the curve lies in `p`'s curve (the first point again after the last point of a cyclic curve) |
| `Subdivide.CutsPerPoint` | source/blender/editors/grease_pencil/intern/grease_pencil_edit.cc:1470-1510 | `cuts` everywhere for curve selection or whole-curve mode; otherwise `cuts` exactly at segments whose two ends are selected, 0 elsewhere |
| `Subdivide.CutCurve` | source/blender/editors/grease_pencil/intern/grease_pencil_edit.cc:1491-1508 | one curve's pass writes `SegmentCuts` on that curve's points and nothing elsewhere |
| `Subdivide.SegmentCutsInCurve` | source/blender/editors/grease_pencil/intern/grease_pencil_edit.cc:1491-1508 | the cut of a point is determined by its own curve only: the next point inside the curve, or first and last point of a cyclic curve |
| `StrokeEdits.MaskedFill` | source/blender/editors/grease_pencil/intern/grease_pencil_edit.cc:790 | `masked_fill` writes the value at the mask's indices and leaves the other entries unchanged |
| `StrokeEdits.InvertMasked` | source/blender/editors/grease_pencil/intern/grease_pencil_edit.cc:870 | `invert_booleans` over a mask negates exactly the masked entries |
| `StrokeEdits.ToggleCaps` | source/blender/editors/grease_pencil/intern/grease_pencil_edit.cc:1142-1152 | the caps array after `toggle_caps` equals `ToggledCaps` of the old caps: a masked FLAT cap becomes ROUND, any other masked cap FLAT, and unmasked caps keep their value |
| `StrokeEdits.ToggleCapsTwice` | source/blender/editors/grease_pencil/intern/grease_pencil_edit.cc:1142-1152 | on ROUND/FLAT caps, toggling twice restores the caps |
| `StrokeEdits.CapsSet` | source/blender/editors/grease_pencil/intern/grease_pencil_edit.cc:1175-1209 | ROUND / FLAT set both caps of the masked strokes; START / END toggle one end and leave the other array unchanged |
| `StrokeEdits.CyclicalSet` | source/blender/editors/grease_pencil/intern/grease_pencil_edit.cc:847-881 | skipped iff OPEN without a cyclic attribute or no stroke selected; otherwise the flags are `CyclicAfter`: CLOSE sets, OPEN clears and TOGGLE negates the masked flags, and the others keep their value; the attribute is dropped iff the mode is not CLOSE and all flags are false |
| `StrokeEdits.CyclicToggleTwice` | source/blender/editors/grease_pencil/intern/grease_pencil_edit.cc:869-870 | toggling the same strokes twice restores the cyclic flags |
| `StrokeEdits.CyclicCloseOpen` | source/blender/editors/grease_pencil/intern/grease_pencil_edit.cc:863-867 | CLOSE and OPEN are idempotent, and the later of the two decides the result |
| `StrokeEdits.MaterialSlots.SetMaterial` | source/blender/editors/grease_pencil/intern/grease_pencil_edit.cc:1290-1298 | the operator finishes iff `1 <= slot <= totcol`, and then sets the active slot to `slot`, so that a nameless assign-material writes `slot - 1`; otherwise nothing changes |
| `StrokeEdits.StrokeMaterialSet` | source/blender/editors/grease_pencil/intern/grease_pencil_edit.cc:760-792 | finishes iff `MaterialIndex` gives an index, which then goes into the `material_index` of exactly the masked strokes. An unknown name gives none. A found material gives its slot index, no name gives `actcol - 1`, and the result -1 cancels |
| `StrokeEdits.LooseCurves` | source/blender/editors/grease_pencil/intern/grease_pencil_edit.cc:1397-1400 | `from_predicate` yields a valid mask of editable strokes |
| `StrokeEdits.LooseCurvesIff` | source/blender/editors/grease_pencil/intern/grease_pencil_edit.cc:1397-1400 | a curve is deleted iff it is editable and has at most `limit` points |
| `StrokeEdits.PasteMaterials` | source/blender/editors/grease_pencil/intern/grease_pencil_edit.cc:2471-2492 | the pasted range is at the front or the back; pasted strokes get `remap` of their material, target strokes keep theirs, shifted after the pasted ones when pasting back |
| `Extrude.CurveSlice` | source/blender/editors/grease_pencil/intern/grease_pencil_edit.cc:2599 | `slice_content`: the mask entries of curve `c` are the contiguous index range that the slice bounds |
| `Extrude.LinkStep` | source/blender/editors/grease_pencil/intern/grease_pencil_edit.cc:2602-2631 | each visited entry lies in the curve; the first point is seen at most once and before the last; the non-end points go to the inner list in mask order |
| `Extrude.ExtrudeCurves` | source/blender/editors/grease_pencil/intern/grease_pencil_edit.cc:2573-2671 | the point map, curve map, curve sizes, selection and cyclic flags equal `Expected`: each curve with its head and tail copies, then two-point curves for the inner points |
| `Extrude.ExtrudeCurve` | source/blender/editors/grease_pencil/intern/grease_pencil_edit.cc:2597-2632 | one curve's pass adds the head copy iff `StartDup`, the tail copy iff `EndDup`, and one pair per inner point in order |
| `Extrude.ExtrudePoint` | source/blender/editors/grease_pencil/intern/grease_pencil_edit.cc:2602-2631 | the first point of an open curve gets a head copy, its last point a tail copy; any other point a new two-point curve |
| `Extrude.InsertHeadPoint` | source/blender/editors/grease_pencil/intern/grease_pencil_edit.cc:2606 | the head copy goes in front of the curve's first point |
| `Extrude.InsertTailPoint` | source/blender/editors/grease_pencil/intern/grease_pencil_edit.cc:2615 | the tail copy goes right after the curve's last point |
| `Extrude.InsertHeadSelected` | source/blender/editors/grease_pencil/intern/grease_pencil_edit.cc:2607 | the head copy is selected |
| `Extrude.InsertTailSelected` | source/blender/editors/grease_pencil/intern/grease_pencil_edit.cc:2616 | the tail copy is selected |
| `Extrude.IncrementCount` | source/blender/editors/grease_pencil/intern/grease_pencil_edit.cc:2608 | the curve's size grows by one per copy added |
| `ExtrudeFacts.ResultShape` | source/blender/editors/grease_pencil/intern/grease_pencil_edit.cc:2581-2667 | one selection flag per point; the old curves keep their index and cyclic flag; appended curves have two points and are open |
| `ExtrudeFacts.CountsCoverPoints` | source/blender/editors/grease_pencil/intern/grease_pencil_edit.cc:2634-2642 | the curve sizes add up to the number of points, so the offsets cover the point map |
| `ExtrudeFacts.PointCount` | source/blender/editors/grease_pencil/intern/grease_pencil_edit.cc:2603-2634 | the new point count is the old one plus one per head or tail copy plus two per extruded inner point |
| `ExtrudeFacts.CurveCount` | source/blender/editors/grease_pencil/intern/grease_pencil_edit.cc:2602-2631 | each extruded point of a curve yields exactly one of head copy, tail copy or inner point |
| `ExtrudeFacts.SelectedCurve` | source/blender/editors/grease_pencil/intern/grease_pencil_edit.cc:2604-2619 | within an old curve only the head and tail copies are selected |
| `ExtrudeFacts.SelectionCount` | source/blender/editors/grease_pencil/intern/grease_pencil_edit.cc:2587-2660 | the result has exactly as many selected points as points were extruded |
| `ExtrudeFacts.AppendedPoints` | source/blender/editors/grease_pencil/intern/grease_pencil_edit.cc:2622-2628 | the `j`-th appended curve is two copies of the `j`-th inner point; only the second copy is selected |
| `ExtrudeFacts.AppendedOwner` | source/blender/editors/grease_pencil/intern/grease_pencil_edit.cc:2629 | the `j`-th appended curve maps to the old curve the inner point belongs to |

## Left out

- Geometry and attribute transfer are not modelled. This covers `gather_attributes`, `reorder_curves_geometry`, `remove_curves`, `join_geometries`, `subdivide_curves`, `update_curve_types`, vertex groups and positions. The model stops at the index maps, counts and flags these calls consume.
- `threading::parallel_for` and `parallel_for_each` are modelled as sequential loops. The per-curve and per-drawing work is independent. Concurrency is left out.
- Operator plumbing is not modelled: RNA properties, reports, depsgraph tags, notifiers, and the editable-drawing and editable-stroke queries. Their results (the stroke masks, the slot count, the material lookup) are parameters.
- `StrokeEdits.CapRound` and `StrokeEdits.CapFlat`: the cap values 0 and 1 come from DNA headers that are not part of this model. The model assumes that `GP_STROKE_CAP_TYPE_*` and `GP_STROKE_CAP_*` agree.
- `clipboard_materials_remap` and the clipboard itself are not part of this model. The remap table is a parameter.
- `Subdivide.CutsPerPoint`: the source reads the first and last point of every cyclic curve, which is undefined for an empty cyclic curve. The model gives such a curve no cut.
- `DeleteSplit.RemovePointsAndSplit`: the point map is not ascending when a cyclic curve is self-joined, because the first run follows the last. The order is stated only for inputs without a self-joined curve (`SplitInOrder`). For every input, the point map is stated as a multiset of the survivors (`SplitSurvivors`).
- `Extrude.ExtrudeCurves`: the cyclic flags of the result are `cyclic` followed by `false` for each appended curve. The source keeps a single-valued `false` attribute as it is (`get_if_single`), which gives the same flags.
- `Extrude.ExtrudeCurves`: `Vector::insert` and `append` on growing buffers are modelled as operations on `seq` values, not on reallocated storage.
- The `.selection` attribute of the dissolve and subdivide operators is optional (`lookup_or_default`, true when absent). Attributes that are created on demand (`lookup_or_add_for_write_span`) are given inputs with their current values.
- Dafny integers are unbounded. The source's `int` indices never get near their width for valid geometry, so no wrap-around is modelled.
