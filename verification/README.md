# FastRepeaterView: a verified model of the caching vertical repeater

`FastRepeaterView<T>` (Xamarin.Forms.Labs) is a repeater control that stacks its
children top to bottom. To avoid measuring children again, it attaches a
`Measure` record to each child. The record holds a cached size and a cached
offset, and either may be unknown. The control is a small sequential state
machine over the ordered children, their records and one field, `_lastBounds`:

- a child that reports an invalid measure loses its cached size, and it and
  every later child lose their cached offsets;
- a layout pass with bounds different from the last ones clears every record;
- a removed child takes its record with it;
- a layout pass fills in only the missing sizes (zero for an invisible child,
  the child's size request otherwise), gives each child the offset
  (left, running sum of earlier heights plus spacing), lays each child out at
  that offset with its cached size (skipping the call when the child is
  already there), and remembers the bounds;
- a size request is zero with no children, fails for horizontal or unknown
  orientations, and otherwise is the widest child by the stacked height.

The project has five modules:

- `Wrappers` — `Option`, `Outcome` and `Result`.
- `Geometry` — the toolkit's `Size`, `Rectangle`, `SizeRequest`,
  `StackOrientation`, and the exceptions the control raises.
- `Measures` — the records and children as values. It also holds one function
  per step, which says what that step does to the sequence of children.
- `FastRepeater` — the class `FastRepeaterView`. Its fields are the children,
  the spacing, the orientation and the last bounds. Its methods perform the
  steps in place, and each method is proved to leave exactly the state the
  matching function describes. Two ghost logs record every external measure
  call and every external `Layout` call.
- `LayoutLemmas` — proofs of what the steps promise. This covers which records
  an invalidation clears, and which children a pass measures or lays out
  again. It also covers the offsets, the idempotence of a repeated pass and
  the size request.

The toolkit's `GetSizeRequest` is a parameter of type `Measurer` of the methods
that measure. `View.Layout(rect)` is modelled by its effect: the child's bounds
become `rect`. Widths, heights and offsets are integers.

### Behaviour of the code worth noting

- The only cache is the per-child record. Every pass walks every child and
  recomputes every offset.
- A frame gets the child's own cached size (line 88), not the container's
  width.
- A frame's vertical position starts at 0 and ignores the top of the bounds
  (lines 115-123).
- The orientation is checked only by `OnSizeRequest` (lines 170-180).
  `LayoutChildren` stacks vertically whatever the orientation.
- The requested width is the widest cached child width (line 188), not the
  width constraint.
- Offsets are always recomputed by `EnsureChildrenMeasure`, so only the cached
  sizes save work. Clearing offsets on invalidation does not change any result.

## Model

| member | source | states |
|---|---|---|
| `Measures.MakeDirty` | src/Xamarin.Forms.Labs/Xamarin.Forms.Labs/Controls/FastRepeaterView.cs:15-25 | the size is cleared iff `size` is set (or it was already unknown), the offset iff `offset` is set; a field that is not cleared keeps its value |
| `Measures.IndexOf` | src/Xamarin.Forms.Labs/Xamarin.Forms.Labs/Controls/FastRepeaterView.cs:59 | the first position holding the sender, or -1 exactly when no child is the sender |
| `Measures.InvalidationStart` | src/Xamarin.Forms.Labs/Xamarin.Forms.Labs/Controls/FastRepeaterView.cs:59 | the walk starts at the sender's first position; an unknown sender (`Skip(-1)`) walks every child |
| `Measures.FirstUnrecorded` | src/Xamarin.Forms.Labs/Xamarin.Forms.Labs/Controls/FastRepeaterView.cs:59-62 | the first child at or after the start without a record: every child before it has one |
| `LayoutLemmas.ResetClearsAll` | src/Xamarin.Forms.Labs/Xamarin.Forms.Labs/Controls/FastRepeaterView.cs:69-79 | every existing record becomes fully unknown; a child without a record keeps none; the views themselves are unchanged |
| `LayoutLemmas.WithSizesFillsMissing` | src/Xamarin.Forms.Labs/Xamarin.Forms.Labs/Controls/FastRepeaterView.cs:128-156 | afterwards every child has a record with a size; a child that had a size is unchanged; an invisible child without one gets zero, a visible one its request; offsets and the views are kept |
| `Measures.SizeCalls` | src/Xamarin.Forms.Labs/Xamarin.Forms.Labs/Controls/FastRepeaterView.cs:143-153 | at most as many measurements as children, and none at all when every child already has a size |
| `LayoutLemmas.WithOffsetsStacks` | src/Xamarin.Forms.Labs/Xamarin.Forms.Labs/Controls/FastRepeaterView.cs:115-125 | child i's frame is at (left, offset i) with its cached size unchanged; the views are kept |
| `Measures.Placed` | src/Xamarin.Forms.Labs/Xamarin.Forms.Labs/Controls/FastRepeaterView.cs:69-81 | after clearing and `EnsureChildrenMeasure` every child has both a size and an offset |
| `LayoutLemmas.ArrangedAtFrames` | src/Xamarin.Forms.Labs/Xamarin.Forms.Labs/Controls/FastRepeaterView.cs:83-91 | every child's bounds become its frame; records and views are untouched |
| `Measures.LayoutCalls` | src/Xamarin.Forms.Labs/Xamarin.Forms.Labs/Controls/FastRepeaterView.cs:83-104 | at most as many `Layout` calls as children |
| `Measures.LayoutPass` | src/Xamarin.Forms.Labs/Xamarin.Forms.Labs/Controls/FastRepeaterView.cs:65-94 | after a layout pass every child has a size and an offset |
| `Measures.LayoutPassKeepsViews` | src/Xamarin.Forms.Labs/Xamarin.Forms.Labs/Controls/FastRepeaterView.cs:65-94 | a layout pass keeps every view at its position with its visibility, so distinct views stay distinct |
| `Measures.MaxWidth` | src/Xamarin.Forms.Labs/Xamarin.Forms.Labs/Controls/FastRepeaterView.cs:188 | the result is at least every cached width and equals one of them |
| `FastRepeater.FastRepeaterView.constructor` | src/Xamarin.Forms.Labs/Xamarin.Forms.Labs/Controls/FastRepeaterView.cs:30-35 | a new repeater has no children, no last bounds and has made no external calls |
| `FastRepeater.FastRepeaterView.Insert` | src/Xamarin.Forms.Labs/Xamarin.Forms.Labs/Controls/FastRepeaterView.cs:48-54 | an added view enters at its position without a record; ids stay distinct |
| `FastRepeater.FastRepeaterView.RemoveAt` | src/Xamarin.Forms.Labs/Xamarin.Forms.Labs/Controls/FastRepeaterView.cs:39-46 | the removed view leaves the sequence with its record; the other children keep theirs, in order |
| `FastRepeater.FastRepeaterView.OnChildMeasureInvalidated` | src/Xamarin.Forms.Labs/Xamarin.Forms.Labs/Controls/FastRepeaterView.cs:57-63 | the children become `Invalidated(old children, sender)`; the outcome is a null-reference fault exactly when the walk meets a child without a record |
| `FastRepeater.FastRepeaterView.OnChildMeasureInvalidatedGuarded` | src/Xamarin.Forms.Labs/Xamarin.Forms.Labs/Controls/FastRepeaterView.cs:57-63 | the corrected walk (see Findings): the children become `InvalidatedGuarded(old children, sender)` and nothing is thrown |
| `FastRepeater.FastRepeaterView.EnsureChildrenSize` | src/Xamarin.Forms.Labs/Xamarin.Forms.Labs/Controls/FastRepeaterView.cs:128-156 | the children become `WithSizes` of the old ones, and the measure log grows by exactly `SizeCalls` of the old children |
| `FastRepeater.FastRepeaterView.SizeChild` | src/Xamarin.Forms.Labs/Xamarin.Forms.Labs/Controls/FastRepeaterView.cs:137-154 | one iteration: the child gets a record if it had none, and a size if it had none; the external measurement is called, and logged, only for a visible child without a size |
| `FastRepeater.FastRepeaterView.EnsureChildrenMeasure` | src/Xamarin.Forms.Labs/Xamarin.Forms.Labs/Controls/FastRepeaterView.cs:106-126 | the children become the sized children with offsets from the bounds' left edge; the measure log grows by the size calls |
| `FastRepeater.FastRepeaterView.PlaceChildren` | src/Xamarin.Forms.Labs/Xamarin.Forms.Labs/Controls/FastRepeaterView.cs:115-125 | the accumulating offset loop leaves exactly `WithOffsets` of the sized children |
| `FastRepeater.FastRepeaterView.PlaceChild` | src/Xamarin.Forms.Labs/Xamarin.Forms.Labs/Controls/FastRepeaterView.cs:117-124 | one iteration: only the child at the index changes, its offset becomes (left, y), and its cached height is returned |
| `Measures.RunningOffsets` | src/Xamarin.Forms.Labs/Xamarin.Forms.Labs/Controls/FastRepeaterView.cs:115-124 | the running sums of the loop: the first is 0 and each next one adds the child's cached height plus the spacing |
| `Measures.RunningOffsetsAgree` | src/Xamarin.Forms.Labs/Xamarin.Forms.Labs/Controls/FastRepeaterView.cs:115-124 | every running sum of the loop equals the recursive stacking offset `OffsetAt` |
| `FastRepeater.FastRepeaterView.LayoutChild` | src/Xamarin.Forms.Labs/Xamarin.Forms.Labs/Controls/FastRepeaterView.cs:96-104 | no change and no `Layout` call when the child's bounds already equal the rectangle; otherwise its bounds become the rectangle and one call is logged |
| `FastRepeater.FastRepeaterView.ResetRecords` | src/Xamarin.Forms.Labs/Xamarin.Forms.Labs/Controls/FastRepeaterView.cs:71-78 | the clearing walk leaves exactly `Reset` of the old children |
| `FastRepeater.FastRepeaterView.ArrangeChildren` | src/Xamarin.Forms.Labs/Xamarin.Forms.Labs/Controls/FastRepeaterView.cs:83-91 | every child is laid out at its frame, and the layout log grows by exactly `LayoutCalls` |
| `FastRepeater.FastRepeaterView.LayoutChildren` | src/Xamarin.Forms.Labs/Xamarin.Forms.Labs/Controls/FastRepeaterView.cs:65-94 | the last bounds become the bounds just used; the children become `LayoutPass` of the old ones; both logs grow by exactly that pass's calls |
| `FastRepeater.FastRepeaterView.OnSizeRequest` | src/Xamarin.Forms.Labs/Xamarin.Forms.Labs/Controls/FastRepeaterView.cs:158-181 | the ids stay distinct. No children: a zero request and minimum with nothing changed. Horizontal: `NotImplemented`. Unnamed orientation: `InvalidOperation`. Vertical: the vertical request over the sized children |
| `FastRepeater.FastRepeaterView.OnSizeRequestVertical` | src/Xamarin.Forms.Labs/Xamarin.Forms.Labs/Controls/FastRepeaterView.cs:183-193 | sizes are ensured for the constraints, and request and minimum are both `VerticalRequest` of the sized children |
| `LayoutLemmas.InvalidationClearsSuffix` | src/Xamarin.Forms.Labs/Xamarin.Forms.Labs/Controls/FastRepeaterView.cs:57-63 | with records from k on, invalidating child k does not throw. It clears the size of child k only and the offset of every child from k on. Earlier children are untouched |
| `LayoutLemmas.InvalidationAfterInsertFaults` | src/Xamarin.Forms.Labs/Xamarin.Forms.Labs/Controls/FastRepeaterView.cs:48-61 | a view inserted after child k since the last pass has no record, so invalidating child k throws a null dereference |
| `LayoutLemmas.GuardedInvalidationClearsSuffix` | src/Xamarin.Forms.Labs/Xamarin.Forms.Labs/Controls/FastRepeaterView.cs:57-63 | the guarded walk clears the intended fields for every recorded child from k on, with no record requirement. Earlier children are untouched, and no record is created |
| `LayoutLemmas.GuardedAgreesWhenNoFault` | src/Xamarin.Forms.Labs/Xamarin.Forms.Labs/Controls/FastRepeaterView.cs:57-63 | whenever the walk as written does not throw, the guarded walk gives the same children |
| `LayoutLemmas.SizeCallsExactlyUnsized` | src/Xamarin.Forms.Labs/Xamarin.Forms.Labs/Controls/FastRepeaterView.cs:143-153 | every measurement is of a visible child without a size, and every such child is measured: a cached size is never measured again, an invisible child never at all |
| `LayoutLemmas.SizeCallsOncePerChild` | src/Xamarin.Forms.Labs/Xamarin.Forms.Labs/Controls/FastRepeaterView.cs:135-154 | with distinct views, the measurements of one pass are for pairwise distinct views: no view is measured twice |
| `LayoutLemmas.SizeCallsOnlyFor` | src/Xamarin.Forms.Labs/Xamarin.Forms.Labs/Controls/FastRepeaterView.cs:143-153 | when only child k lacks a size, the only measurement is child k's (none if it is invisible) |
| `LayoutLemmas.SizeCallsAfterReset` | src/Xamarin.Forms.Labs/Xamarin.Forms.Labs/Controls/FastRepeaterView.cs:69-79 | after the records are cleared, the measurements are those of every visible child in order, whatever was cached |
| `LayoutLemmas.BoundsChangeRemeasuresAll` | src/Xamarin.Forms.Labs/Xamarin.Forms.Labs/Controls/FastRepeaterView.cs:67-81 | a pass whose bounds differ from the last ones (or the first pass) measures every visible child |
| `LayoutLemmas.SumHeightsAppend` | src/Xamarin.Forms.Labs/Xamarin.Forms.Labs/Controls/FastRepeaterView.cs:189-190 | adding a child to the end adds its height to the sum of heights |
| `LayoutLemmas.OffsetAtClosedForm` | src/Xamarin.Forms.Labs/Xamarin.Forms.Labs/Controls/FastRepeaterView.cs:115-125 | child i's offset is the sum of the i earlier heights plus i spacings |
| `LayoutLemmas.OffsetsMonotone` | src/Xamarin.Forms.Labs/Xamarin.Forms.Labs/Controls/FastRepeaterView.cs:115-125 | with non-negative heights and spacing, offsets never decrease down the list |
| `LayoutLemmas.OffsetAtSamePrefix` | src/Xamarin.Forms.Labs/Xamarin.Forms.Labs/Controls/FastRepeaterView.cs:115-125 | a child's offset depends only on the sizes of the children before it |
| `LayoutLemmas.LayoutPassSettled` | src/Xamarin.Forms.Labs/Xamarin.Forms.Labs/Controls/FastRepeaterView.cs:83-125 | after a pass, child i is at (bounds.x, offset i) with its cached size as frame size. The first child is at height 0 |
| `LayoutLemmas.SettledPassIsIdentity` | src/Xamarin.Forms.Labs/Xamarin.Forms.Labs/Controls/FastRepeaterView.cs:65-104 | on children already stacked at the same bounds, a pass measures nothing, lays nothing out and changes nothing |
| `LayoutLemmas.LayoutCallsExactlyMisplaced` | src/Xamarin.Forms.Labs/Xamarin.Forms.Labs/Controls/FastRepeaterView.cs:83-104 | a `Layout` call is made exactly for each child whose bounds differ from its frame, and it is made at that frame |
| `LayoutLemmas.LayoutCallsOncePerChild` | src/Xamarin.Forms.Labs/Xamarin.Forms.Labs/Controls/FastRepeaterView.cs:83-104 | with distinct views, the `Layout` calls of one pass are for pairwise distinct views: no view is laid out twice |
| `LayoutLemmas.LayoutCallsNone` | src/Xamarin.Forms.Labs/Xamarin.Forms.Labs/Controls/FastRepeaterView.cs:96-104 | when every child already sits at its frame, no `Layout` call is made |
| `LayoutLemmas.LayoutPassIdempotent` | src/Xamarin.Forms.Labs/Xamarin.Forms.Labs/Controls/FastRepeaterView.cs:65-104 | a second pass with the same bounds and nothing in between makes no measure call and no layout call, and leaves the children unchanged |
| `LayoutLemmas.InvalidateThenRelayout` | src/Xamarin.Forms.Labs/Xamarin.Forms.Labs/Controls/FastRepeaterView.cs:57-125 | after a pass, invalidating child k and passing again with the same bounds does not throw. Only child k is measured again (if visible). Children before k keep record and frame and are not laid out again |
| `LayoutLemmas.RelayoutAfterInvalidation` | src/Xamarin.Forms.Labs/Xamarin.Forms.Labs/Controls/FastRepeaterView.cs:57-125 | the same property (`RelayoutRedoesOnly`), starting from any settled children with distinct ids |
| `LayoutLemmas.RelayoutFromCleared` | src/Xamarin.Forms.Labs/Xamarin.Forms.Labs/Controls/FastRepeaterView.cs:65-125 | from settled children with child k's size and the later offsets cleared, the next pass measures child k alone and keeps every child before k |
| `LayoutLemmas.PrefixKeptAfterInvalidation` | src/Xamarin.Forms.Labs/Xamarin.Forms.Labs/Controls/FastRepeaterView.cs:106-125 | children before the first changed one come out of the next pass unchanged, and none of them is laid out again |
| `LayoutLemmas.FoldHeightClosedForm` | src/Xamarin.Forms.Labs/Xamarin.Forms.Labs/Controls/FastRepeaterView.cs:189-190 | the height fold from any seed is the seed plus the sum of heights plus one spacing per child |
| `LayoutLemmas.VerticalRequestHeight` | src/Xamarin.Forms.Labs/Xamarin.Forms.Labs/Controls/FastRepeaterView.cs:189-192 | the requested height is the sum of heights plus (n-1) spacings, which is the bottom edge of the last stacked child |
| `LayoutLemmas.VerticalRequestWidth` | src/Xamarin.Forms.Labs/Xamarin.Forms.Labs/Controls/FastRepeaterView.cs:188 | the requested width is the widest cached width |
| `LayoutLemmas.StackingExample` | src/Xamarin.Forms.Labs/Xamarin.Forms.Labs/Controls/FastRepeaterView.cs:115-125 | heights 10, 20 and 15 with spacing 5 are stacked at 0, 15 and 40. Each frame has the child's own width, and the request is (widest, 55) |

## Left out

- The `BindableProperty` attached-property mechanism (line 28) is left out. The record is a field of each child in the container's sequence, and records are values rather than shared objects. Each record belongs to exactly one child, so no aliasing is lost.
- Event subscription and unsubscription (lines 34, 43, 52) are left out. The model delivers an invalidation by calling `OnChildMeasureInvalidated` with the sender's identity.
- Collection changes other than insertion and removal are left out. A move or replace nulls the moved view's record (line 44). A reset carries no old items (line 39), so the views it removes keep their records and subscriptions. A view re-added after a reset would come back with its stale record, whereas the model's `Insert` always starts a view without a record; this is not modelled.
- The base class `RepeaterView<T>` is not part of this model. Its `Children`, `Spacing` and `Orientation` are plain fields here. How it creates views from items is not modelled.
- The toolkit's `GetSizeRequest` is a parameter. A change of a child's content is modelled as a different `Measurer` in the next pass. A change of a child's `IsVisible` after insertion is not modelled.
- `View.Layout` is modelled only by its effect on the child's bounds. Whatever else the toolkit does in it is left out.
- Floating-point behaviour of `double` sizes is left out: all sizes, offsets and spacing are unbounded integers. `Rectangle` equality at lines 69 and 98 is therefore exact structural equality.
- Measures.SizeCalls: its own contract gives only a bound and the all-sized case. Which views are measured is proved, as a set, by `LayoutLemmas.SizeCallsExactlyUnsized`, and that no view is measured twice by `LayoutLemmas.SizeCallsOncePerChild`.
- Measures.LayoutCalls: its own contract gives only a bound. Which views are laid out, and where, is proved by `LayoutLemmas.LayoutCallsExactlyMisplaced`, and that no view is laid out twice by `LayoutLemmas.LayoutCallsOncePerChild`.

## Findings

| source | as written | input that shows it | evidently intended | confidence | as-written member | corrected member |
|---|---|---|---|---|---|---|
| src/Xamarin.Forms.Labs/Xamarin.Forms.Labs/Controls/FastRepeaterView.cs:59-61 | dereferences the record of every child from the sender onward, but records are created only by a measuring pass (lines 137-142) | a repeater with one measured child k; a new view is added after it; child k raises `MeasureInvalidated` before the next layout pass | skip a child that has no record yet, as the clearing walk at lines 73-77 does | medium, not executed | `LayoutLemmas.InvalidationAfterInsertFaults` | `LayoutLemmas.GuardedInvalidationClearsSuffix` |
