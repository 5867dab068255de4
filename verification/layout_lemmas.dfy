/**
 * What the repeater's steps promise, proved about the functions of module
 * Measures that the class in module FastRepeater is proved against.
 */
module LayoutLemmas {
  import opened Wrappers
  import opened Geometry
  import opened Measures

  // ---------------------------------------------------------------------------
  // Invalidation by a child

  /**
   * Invalidating child k (with every record from k onward present) clears the
   * size of child k only, clears the offset of child k and of every later
   * child, and leaves every earlier child untouched.
   */
  lemma InvalidationClearsSuffix(cs: seq<Child>, k: nat)
    requires DistinctIds(cs) && k < |cs|
    requires forall j :: k <= j < |cs| ==> cs[j].measure.Some?
    ensures !InvalidationFaults(cs, cs[k].id)
    ensures var r := Invalidated(cs, cs[k].id);
      |r| == |cs|
      && (forall j :: 0 <= j < k ==> r[j] == cs[j])
      && r[k].measure.Some? && r[k].measure.value.size == None
      && (forall j :: k < j < |cs| ==> r[j].measure.Some? && r[j].measure.value.size == cs[j].measure.value.size)
      && (forall j :: k <= j < |cs| ==> r[j].measure.value.offset == None)
      && (forall j :: 0 <= j < |cs| ==> r[j].id == cs[j].id && r[j].visible == cs[j].visible && r[j].bounds == cs[j].bounds)
  {
    assert InvalidationStart(cs, cs[k].id) == k;
    assert FirstUnrecorded(cs, k) == |cs|;
  }

  /**
   * The hazard of the invalidation walk: a child inserted after the sender
   * since the last layout pass has no record, and the walk throws on it.
   */
  lemma InvalidationAfterInsertFaults(cs: seq<Child>, k: nat, index: nat, added: Child)
    requires DistinctIds(cs) && k < index <= |cs|
    requires added.measure.None? && added.id != cs[k].id
    ensures InvalidationFaults(cs[..index] + [added] + cs[index..], cs[k].id)
  {
    var cs' := cs[..index] + [added] + cs[index..];
    assert cs'[k] == cs[k] && cs'[index] == added;
    assert forall j :: 0 <= j < k ==> cs'[j] == cs[j];
    var s := InvalidationStart(cs', cs[k].id);
    assert s == k;
    assert FirstUnrecorded(cs', s) <= index;
  }

  /** With the null check, invalidating child k cannot throw and still clears what the walk is meant to clear. */
  lemma GuardedInvalidationClearsSuffix(cs: seq<Child>, k: nat)
    requires DistinctIds(cs) && k < |cs|
    ensures var r := InvalidatedGuarded(cs, cs[k].id);
      |r| == |cs|
      && (forall j :: 0 <= j < k ==> r[j] == cs[j])
      && (forall j :: k <= j < |cs| ==> r[j].measure.Some? == cs[j].measure.Some?)
      && (r[k].measure.Some? ==> r[k].measure.value.size == None)
      && (forall j :: k < j < |cs| && r[j].measure.Some? ==> r[j].measure.value.size == cs[j].measure.value.size)
      && (forall j :: k <= j < |cs| && r[j].measure.Some? ==> r[j].measure.value.offset == None)
      && (forall j :: 0 <= j < |cs| ==> r[j].id == cs[j].id && r[j].visible == cs[j].visible && r[j].bounds == cs[j].bounds)
  {
    assert InvalidationStart(cs, cs[k].id) == k;
  }

  /** Where the walk as written does not throw, the guarded walk leaves exactly the same children. */
  lemma GuardedAgreesWhenNoFault(cs: seq<Child>, sender: ChildId)
    requires !InvalidationFaults(cs, sender)
    ensures InvalidatedGuarded(cs, sender) == Invalidated(cs, sender)
  {
    var s := InvalidationStart(cs, sender);
    assert FirstUnrecorded(cs, s) == |cs|;
  }

  // ---------------------------------------------------------------------------
  // Invalidation by new bounds

  /**
   * Clearing for new bounds leaves every existing record with neither size
   * nor offset, creates no record, and leaves the views themselves alone.
   */
  lemma ResetClearsAll(cs: seq<Child>)
    ensures var r := Reset(cs);
      |r| == |cs|
      && (forall i :: 0 <= i < |cs| ==> r[i].measure == if cs[i].measure.Some? then Some(Blank) else None)
      && (forall i :: 0 <= i < |cs| ==>
            r[i].id == cs[i].id && r[i].visible == cs[i].visible && r[i].bounds == cs[i].bounds)
  {
    var r := Reset(cs);
    forall i | 0 <= i < |cs|
      ensures r[i].measure == if cs[i].measure.Some? then Some(Blank) else None
    {
      if cs[i].measure.Some? {
        assert r[i].measure == Some(MakeDirty(cs[i].measure.value, true, true));
      }
    }
  }

  // ---------------------------------------------------------------------------
  // External measurement

  /**
   * After `EnsureChildrenSize` every child has a size. A child that had one is
   * unchanged; one that had none gets zero when invisible and its request
   * otherwise; offsets and the views themselves are untouched.
   */
  lemma WithSizesFillsMissing(cs: seq<Child>, constraint: Size, measure: Measurer)
    ensures var r := WithSizes(cs, constraint, measure);
      |r| == |cs| && AllSized(r)
      && (forall i :: 0 <= i < |cs| && HasSize(cs[i]) ==> r[i] == cs[i])
      && (forall i :: 0 <= i < |cs| && !HasSize(cs[i]) && !cs[i].visible ==> SizeOf(r[i]) == Zero)
      && (forall i :: 0 <= i < |cs| && !HasSize(cs[i]) && cs[i].visible ==>
            SizeOf(r[i]) == measure(cs[i].id, constraint.width, constraint.height).request)
      && (forall i :: 0 <= i < |cs| ==>
            r[i].measure.value.offset == if cs[i].measure.Some? then cs[i].measure.value.offset else None)
      && (forall i :: 0 <= i < |cs| ==>
            r[i].id == cs[i].id && r[i].visible == cs[i].visible && r[i].bounds == cs[i].bounds)
  {
    var r := WithSizes(cs, constraint, measure);
    assert forall i :: 0 <= i < |cs| ==> r[i] == SizedChild(cs[i], constraint, measure);
  }

  /**
   * A child is measured by `EnsureChildrenSize` exactly when it is visible and
   * has no size: every call is for such a child, and every such child gets one.
   */
  lemma {:induction false} SizeCallsExactlyUnsized(cs: seq<Child>, constraint: Size)
    ensures forall call :: call in SizeCalls(cs, constraint) ==>
              exists i :: 0 <= i < |cs| && !HasSize(cs[i]) && cs[i].visible
                          && call == MeasureCall(cs[i].id, constraint.width, constraint.height)
    ensures forall i :: 0 <= i < |cs| && !HasSize(cs[i]) && cs[i].visible ==>
              MeasureCall(cs[i].id, constraint.width, constraint.height) in SizeCalls(cs, constraint)
  {
    if cs != [] {
      var init := cs[..|cs| - 1];
      SizeCallsExactlyUnsized(init, constraint);
      assert forall i :: 0 <= i < |init| ==> init[i] == cs[i];
    }
  }

  /** With distinct views, no view is measured twice in one pass: the ids of the calls are pairwise distinct. */
  lemma {:induction false} SizeCallsOncePerChild(cs: seq<Child>, constraint: Size)
    requires DistinctIds(cs)
    ensures forall a, b :: 0 <= a < b < |SizeCalls(cs, constraint)| ==>
              SizeCalls(cs, constraint)[a].id != SizeCalls(cs, constraint)[b].id
  {
    if cs != [] {
      var init := cs[..|cs| - 1];
      assert forall i :: 0 <= i < |init| ==> init[i] == cs[i];
      SizeCallsOncePerChild(init, constraint);
      SizeCallsExactlyUnsized(init, constraint);
      var p := SizeCalls(init, constraint);
      var r := SizeCalls(cs, constraint);
      assert r == p + CallFor(cs[|cs| - 1], constraint);
      forall a, b | 0 <= a < b < |r|
        ensures r[a].id != r[b].id
      {
        if b < |p| {
          assert r[a] == p[a] && r[b] == p[b];
          assert p[a].id != p[b].id;
        } else {
          assert r[a] == p[a] && p[a] in p;
          var i :| 0 <= i < |init| && !HasSize(init[i]) && init[i].visible
                   && p[a] == MeasureCall(init[i].id, constraint.width, constraint.height);
          assert r[b].id == cs[|cs| - 1].id && p[a].id == cs[i].id;
          assert cs[i].id != cs[|cs| - 1].id;
        }
      }
    }
  }

  /** When every child but child k has a size, the pass measures child k alone (if visible). */
  lemma {:induction false} SizeCallsOnlyFor(cs: seq<Child>, k: nat, constraint: Size)
    requires k < |cs|
    requires forall j :: 0 <= j < |cs| && j != k ==> HasSize(cs[j])
    ensures SizeCalls(cs, constraint) == CallFor(cs[k], constraint)
  {
    var init := cs[..|cs| - 1];
    if k == |cs| - 1 {
      assert AllSized(init);
    } else {
      SizeCallsOnlyFor(init, k, constraint);
    }
  }

  /** After the bounds change every visible child is measured, whatever was cached before. */
  lemma {:induction false} SizeCallsAfterReset(cs: seq<Child>, constraint: Size)
    ensures SizeCalls(Reset(cs), constraint) == VisibleCalls(cs, constraint)
  {
    if cs != [] {
      var init := cs[..|cs| - 1];
      SizeCallsAfterReset(init, constraint);
      assert Reset(cs)[..|cs| - 1] == Reset(init);
    }
  }

  /** A layout pass with new bounds (or the first one) measures every visible child, in order. */
  lemma BoundsChangeRemeasuresAll(cs: seq<Child>, last: Option<Rect>, bounds: Rect)
    requires last != Some(bounds)
    ensures PassSizeCalls(cs, last, bounds) == VisibleCalls(cs, Size(bounds.width, bounds.height))
  {
    SizeCallsAfterReset(cs, Size(bounds.width, bounds.height));
  }

  // ---------------------------------------------------------------------------
  // Offsets and frames

  lemma {:induction false} SumHeightsAppend(cs: seq<Child>, c: Child)
    requires AllSized(cs) && HasSize(c)
    ensures SumHeights(cs + [c]) == SumHeights(cs) + SizeOf(c).height
  {
    if cs != [] {
      assert (cs + [c])[1..] == cs[1..] + [c];
      SumHeightsAppend(cs[1..], c);
    }
  }

  /** The offset of child i is the sum of the heights before it plus i spacings. */
  lemma {:induction false} OffsetAtClosedForm(cs: seq<Child>, spacing: int, i: nat)
    requires i <= |cs| && AllSized(cs)
    ensures OffsetAt(cs, spacing, i) == SumHeights(cs[..i]) + i * spacing
  {
    if i > 0 {
      OffsetAtClosedForm(cs, spacing, i - 1);
      assert cs[..i] == cs[..i - 1] + [cs[i - 1]];
      SumHeightsAppend(cs[..i - 1], cs[i - 1]);
    }
  }

  /** With non-negative heights and spacing, a later child never sits above an earlier one. */
  lemma {:induction false} OffsetsMonotone(cs: seq<Child>, spacing: int, i: nat, j: nat)
    requires i <= j <= |cs| && AllSized(cs) && spacing >= 0
    requires forall n :: 0 <= n < |cs| ==> SizeOf(cs[n]).height >= 0
    ensures OffsetAt(cs, spacing, i) <= OffsetAt(cs, spacing, j)
  {
    if i < j {
      OffsetsMonotone(cs, spacing, i, j - 1);
    }
  }

  /** The offset of child i depends only on the sizes of the children before it. */
  lemma {:induction false} OffsetAtSamePrefix(a: seq<Child>, b: seq<Child>, spacing: int, i: nat)
    requires i <= |a| && i <= |b|
    requires forall j :: 0 <= j < i ==> HasSize(a[j]) && HasSize(b[j]) && SizeOf(a[j]) == SizeOf(b[j])
    ensures OffsetAt(a, spacing, i) == OffsetAt(b, spacing, i)
  {
    if i > 0 {
      OffsetAtSamePrefix(a, b, spacing, i - 1);
    }
  }

  /**
   * After the offset loop, child i's frame is at (left, offset i) and keeps
   * the child's cached size; nothing but the offsets changes.
   */
  lemma WithOffsetsStacks(cs: seq<Child>, left: int, spacing: int)
    requires AllSized(cs)
    ensures var r := WithOffsets(cs, left, spacing);
      |r| == |cs|
      && (forall i :: 0 <= i < |cs| ==>
            Frame(r[i]) == Rect(left, OffsetAt(cs, spacing, i), SizeOf(cs[i]).width, SizeOf(cs[i]).height))
      && (forall i :: 0 <= i < |cs| ==>
            r[i].id == cs[i].id && r[i].visible == cs[i].visible && r[i].bounds == cs[i].bounds)
  {
    var r := WithOffsets(cs, left, spacing);
    assert forall i :: 0 <= i < |cs| ==> r[i] == AtOffset(cs[i], left, OffsetAt(cs, spacing, i));
  }

  /** Laying out every child puts each at its frame and touches no record. */
  lemma ArrangedAtFrames(cs: seq<Child>)
    requires AllFramed(cs)
    ensures var r := Arranged(cs);
      |r| == |cs|
      && (forall i :: 0 <= i < |cs| ==> r[i].bounds == Frame(cs[i]) && r[i].measure == cs[i].measure)
      && (forall i :: 0 <= i < |cs| ==> r[i].id == cs[i].id && r[i].visible == cs[i].visible)
  {
  }

  /** Children stacked from `left` with the given spacing, each already laid out at its frame. */
  ghost predicate Settled(cs: seq<Child>, left: int, spacing: int) {
    AllFramed(cs)
    && forall i :: 0 <= i < |cs| ==>
         cs[i].measure.value.offset == Some(Size(left, OffsetAt(cs, spacing, i)))
         && cs[i].bounds == Frame(cs[i])
  }

  /**
   * After a layout pass, child i has a size and an offset and is laid out at
   * (bounds.x, offset i) with its cached size as frame size: the first child
   * at height 0, each next one below the previous plus the spacing.
   */
  lemma LayoutPassSettled(cs: seq<Child>, last: Option<Rect>, bounds: Rect, spacing: int, measure: Measurer)
    ensures var r := LayoutPass(cs, last, bounds, spacing, measure);
      Settled(r, bounds.x, spacing)
      && forall i :: 0 <= i < |r| ==>
           r[i].bounds == Rect(bounds.x, OffsetAt(r, spacing, i), SizeOf(r[i]).width, SizeOf(r[i]).height)
  {
    var sized := WithSizes(Prepared(cs, last, bounds), Size(bounds.width, bounds.height), measure);
    var placed := WithOffsets(sized, bounds.x, spacing);
    var r := Arranged(placed);
    forall i | 0 <= i < |r|
      ensures r[i].measure.value.offset == Some(Size(bounds.x, OffsetAt(r, spacing, i)))
      ensures r[i].bounds == Frame(r[i])
    {
      OffsetAtSamePrefix(r, sized, spacing, i);
    }
  }

  /** Settled children are a fixed point of a pass with the same bounds, and it calls nothing outside. */
  lemma SettledPassIsIdentity(cs: seq<Child>, bounds: Rect, spacing: int, measure: Measurer)
    requires Settled(cs, bounds.x, spacing)
    ensures PassSizeCalls(cs, Some(bounds), bounds) == []
    ensures Placed(cs, Some(bounds), bounds, spacing, measure) == cs
    ensures LayoutCalls(cs) == []
    ensures LayoutPass(cs, Some(bounds), bounds, spacing, measure) == cs
  {
    var sized := WithSizes(cs, Size(bounds.width, bounds.height), measure);
    assert sized == cs;
    var placed := WithOffsets(cs, bounds.x, spacing);
    assert placed == cs;
    LayoutCallsNone(cs);
  }

  /** No child laid out anywhere but at its frame means no layout call. */
  lemma {:induction false} LayoutCallsNone(cs: seq<Child>)
    requires AllFramed(cs)
    requires forall i :: 0 <= i < |cs| ==> cs[i].bounds == Frame(cs[i])
    ensures LayoutCalls(cs) == []
  {
    if cs != [] {
      LayoutCallsNone(cs[..|cs| - 1]);
    }
  }

  /** The layout loop calls `Layout` exactly for the children whose bounds differ from their frame, at that frame. */
  lemma {:induction false} LayoutCallsExactlyMisplaced(cs: seq<Child>)
    requires AllFramed(cs)
    ensures forall call :: call in LayoutCalls(cs) <==>
              exists i :: 0 <= i < |cs| && cs[i].bounds != Frame(cs[i]) && call == LayoutCall(cs[i].id, Frame(cs[i]))
  {
    if cs != [] {
      var init := cs[..|cs| - 1];
      LayoutCallsExactlyMisplaced(init);
      assert forall i :: 0 <= i < |init| ==> init[i] == cs[i];
    }
  }

  /** With distinct views, no view is laid out twice in one pass: the ids of the calls are pairwise distinct. */
  lemma {:induction false} LayoutCallsOncePerChild(cs: seq<Child>)
    requires AllFramed(cs) && DistinctIds(cs)
    ensures forall a, b :: 0 <= a < b < |LayoutCalls(cs)| ==> LayoutCalls(cs)[a].id != LayoutCalls(cs)[b].id
  {
    if cs != [] {
      var init := cs[..|cs| - 1];
      assert forall i :: 0 <= i < |init| ==> init[i] == cs[i];
      LayoutCallsOncePerChild(init);
      LayoutCallsExactlyMisplaced(init);
      var p := LayoutCalls(init);
      var r := LayoutCalls(cs);
      assert r == p + LayoutCallFor(cs[|cs| - 1]);
      forall a, b | 0 <= a < b < |r|
        ensures r[a].id != r[b].id
      {
        if b < |p| {
          assert r[a] == p[a] && r[b] == p[b];
          assert p[a].id != p[b].id;
        } else {
          assert r[a] == p[a] && p[a] in p;
          var i :| 0 <= i < |init| && init[i].bounds != Frame(init[i])
                   && p[a] == LayoutCall(init[i].id, Frame(init[i]));
          assert r[b].id == cs[|cs| - 1].id && p[a].id == cs[i].id;
          assert cs[i].id != cs[|cs| - 1].id;
        }
      }
    }
  }

  /**
   * Laying out twice with the same bounds and nothing in between: the second
   * pass measures nothing, lays nothing out and changes nothing.
   */
  lemma LayoutPassIdempotent(cs: seq<Child>, last: Option<Rect>, bounds: Rect, spacing: int, measure: Measurer)
    ensures var r := LayoutPass(cs, last, bounds, spacing, measure);
      PassSizeCalls(r, Some(bounds), bounds) == []
      && LayoutCalls(Placed(r, Some(bounds), bounds, spacing, measure)) == []
      && LayoutPass(r, Some(bounds), bounds, spacing, measure) == r
  {
    LayoutPassSettled(cs, last, bounds, spacing, measure);
    SettledPassIsIdentity(LayoutPass(cs, last, bounds, spacing, measure), bounds, spacing, measure);
  }

  /**
   * What invalidating child k of the laid-out children r and laying out again
   * with the same bounds does: the walk does not fault, only child k is measured
   * again (if visible), and the children before k keep their records and frames
   * and are not laid out again.
   */
  ghost predicate RelayoutRedoesOnly(r: seq<Child>, k: nat, bounds: Rect, spacing: int, measure: Measurer)
    requires k < |r|
  {
    var inv := Invalidated(r, r[k].id);
    !InvalidationFaults(r, r[k].id)
    && PassSizeCalls(inv, Some(bounds), bounds)
         == (if r[k].visible then [MeasureCall(r[k].id, bounds.width, bounds.height)] else [])
    && (forall j :: 0 <= j < k ==> LayoutPass(inv, Some(bounds), bounds, spacing, measure)[j] == r[j])
    && LayoutCalls(Placed(inv, Some(bounds), bounds, spacing, measure)[..k]) == []
  }

  /** Invalidating any child after a layout pass, then laying out again with the same bounds, redoes that child only. */
  lemma InvalidateThenRelayout(cs: seq<Child>, last: Option<Rect>, bounds: Rect, spacing: int, measure: Measurer, k: nat)
    requires DistinctIds(cs) && k < |cs|
    ensures var r := LayoutPass(cs, last, bounds, spacing, measure);
      r[k].id == cs[k].id && r[k].visible == cs[k].visible
      && RelayoutRedoesOnly(r, k, bounds, spacing, measure)
  {
    var r := LayoutPass(cs, last, bounds, spacing, measure);
    LayoutPassSettled(cs, last, bounds, spacing, measure);
    assert forall i :: 0 <= i < |cs| ==> r[i].id == cs[i].id && r[i].visible == cs[i].visible;
    RelayoutAfterInvalidation(r, bounds, spacing, measure, k);
  }

  /** The step of InvalidateThenRelayout that starts from settled children. */
  lemma RelayoutAfterInvalidation(r: seq<Child>, bounds: Rect, spacing: int, measure: Measurer, k: nat)
    requires Settled(r, bounds.x, spacing) && DistinctIds(r) && k < |r|
    ensures RelayoutRedoesOnly(r, k, bounds, spacing, measure)
  {
    assert forall j :: k <= j < |r| ==> HasFrame(r[j]);
    InvalidationClearsSuffix(r, k);
    RelayoutFromCleared(r, Invalidated(r, r[k].id), bounds, spacing, measure, k);
  }

  /**
   * The next pass after settled children had child k's size and every offset
   * from k on cleared: it measures child k alone and keeps the children before k.
   */
  lemma RelayoutFromCleared(r: seq<Child>, inv: seq<Child>, bounds: Rect, spacing: int, measure: Measurer, k: nat)
    requires Settled(r, bounds.x, spacing) && k < |r| == |inv|
    requires forall j :: 0 <= j < k ==> inv[j] == r[j]
    requires inv[k].measure.Some? && inv[k].measure.value.size == None
    requires forall j :: k < j < |r| ==> inv[j].measure.Some? && inv[j].measure.value.size == r[j].measure.value.size
    requires inv[k].id == r[k].id && inv[k].visible == r[k].visible
    ensures PassSizeCalls(inv, Some(bounds), bounds)
              == (if r[k].visible then [MeasureCall(r[k].id, bounds.width, bounds.height)] else [])
    ensures forall j :: 0 <= j < k ==> LayoutPass(inv, Some(bounds), bounds, spacing, measure)[j] == r[j]
    ensures LayoutCalls(Placed(inv, Some(bounds), bounds, spacing, measure)[..k]) == []
  {
    var size := Size(bounds.width, bounds.height);
    assert forall j :: 0 <= j < |inv| && j != k ==> HasSize(inv[j]);
    SizeCallsOnlyFor(inv, k, size);
    PrefixKeptAfterInvalidation(r, inv, bounds, spacing, measure, k);
  }

  /** Children before the invalidated one come out of the next pass exactly as they were. */
  lemma PrefixKeptAfterInvalidation(r: seq<Child>, inv: seq<Child>, bounds: Rect, spacing: int, measure: Measurer, k: nat)
    requires Settled(r, bounds.x, spacing) && k <= |r| == |inv|
    requires forall j :: 0 <= j < k ==> inv[j] == r[j]
    ensures forall j :: 0 <= j < k ==> Placed(inv, Some(bounds), bounds, spacing, measure)[j] == r[j]
    ensures forall j :: 0 <= j < k ==> LayoutPass(inv, Some(bounds), bounds, spacing, measure)[j] == r[j]
    ensures LayoutCalls(Placed(inv, Some(bounds), bounds, spacing, measure)[..k]) == []
  {
    var placed := Placed(inv, Some(bounds), bounds, spacing, measure);
    var sized := WithSizes(inv, Size(bounds.width, bounds.height), measure);
    forall j | 0 <= j < k
      ensures placed[j] == r[j]
    {
      OffsetAtSamePrefix(sized, r, spacing, j);
    }
    var prefix := placed[..k];
    forall j | 0 <= j < |prefix|
      ensures HasFrame(prefix[j]) && prefix[j].bounds == Frame(prefix[j])
    {
      assert prefix[j] == r[j];
    }
    LayoutCallsNone(prefix);
  }

  // ---------------------------------------------------------------------------
  // The vertical size request

  lemma {:induction false} FoldHeightClosedForm(acc: int, cs: seq<Child>, spacing: int)
    requires AllSized(cs)
    ensures FoldHeight(acc, cs, spacing) == acc + SumHeights(cs) + |cs| * spacing
    decreases |cs|
  {
    if cs != [] {
      FoldHeightClosedForm(acc + SizeOf(cs[0]).height + spacing, cs[1..], spacing);
    }
  }

  /**
   * The requested height is the sum of the heights plus one spacing between
   * each two children, which is the bottom edge of the last stacked child.
   */
  lemma VerticalRequestHeight(cs: seq<Child>, spacing: int)
    requires |cs| > 0 && AllSized(cs)
    ensures VerticalRequest(cs, spacing).height == SumHeights(cs) + (|cs| - 1) * spacing
    ensures VerticalRequest(cs, spacing).height == OffsetAt(cs, spacing, |cs| - 1) + SizeOf(cs[|cs| - 1]).height
  {
    var n := |cs|;
    var init := cs[..n - 1];
    FoldHeightClosedForm(-spacing, cs, spacing);
    assert VerticalRequest(cs, spacing).height == SumHeights(cs) + n * spacing - spacing;
    assert n * spacing - spacing == (n - 1) * spacing;
    OffsetAtClosedForm(cs, spacing, n - 1);
    assert cs == init + [cs[n - 1]];
    SumHeightsAppend(init, cs[n - 1]);
  }

  /** The requested width is the widest cached width. */
  lemma VerticalRequestWidth(cs: seq<Child>, spacing: int)
    requires |cs| > 0 && AllSized(cs)
    ensures forall i :: 0 <= i < |cs| ==> SizeOf(cs[i]).width <= VerticalRequest(cs, spacing).width
    ensures exists i :: 0 <= i < |cs| && SizeOf(cs[i]).width == VerticalRequest(cs, spacing).width
  {
    assert VerticalRequest(cs, spacing).width == MaxWidth(cs);
  }

  /**
   * Three visible children requesting heights 10, 20 and 15 with spacing 5:
   * they are stacked at heights 0, 15 and 40, each frame as wide as the
   * child's own request, and the requested height is 55.
   */
  lemma StackingExample(left: int)
    ensures var cs := [Child(0, true, Rect(0, 0, 0, 0), Some(MeasureRec(Some(Size(30, 10)), None))),
                       Child(1, true, Rect(0, 0, 0, 0), Some(MeasureRec(Some(Size(50, 20)), None))),
                       Child(2, true, Rect(0, 0, 0, 0), Some(MeasureRec(Some(Size(40, 15)), None)))];
      var placed := WithOffsets(cs, left, 5);
      Frame(placed[0]) == Rect(left, 0, 30, 10)
      && Frame(placed[1]) == Rect(left, 15, 50, 20)
      && Frame(placed[2]) == Rect(left, 40, 40, 15)
      && VerticalRequest(cs, 5) == Size(50, 55)
  {
    var cs := [Child(0, true, Rect(0, 0, 0, 0), Some(MeasureRec(Some(Size(30, 10)), None))),
               Child(1, true, Rect(0, 0, 0, 0), Some(MeasureRec(Some(Size(50, 20)), None))),
               Child(2, true, Rect(0, 0, 0, 0), Some(MeasureRec(Some(Size(40, 15)), None)))];
    assert OffsetAt(cs, 5, 2) == 40;
    VerticalRequestHeight(cs, 5);
    assert SumHeights(cs) == 45;
    assert MaxWidth(cs) == 50;
  }
}
