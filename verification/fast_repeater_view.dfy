/**
 * `FastRepeaterView`: a repeater that stacks its children top to bottom and
 * caches, per child, the measured size and the offset it was placed at.
 *
 * The container holds its children in order, each with its record, plus the
 * bounds of the last layout pass. The external measurement is passed to the
 * passes that use it; the external measure and layout calls are logged in two
 * ghost fields so that "not measured again" and "layout skipped" can be said.
 */
module FastRepeater {
  import opened Wrappers
  import opened Geometry
  import opened Measures

  class FastRepeaterView {
    /** The children in layout order, each with its cached measure record. */
    var children: seq<Child>
    /** The gap between two consecutive children. */
    var spacing: int
    /** The stacking direction; only vertical stacking is implemented. */
    var orientation: StackOrientation
    /** The bounds of the last layout pass, if there was one. */
    var lastBounds: Option<Rect>

    /** Every call of the external measurement, in order. */
    ghost var measureLog: seq<MeasureCall>
    /** Every call of the external `Layout` on a child, in order. */
    ghost var layoutLog: seq<LayoutCall>

    /** Each child view appears in the container once. */
    ghost predicate Valid()
      reads this
    {
      DistinctIds(children)
    }

    constructor (spacing: int, orientation: StackOrientation)
      ensures Valid()
      ensures children == [] && lastBounds == None
      ensures this.spacing == spacing && this.orientation == orientation
      ensures measureLog == [] && layoutLog == []
    {
      children := [];
      this.spacing := spacing;
      this.orientation := orientation;
      lastBounds := None;
      measureLog := [];
      layoutLog := [];
    }

    /**
     * A view enters the child collection at `index`: the repeater only
     * subscribes to its invalidation, so it has no record yet.
     */
    method Insert(index: nat, id: ChildId, visible: bool, bounds: Rect)
      requires Valid()
      requires index <= |children|
      requires forall j :: 0 <= j < |children| ==> children[j].id != id
      modifies this`children
      ensures Valid()
      ensures children == old(children[..index]) + [Child(id, visible, bounds, None)] + old(children[index..])
    {
      children := children[..index] + [Child(id, visible, bounds, None)] + children[index..];
    }

    /** The view at `index` leaves the child collection, and its record goes with it. */
    method RemoveAt(index: nat)
      requires Valid()
      requires index < |children|
      modifies this`children
      ensures Valid()
      ensures children == old(children[..index]) + old(children[index + 1..])
    {
      children := children[..index] + children[index + 1..];
    }

    /**
     * The child `sender` reports that its measure is invalid: from the sender
     * onward every record loses its offset, and the sender's loses its size.
     * A child without a record on that walk makes the dereference throw.
     */
    method OnChildMeasureInvalidated(sender: ChildId) returns (outcome: Outcome<Fault>)
      requires Valid()
      modifies this`children
      ensures Valid()
      ensures children == Invalidated(old(children), sender)
      ensures outcome == if InvalidationFaults(old(children), sender) then Fail(NullReference) else Pass
    {
      var start := IndexOf(children, sender);
      if start < 0 {
        start := 0;
      }
      assert start == InvalidationStart(children, sender);
      var i := start;
      while i < |children|
        invariant start <= i <= |children| == |old(children)|
        invariant forall j :: start <= j < i ==> old(children)[j].measure.Some?
        invariant children == DirtyRange(old(children), start, i, sender)
      {
        if children[i].measure.None? {
          assert FirstUnrecorded(old(children), start) == i;
          DirtyRangeKeepsIds(old(children), start, i, sender);
          return Fail(NullReference);
        }
        DirtyRangeStep(old(children), start, i, sender);
        children := children[i := Dirtied(children[i], sender)];
        i := i + 1;
      }
      assert FirstUnrecorded(old(children), start) == |children|;
      DirtyRangeKeepsIds(old(children), start, i, sender);
      outcome := Pass;
    }

    /** The same walk with a null check on each record (see Findings in the README). */
    method OnChildMeasureInvalidatedGuarded(sender: ChildId)
      requires Valid()
      modifies this`children
      ensures Valid()
      ensures children == InvalidatedGuarded(old(children), sender)
    {
      var start := IndexOf(children, sender);
      if start < 0 {
        start := 0;
      }
      var i := start;
      while i < |children|
        invariant start <= i <= |children| == |old(children)|
        invariant children == DirtyRange(old(children), start, i, sender)
      {
        if children[i].measure.Some? {
          DirtyRangeStep(old(children), start, i, sender);
          children := children[i := Dirtied(children[i], sender)];
        }
        i := i + 1;
      }
      DirtyRangeKeepsIds(old(children), start, i, sender);
    }

    /**
     * Fill in every missing size: a child without a record gets a blank one;
     * a child without a size gets zero when invisible and its measured
     * request otherwise. Children that have a size are not measured.
     */
    method EnsureChildrenSize(size: Size, measure: Measurer)
      modifies this`children, this`measureLog
      ensures children == WithSizes(old(children), size, measure)
      ensures measureLog == old(measureLog) + SizeCalls(old(children), size)
    {
      if |children| == 0 {
        return;
      }
      ghost var start := children;
      ghost var log := measureLog;
      var i := 0;
      while i < |children|
        invariant 0 <= i <= |start| == |children|
        invariant forall j :: 0 <= j < i ==> children[j] == SizedChild(start[j], size, measure)
        invariant forall j :: i <= j < |children| ==> children[j] == start[j]
        invariant measureLog == log + SizeCallsBefore(start, i, size)
      {
        assert children[i] == start[i];
        SizeChild(i, size, measure);
        i := i + 1;
      }
      SizeCallsBeforeAll(start, size);
      WithSizesExtensional(start, children, size, measure);
    }

    /** One iteration of `EnsureChildrenSize`: give child `index` a record and, if missing, a size. */
    method SizeChild(index: nat, size: Size, measure: Measurer)
      requires index < |children|
      modifies this`children, this`measureLog
      ensures children == old(children)[index := SizedChild(old(children)[index], size, measure)]
      ensures measureLog == old(measureLog) + CallFor(old(children)[index], size)
    {
      var c := children[index];
      var rec := if c.measure.Some? then c.measure.value else Blank;
      if rec.size.None? {
        if !c.visible {
          rec := rec.(size := Some(Zero));
        } else {
          var request := measure(c.id, size.width, size.height);
          measureLog := measureLog + [MeasureCall(c.id, size.width, size.height)];
          rec := rec.(size := Some(request.request));
        }
        children := children[index := c.(measure := Some(rec))];
      }
    }

    /** Ensure every size, then place each child below the previous one, starting at offset 0. */
    method EnsureChildrenMeasure(bounds: Rect, measure: Measurer)
      modifies this`children, this`measureLog
      ensures children == WithOffsets(WithSizes(old(children), Size(bounds.width, bounds.height), measure), bounds.x, spacing)
      ensures measureLog == old(measureLog) + SizeCalls(old(children), Size(bounds.width, bounds.height))
    {
      if |children| == 0 {
        return;
      }
      EnsureChildrenSize(Size(bounds.width, bounds.height), measure);
      PlaceChildren(bounds.x);
    }

    /** The offset loop: each child's offset is (left, running sum of earlier heights plus spacing). */
    method PlaceChildren(left: int)
      requires AllSized(children)
      modifies this`children
      ensures children == WithOffsets(old(children), left, spacing)
    {
      ghost var sized := children;
      ghost var offsets := RunningOffsets(sized, spacing);
      var offset := 0;
      var i := 0;
      while i < |children|
        invariant 0 <= i <= |sized| == |children|
        invariant offset == offsets[i]
        invariant forall j :: 0 <= j < i ==> children[j] == AtOffset(sized[j], left, offsets[j])
        invariant forall j :: i <= j < |children| ==> children[j] == sized[j]
      {
        assert children[i] == sized[i];
        var height := PlaceChild(i, left, offset);
        offset := offset + height + spacing;
        i := i + 1;
      }
      PlacedAtRunningOffsets(sized, children, left, spacing);
    }

    /** One iteration of the offset loop: child `index` gets the offset (left, y); returns its cached height. */
    method PlaceChild(index: nat, left: int, y: int) returns (height: int)
      requires index < |children| && HasSize(children[index])
      modifies this`children
      ensures height == SizeOf(old(children)[index]).height
      ensures children == old(children)[index := AtOffset(old(children)[index], left, y)]
    {
      height := SizeOf(children[index]).height;
      children := children[index := AtOffset(children[index], left, y)];
    }

    /** Lay the child at `index` out at `frame`, unless it is there already. */
    method LayoutChild(index: nat, frame: Rect)
      requires index < |children|
      modifies this`children, this`layoutLog
      ensures old(children[index].bounds) == frame ==> children == old(children) && layoutLog == old(layoutLog)
      ensures old(children[index].bounds) != frame ==>
                children == old(children[index := children[index].(bounds := frame)])
                && layoutLog == old(layoutLog) + [LayoutCall(old(children[index].id), frame)]
    {
      if children[index].bounds == frame {
        return;
      }
      children := children[index := children[index].(bounds := frame)];
      layoutLog := layoutLog + [LayoutCall(children[index].id, frame)];
    }

    /**
     * The arrange pass: clear every record when the bounds differ from the
     * last ones, place the children, lay each out at its cached offset with
     * its cached size, and remember the bounds.
     */
    method LayoutChildren(x: int, y: int, width: int, height: int, measure: Measurer)
      requires Valid()
      modifies this`children, this`lastBounds, this`measureLog, this`layoutLog
      ensures Valid()
      ensures lastBounds == Some(Rect(x, y, width, height))
      ensures children == LayoutPass(old(children), old(lastBounds), Rect(x, y, width, height), spacing, measure)
      ensures measureLog == old(measureLog) + PassSizeCalls(old(children), old(lastBounds), Rect(x, y, width, height))
      ensures layoutLog == old(layoutLog)
                + LayoutCalls(Placed(old(children), old(lastBounds), Rect(x, y, width, height), spacing, measure))
    {
      var bounds := Rect(x, y, width, height);
      if lastBounds != Some(bounds) {
        ResetRecords();
      }
      assert children == Prepared(old(children), old(lastBounds), bounds);
      EnsureChildrenMeasure(bounds, measure);
      ghost var placed := children;
      assert placed == Placed(old(children), old(lastBounds), bounds, spacing, measure);
      ArrangeChildren();
      LayoutPassKeepsViews(old(children), old(lastBounds), bounds, spacing, measure);
      lastBounds := Some(bounds);
    }

    /** The walk taken when the bounds changed: every existing record loses its size and offset. */
    method ResetRecords()
      modifies this`children
      ensures children == Reset(old(children))
    {
      var i := 0;
      while i < |children|
        invariant 0 <= i <= |children| == |old(children)|
        invariant forall j :: 0 <= j < i ==> children[j] == Reset(old(children))[j]
        invariant forall j :: i <= j < |children| ==> children[j] == old(children)[j]
      {
        if children[i].measure.Some? {
          children := children[i := children[i].(measure := Some(MakeDirty(children[i].measure.value, true, true)))];
        }
        i := i + 1;
      }
    }

    /** The layout loop: lay every child out at its cached offset with its cached size. */
    method ArrangeChildren()
      requires AllFramed(children)
      modifies this`children, this`layoutLog
      ensures children == Arranged(old(children))
      ensures layoutLog == old(layoutLog) + LayoutCalls(old(children))
    {
      ghost var placed := children;
      var i := 0;
      while i < |children|
        invariant 0 <= i <= |children| == |placed|
        invariant forall j :: 0 <= j < i ==> children[j] == Arranged(placed)[j]
        invariant forall j :: i <= j < |children| ==> children[j] == placed[j]
        invariant layoutLog == old(layoutLog) + LayoutCallsBefore(placed, i)
      {
        var rec := children[i].measure.value;
        var frame := Rect(rec.offset.value.width, rec.offset.value.height, rec.size.value.width, rec.size.value.height);
        assert frame == Frame(placed[i]);
        ghost var before := layoutLog;
        LayoutChild(i, frame);
        assert layoutLog == before + LayoutCallFor(placed[i]);
        i := i + 1;
      }
      LayoutCallsBeforeAll(placed);
    }

    /**
     * The size request: zero with no children; otherwise the vertical request,
     * or the exception for a horizontal or an unnamed orientation.
     */
    method OnSizeRequest(widthConstraint: int, heightConstraint: int, measure: Measurer)
      returns (r: Result<SizeRequest, Fault>)
      requires Valid()
      modifies this`children, this`measureLog
      ensures Valid()
      ensures |old(children)| == 0 ==>
                r == Success(SizeRequest(Zero, Zero)) && children == old(children) && measureLog == old(measureLog)
      ensures |old(children)| > 0 && orientation == Horizontal ==>
                r == Failure(NotImplemented) && children == old(children) && measureLog == old(measureLog)
      ensures |old(children)| > 0 && orientation.Unnamed? ==>
                r == Failure(InvalidOperation) && children == old(children) && measureLog == old(measureLog)
      ensures |old(children)| > 0 && orientation == Vertical ==>
                children == WithSizes(old(children), Size(widthConstraint, heightConstraint), measure)
                && measureLog == old(measureLog) + SizeCalls(old(children), Size(widthConstraint, heightConstraint))
                && r == Success(SizeRequest(VerticalRequest(children, spacing), VerticalRequest(children, spacing)))
    {
      if |children| == 0 {
        return Success(SizeRequest(Zero, Zero));
      }
      match orientation
      case Horizontal =>
        r := Failure(NotImplemented);
      case Vertical =>
        var request := OnSizeRequestVertical(widthConstraint, heightConstraint, measure);
        r := Success(request);
      case Unnamed(_) =>
        r := Failure(InvalidOperation);
    }

    /** Ensure every size for the constraints, then take the widest width and the stacked height. */
    method OnSizeRequestVertical(widthConstraint: int, heightConstraint: int, measure: Measurer)
      returns (r: SizeRequest)
      requires |children| > 0
      modifies this`children, this`measureLog
      ensures children == WithSizes(old(children), Size(widthConstraint, heightConstraint), measure)
      ensures measureLog == old(measureLog) + SizeCalls(old(children), Size(widthConstraint, heightConstraint))
      ensures r.request == r.minimum == VerticalRequest(children, spacing)
    {
      EnsureChildrenSize(Size(widthConstraint, heightConstraint), measure);
      var request := Size(MaxWidth(children), FoldHeight(-spacing, children, spacing));
      r := SizeRequest(request, request);
    }
  }
}
