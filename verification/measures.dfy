/**
 * The per-child measure cache of the fast repeater, as values.
 *
 * Every child of the repeater may carry a record holding its cached size and
 * its cached offset (both possibly unknown). The functions here say what each
 * step of the repeater does to the ordered sequence of children; the class in
 * module FastRepeater performs the same steps in place and is proved against
 * them, and module LayoutLemmas proves what the steps promise.
 */
module Measures {
  import opened Wrappers
  import opened Geometry

  /** The identity of a child view (a reference in the toolkit). */
  type ChildId = nat

  /**
   * The toolkit's `GetSizeRequest(widthConstraint, heightConstraint)` on the
   * child with the given identity, as it answers during one pass.
   */
  type Measurer = (ChildId, int, int) -> SizeRequest

  /** The cached measure of one child: an optional size and an optional offset. */
  datatype MeasureRec = MeasureRec(size: Option<Size>, offset: Option<Size>)

  /** A fresh record, as `new Measure()` creates it: nothing known. */
  const Blank: MeasureRec := MeasureRec(None, None)

  /** A child view together with the repeater's record for it (absent until first measured). */
  datatype Child = Child(id: ChildId, visible: bool, bounds: Rect, measure: Option<MeasureRec>)

  /** One call of the external measurement. */
  datatype MeasureCall = MeasureCall(id: ChildId, widthConstraint: int, heightConstraint: int)

  /** One call of the external `Layout` on a child. */
  datatype LayoutCall = LayoutCall(id: ChildId, frame: Rect)

  /** `Measure.MakeDirty`: forget the size when `size` holds and the offset when `offset` holds. */
  function MakeDirty(m: MeasureRec, size: bool, offset: bool): (r: MeasureRec)
    ensures r.size.None? <==> size || m.size.None?
    ensures r.offset.None? <==> offset || m.offset.None?
    ensures r.size.Some? ==> r.size == m.size
    ensures r.offset.Some? ==> r.offset == m.offset
  {
    MeasureRec(if size then None else m.size, if offset then None else m.offset)
  }

  ghost predicate DistinctIds(cs: seq<Child>) {
    forall i, j :: 0 <= i < j < |cs| ==> cs[i].id != cs[j].id
  }

  predicate HasSize(c: Child) {
    c.measure.Some? && c.measure.value.size.Some?
  }

  predicate HasFrame(c: Child) {
    HasSize(c) && c.measure.value.offset.Some?
  }

  predicate AllSized(cs: seq<Child>) {
    forall i :: 0 <= i < |cs| ==> HasSize(cs[i])
  }

  predicate AllFramed(cs: seq<Child>) {
    forall i :: 0 <= i < |cs| ==> HasFrame(cs[i])
  }

  function SizeOf(c: Child): Size
    requires HasSize(c)
  {
    c.measure.value.size.value
  }

  /** The rectangle a child is laid out at: its cached offset as location and its cached size. */
  function Frame(c: Child): Rect
    requires HasFrame(c)
  {
    var off := c.measure.value.offset.value;
    Rect(off.width, off.height, SizeOf(c).width, SizeOf(c).height)
  }

  // ---------------------------------------------------------------------------
  // Invalidation when a child reports that its own measure is invalid

  /** `IList.IndexOf`: the first position holding `id`, or -1 when there is none. */
  function IndexOf(cs: seq<Child>, id: ChildId): (r: int)
    ensures -1 <= r < |cs|
    ensures r >= 0 ==> cs[r].id == id && forall j :: 0 <= j < r ==> cs[j].id != id
    ensures r == -1 <==> forall j :: 0 <= j < |cs| ==> cs[j].id != id
  {
    if cs == [] then -1
    else if cs[0].id == id then 0
    else
      var k := IndexOf(cs[1..], id);
      if k < 0 then -1 else k + 1
  }

  /**
   * Where the invalidation walk starts: `Skip(IndexOf(sender))`, and skipping
   * a negative count skips nothing, so an unknown sender walks every child.
   */
  function InvalidationStart(cs: seq<Child>, sender: ChildId): (r: nat)
    ensures r <= |cs|
    ensures (exists j :: 0 <= j < |cs| && cs[j].id == sender) ==>
              r < |cs| && cs[r].id == sender && forall j :: 0 <= j < r ==> cs[j].id != sender
    ensures (forall j :: 0 <= j < |cs| ==> cs[j].id != sender) ==> r == 0
  {
    var k := IndexOf(cs, sender);
    if k < 0 then 0 else k
  }

  /** The first position at or after `from` whose child has no record, or |cs| when there is none. */
  function FirstUnrecorded(cs: seq<Child>, from: nat): (r: nat)
    requires from <= |cs|
    ensures from <= r <= |cs|
    ensures forall j :: from <= j < r ==> cs[j].measure.Some?
    ensures r < |cs| ==> cs[r].measure.None?
    decreases |cs| - from
  {
    if from == |cs| || cs[from].measure.None? then from
    else FirstUnrecorded(cs, from + 1)
  }

  /** One step of the invalidation walk: clear the offset, and the size too when `c` is the sender. */
  function Dirtied(c: Child, sender: ChildId): Child
    requires c.measure.Some?
  {
    c.(measure := Some(MakeDirty(c.measure.value, c.id == sender, true)))
  }

  /** The children after the walk has dirtied every recorded child at a position in [lo, hi). */
  function DirtyRange(cs: seq<Child>, lo: nat, hi: nat, sender: ChildId): (r: seq<Child>)
    ensures |r| == |cs|
  {
    seq(|cs|, j requires 0 <= j < |cs| =>
      if lo <= j < hi && cs[j].measure.Some? then Dirtied(cs[j], sender) else cs[j])
  }

  /** Dirtying position i extends the dirtied range [lo, i) by one. */
  lemma DirtyRangeStep(cs: seq<Child>, lo: nat, i: nat, sender: ChildId)
    requires lo <= i < |cs| && cs[i].measure.Some?
    ensures DirtyRange(cs, lo, i, sender)[i] == cs[i]
    ensures DirtyRange(cs, lo, i, sender)[i := Dirtied(cs[i], sender)] == DirtyRange(cs, lo, i + 1, sender)
  {
  }

  /** Dirtying records never changes which view sits where. */
  lemma DirtyRangeKeepsIds(cs: seq<Child>, lo: nat, hi: nat, sender: ChildId)
    requires DistinctIds(cs)
    ensures DistinctIds(DirtyRange(cs, lo, hi, sender))
  {
    var r := DirtyRange(cs, lo, hi, sender);
    assert forall j :: 0 <= j < |cs| ==> r[j].id == cs[j].id;
  }

  /**
   * `OnChildMeasureInvalidated` as written: the walk from the sender onward
   * dirties records until it reaches a child that has none, where the
   * dereference throws; the records before that point stay dirtied.
   */
  function Invalidated(cs: seq<Child>, sender: ChildId): (r: seq<Child>)
    ensures |r| == |cs|
  {
    var s := InvalidationStart(cs, sender);
    DirtyRange(cs, s, FirstUnrecorded(cs, s), sender)
  }

  /** Whether `OnChildMeasureInvalidated` as written throws a null dereference. */
  predicate InvalidationFaults(cs: seq<Child>, sender: ChildId) {
    var s := InvalidationStart(cs, sender);
    FirstUnrecorded(cs, s) < |cs|
  }

  /** The walk with a null check on each record, as `LayoutChildren` does it for its own walk. */
  function InvalidatedGuarded(cs: seq<Child>, sender: ChildId): seq<Child> {
    DirtyRange(cs, InvalidationStart(cs, sender), |cs|, sender)
  }

  // ---------------------------------------------------------------------------
  // Invalidation when the container's bounds change

  /** Every existing record fully cleared; children without a record keep none. */
  function Reset(cs: seq<Child>): (r: seq<Child>)
    ensures |r| == |cs|
  {
    seq(|cs|, i requires 0 <= i < |cs| =>
      if cs[i].measure.Some? then cs[i].(measure := Some(MakeDirty(cs[i].measure.value, true, true)))
      else cs[i])
  }

  /** The children a layout pass starts from: all records cleared unless the bounds are the last ones. */
  function Prepared(cs: seq<Child>, last: Option<Rect>, bounds: Rect): seq<Child> {
    if last == Some(bounds) then cs else Reset(cs)
  }

  // ---------------------------------------------------------------------------
  // Filling in the missing sizes

  /** The size a child is given when it has none: zero when invisible, else what it requests. */
  function FreshSize(c: Child, constraint: Size, measure: Measurer): Size {
    if c.visible then measure(c.id, constraint.width, constraint.height).request else Zero
  }

  /** One step of `EnsureChildrenSize`: create the record if missing, then fill a missing size. */
  function SizedChild(c: Child, constraint: Size, measure: Measurer): Child {
    if HasSize(c) then c
    else
      var rec := if c.measure.Some? then c.measure.value else Blank;
      c.(measure := Some(rec.(size := Some(FreshSize(c, constraint, measure)))))
  }

  /** The children after `EnsureChildrenSize(constraint)`. */
  function WithSizes(cs: seq<Child>, constraint: Size, measure: Measurer): (r: seq<Child>)
    ensures |r| == |cs| && AllSized(r)
  {
    seq(|cs|, i requires 0 <= i < |cs| => SizedChild(cs[i], constraint, measure))
  }

  /** A sequence that agrees with `WithSizes` child by child is `WithSizes`. */
  lemma WithSizesExtensional(cs: seq<Child>, r: seq<Child>, constraint: Size, measure: Measurer)
    requires |r| == |cs|
    requires forall j :: 0 <= j < |cs| ==> r[j] == SizedChild(cs[j], constraint, measure)
    ensures r == WithSizes(cs, constraint, measure)
  {
  }

  /** The external measurement `EnsureChildrenSize` performs for one child, if any. */
  function CallFor(c: Child, constraint: Size): seq<MeasureCall> {
    if !HasSize(c) && c.visible then [MeasureCall(c.id, constraint.width, constraint.height)] else []
  }

  /** The external measurements `EnsureChildrenSize(constraint)` performs, in child order. */
  function SizeCalls(cs: seq<Child>, constraint: Size): (r: seq<MeasureCall>)
    ensures |r| <= |cs|
    ensures AllSized(cs) ==> r == []
  {
    if cs == [] then []
    else SizeCalls(cs[..|cs| - 1], constraint) + CallFor(cs[|cs| - 1], constraint)
  }

  /**
   * The measurements `EnsureChildrenSize` has made once it has visited the first n children.
   * The loop invariant counts visited children by index, where `SizeCalls` recurses on slices;
   * `SizeCallsBeforeAll` proves the two agree.
   */
  function SizeCallsBefore(cs: seq<Child>, n: nat, constraint: Size): seq<MeasureCall>
    requires n <= |cs|
  {
    if n == 0 then [] else SizeCallsBefore(cs, n - 1, constraint) + CallFor(cs[n - 1], constraint)
  }

  /** Visiting every child makes exactly the calls of `SizeCalls`. */
  lemma {:induction false} SizeCallsBeforeAll(cs: seq<Child>, constraint: Size)
    ensures SizeCallsBefore(cs, |cs|, constraint) == SizeCalls(cs, constraint)
  {
    if cs != [] {
      var init := cs[..|cs| - 1];
      SizeCallsBeforeAll(init, constraint);
      SizeCallsBeforeAgree(cs, init, |init|, constraint);
    }
  }

  /** Two sequences that share their first n children share the calls made for them. */
  lemma {:induction false} SizeCallsBeforeAgree(cs: seq<Child>, ds: seq<Child>, n: nat, constraint: Size)
    requires n <= |cs| && n <= |ds|
    requires forall j :: 0 <= j < n ==> cs[j] == ds[j]
    ensures SizeCallsBefore(cs, n, constraint) == SizeCallsBefore(ds, n, constraint)
  {
    if n > 0 {
      SizeCallsBeforeAgree(cs, ds, n - 1, constraint);
    }
  }

  /** A measurement of every visible child, in child order: the reference for a full re-measure. */
  function VisibleCalls(cs: seq<Child>, constraint: Size): seq<MeasureCall> {
    if cs == [] then []
    else
      var c := cs[|cs| - 1];
      VisibleCalls(cs[..|cs| - 1], constraint)
        + (if c.visible then [MeasureCall(c.id, constraint.width, constraint.height)] else [])
  }

  // ---------------------------------------------------------------------------
  // Stacking: offsets, frames and layout calls

  /** The vertical offset of child i: the sum over earlier children of height plus spacing. */
  function OffsetAt(cs: seq<Child>, spacing: int, i: nat): int
    requires i <= |cs| && forall j :: 0 <= j < i ==> HasSize(cs[j])
  {
    if i == 0 then 0 else OffsetAt(cs, spacing, i - 1) + SizeOf(cs[i - 1]).height + spacing
  }

  /** A sized child given the offset (left, y). */
  function AtOffset(c: Child, left: int, y: int): Child
    requires HasSize(c)
  {
    c.(measure := Some(c.measure.value.(offset := Some(Size(left, y)))))
  }

  /**
   * Every running offset of the offset loop: entry i is where child i goes, the last entry is
   * the total height. The loop tracks this list, where the lemmas reason with the recursive
   * `OffsetAt`; `RunningOffsetsAgree` proves the two agree.
   */
  function RunningOffsets(cs: seq<Child>, spacing: int): (r: seq<int>)
    requires AllSized(cs)
    ensures |r| == |cs| + 1 && r[0] == 0
    ensures forall j :: 0 <= j < |cs| ==> r[j + 1] == r[j] + SizeOf(cs[j]).height + spacing
  {
    if cs == [] then [0]
    else
      var p := RunningOffsets(cs[..|cs| - 1], spacing);
      p + [p[|cs| - 1] + SizeOf(cs[|cs| - 1]).height + spacing]
  }

  lemma {:induction false} RunningOffsetsAgree(cs: seq<Child>, spacing: int)
    requires AllSized(cs)
    ensures forall j :: 0 <= j <= |cs| ==> RunningOffsets(cs, spacing)[j] == OffsetAt(cs, spacing, j)
  {
    var r := RunningOffsets(cs, spacing);
    forall j | 0 <= j <= |cs|
      ensures r[j] == OffsetAt(cs, spacing, j)
    {
      RunningOffsetAgreesAt(cs, spacing, j);
    }
  }

  lemma {:induction false} RunningOffsetAgreesAt(cs: seq<Child>, spacing: int, j: nat)
    requires AllSized(cs) && j <= |cs|
    ensures RunningOffsets(cs, spacing)[j] == OffsetAt(cs, spacing, j)
  {
    if j > 0 {
      RunningOffsetAgreesAt(cs, spacing, j - 1);
    }
  }

  /** The children after the offset loop of `EnsureChildrenMeasure`: all of them placed. */
  function WithOffsets(cs: seq<Child>, left: int, spacing: int): (r: seq<Child>)
    requires AllSized(cs)
    ensures |r| == |cs| && AllFramed(r)
  {
    seq(|cs|, i requires 0 <= i < |cs| => AtOffset(cs[i], left, OffsetAt(cs, spacing, i)))
  }

  /** Children placed one by one at the running offsets are the children `WithOffsets` describes. */
  lemma PlacedAtRunningOffsets(cs: seq<Child>, r: seq<Child>, left: int, spacing: int)
    requires AllSized(cs) && |r| == |cs|
    requires forall j :: 0 <= j < |cs| ==> r[j] == AtOffset(cs[j], left, RunningOffsets(cs, spacing)[j])
    ensures r == WithOffsets(cs, left, spacing)
  {
    RunningOffsetsAgree(cs, spacing);
  }

  /** The children after `EnsureChildrenMeasure(bounds)`, started from the prepared children. */
  function Placed(cs: seq<Child>, last: Option<Rect>, bounds: Rect, spacing: int, measure: Measurer): (r: seq<Child>)
    ensures |r| == |cs| && AllFramed(r)
  {
    var sized := WithSizes(Prepared(cs, last, bounds), Size(bounds.width, bounds.height), measure);
    WithOffsets(sized, bounds.x, spacing)
  }

  /** The external measurements one layout pass performs. */
  function PassSizeCalls(cs: seq<Child>, last: Option<Rect>, bounds: Rect): seq<MeasureCall> {
    SizeCalls(Prepared(cs, last, bounds), Size(bounds.width, bounds.height))
  }

  /** The children once each has been laid out at its frame. */
  function Arranged(cs: seq<Child>): (r: seq<Child>)
    requires AllFramed(cs)
    ensures |r| == |cs| && AllFramed(r)
  {
    seq(|cs|, i requires 0 <= i < |cs| => cs[i].(bounds := Frame(cs[i])))
  }

  /** The external `Layout` call `LayoutChild` makes for one child: none when it is already there. */
  function LayoutCallFor(c: Child): seq<LayoutCall>
    requires HasFrame(c)
  {
    if c.bounds == Frame(c) then [] else [LayoutCall(c.id, Frame(c))]
  }

  /** The external `Layout` calls of the layout loop of `LayoutChildren`, in child order. */
  function LayoutCalls(cs: seq<Child>): (r: seq<LayoutCall>)
    requires AllFramed(cs)
    ensures |r| <= |cs|
  {
    if cs == [] then []
    else LayoutCalls(cs[..|cs| - 1]) + LayoutCallFor(cs[|cs| - 1])
  }

  /**
   * The `Layout` calls the layout loop has made once it has visited the first n children.
   * The loop invariant counts visited children by index, where `LayoutCalls` recurses on slices;
   * `LayoutCallsBeforeAll` proves the two agree.
   */
  function LayoutCallsBefore(cs: seq<Child>, n: nat): seq<LayoutCall>
    requires n <= |cs| && AllFramed(cs)
  {
    if n == 0 then [] else LayoutCallsBefore(cs, n - 1) + LayoutCallFor(cs[n - 1])
  }

  /** Visiting every child makes exactly the calls of `LayoutCalls`. */
  lemma {:induction false} LayoutCallsBeforeAll(cs: seq<Child>)
    requires AllFramed(cs)
    ensures LayoutCallsBefore(cs, |cs|) == LayoutCalls(cs)
  {
    if cs != [] {
      var init := cs[..|cs| - 1];
      LayoutCallsBeforeAll(init);
      LayoutCallsBeforeAgree(cs, init, |init|);
    }
  }

  /** Two sequences that share their first n children share the calls made for them. */
  lemma {:induction false} LayoutCallsBeforeAgree(cs: seq<Child>, ds: seq<Child>, n: nat)
    requires n <= |cs| && n <= |ds| && AllFramed(cs) && AllFramed(ds)
    requires forall j :: 0 <= j < n ==> cs[j] == ds[j]
    ensures LayoutCallsBefore(cs, n) == LayoutCallsBefore(ds, n)
  {
    if n > 0 {
      LayoutCallsBeforeAgree(cs, ds, n - 1);
    }
  }

  /** The children after `LayoutChildren(bounds)` with the given last bounds. */
  function LayoutPass(cs: seq<Child>, last: Option<Rect>, bounds: Rect, spacing: int, measure: Measurer): (r: seq<Child>)
    ensures |r| == |cs| && AllFramed(r)
  {
    Arranged(Placed(cs, last, bounds, spacing, measure))
  }

  /** A layout pass changes records and bounds only: the views and their order stay. */
  lemma LayoutPassKeepsViews(cs: seq<Child>, last: Option<Rect>, bounds: Rect, spacing: int, measure: Measurer)
    ensures var r := LayoutPass(cs, last, bounds, spacing, measure);
      forall i :: 0 <= i < |cs| ==> r[i].id == cs[i].id && r[i].visible == cs[i].visible
    ensures DistinctIds(cs) ==> DistinctIds(LayoutPass(cs, last, bounds, spacing, measure))
  {
    var prepared := Prepared(cs, last, bounds);
    var sized := WithSizes(prepared, Size(bounds.width, bounds.height), measure);
    var placed := WithOffsets(sized, bounds.x, spacing);
    var r := Arranged(placed);
    forall i | 0 <= i < |cs|
      ensures r[i].id == cs[i].id && r[i].visible == cs[i].visible
    {
      assert prepared[i].id == cs[i].id && prepared[i].visible == cs[i].visible;
      assert sized[i].id == cs[i].id && sized[i].visible == cs[i].visible;
      assert placed[i].id == cs[i].id && placed[i].visible == cs[i].visible;
    }
  }

  // ---------------------------------------------------------------------------
  // The vertical size request

  /** `Max` of the cached widths. */
  function MaxWidth(cs: seq<Child>): (r: int)
    requires |cs| > 0 && AllSized(cs)
    ensures forall i :: 0 <= i < |cs| ==> SizeOf(cs[i]).width <= r
    ensures exists i :: 0 <= i < |cs| && SizeOf(cs[i]).width == r
  {
    if |cs| == 1 then SizeOf(cs[0]).width
    else
      var rest := MaxWidth(cs[1..]);
      assert forall i :: 1 <= i < |cs| ==> cs[i] == cs[1..][i - 1];
      if SizeOf(cs[0]).width >= rest then SizeOf(cs[0]).width else rest
  }

  /** `Aggregate(seed: acc, (a, m) => a + height + spacing)` over the cached sizes. */
  function FoldHeight(acc: int, cs: seq<Child>, spacing: int): int
    requires AllSized(cs)
    decreases |cs|
  {
    if cs == [] then acc else FoldHeight(acc + SizeOf(cs[0]).height + spacing, cs[1..], spacing)
  }

  /** The sum of the cached heights. */
  function SumHeights(cs: seq<Child>): int
    requires AllSized(cs)
  {
    if cs == [] then 0 else SizeOf(cs[0]).height + SumHeights(cs[1..])
  }

  /** The request `OnSizeRequestVertical` computes from the sized children. */
  function VerticalRequest(cs: seq<Child>, spacing: int): Size
    requires |cs| > 0 && AllSized(cs)
  {
    Size(MaxWidth(cs), FoldHeight(-spacing, cs, spacing))
  }
}
