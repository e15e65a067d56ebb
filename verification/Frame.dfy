/** Frames: a context, its attachments and the child frames demoted beneath it. */
module Frame {
  import opened Allocation

  /** A stored value, seen through `Any`: its type and its contents. */
  datatype Item = Item(tag: nat, value: int)

  datatype ContextFrame = ContextFrame(item: Item, segment: Option<string>, location: nat)

  datatype StaticFrame = StaticFrame(
    context: ContextFrame,
    attachments: seq<Item>,
    children: seq<DynamicFrame>,
    lostAttachments: usize,
    lostChildren: usize)

  datatype DynamicFrame = DynamicFrame(
    context: ContextFrame,
    attachments: seq<Item>,
    children: seq<DynamicFrame>,
    lostAttachments: usize,
    lostChildren: usize)

  /** `DynamicFrame::from_static` once the box is granted: only the context moves to the heap. */
  function Demote(sf: StaticFrame): DynamicFrame {
    DynamicFrame(sf.context, sf.attachments, sf.children, sf.lostAttachments, sf.lostChildren)
  }

  /** `df` holds everything `sf` held. */
  predicate Carries(df: DynamicFrame, sf: StaticFrame) {
    && df.context == sf.context
    && df.attachments == sf.attachments
    && df.children == sf.children
    && df.lostAttachments == sf.lostAttachments
    && df.lostChildren == sf.lostChildren
  }

  /** Child by child, `ds` hold what the first of `frames` held. */
  ghost predicate CarriesFirst(ds: seq<DynamicFrame>, frames: seq<StaticFrame>) {
    |ds| <= |frames| && forall i :: 0 <= i < |ds| ==> Carries(ds[i], frames[i])
  }

  /** `ds` hold what all of `frames` held, in the opposite order. */
  ghost predicate CarriesBackwards(ds: seq<DynamicFrame>, frames: seq<StaticFrame>) {
    |ds| == |frames| && forall i :: 0 <= i < |ds| ==> Carries(ds[i], frames[|frames| - 1 - i])
  }

  function DemoteAll(frames: seq<StaticFrame>): (ds: seq<DynamicFrame>)
    ensures |ds| == |frames|
    ensures forall i :: 0 <= i < |ds| ==> ds[i] == Demote(frames[i])
  {
    seq(|frames|, i requires 0 <= i < |frames| => Demote(frames[i]))
  }
}
