/** Typed search through a report: `contains`, `downcast_ref` and `downcast_mut`. */
module Search {
  import opened Allocation
  import opened Frame
  import opened ReportSpec

  /** Where a value sits in a frame: slot 0 is the context, slot k + 1 the k-th attachment. */
  datatype Place = Here(slot: nat) | Inside(child: nat, place: Place)

  // ---------------------------------------------------------------------------------------------
  // The searches of the program

  function FindAttachment(atts: seq<Item>, tag: nat, from: nat): Option<Place>
    requires from <= |atts|
    decreases |atts| - from
  {
    if from == |atts| then None
    else if atts[from].tag == tag then Some(Here(from + 1))
    else FindAttachment(atts, tag, from + 1)
  }

  /** Children `lo .. hi`, last one first. */
  function FindInChildren(children: seq<DynamicFrame>, tag: nat, lo: nat, hi: nat): Option<Place>
    requires lo <= hi <= |children|
    decreases children, 0, hi
  {
    if lo == hi then None
    else
      match DowncastDynamic(children[hi - 1], tag)
      case Some(p) => Some(Inside(hi - 1, p))
      case None => FindInChildren(children, tag, lo, hi - 1)
  }

  function DowncastDynamic(df: DynamicFrame, tag: nat): Option<Place>
    decreases df, 1, 0
  {
    if df.context.item.tag == tag then Some(Here(0))
    else
      match FindAttachment(df.attachments, tag, 0)
      case Some(p) => Some(p)
      case None => FindInChildren(df.children, tag, 0, |df.children|)
  }

  predicate ContainsDynamic(df: DynamicFrame, tag: nat) {
    || df.context.item.tag == tag
    || (exists i :: 0 <= i < |df.attachments| && df.attachments[i].tag == tag)
    || (exists i :: 0 <= i < |df.children| && ContainsDynamic(df.children[i], tag))
  }

  /** `StaticFrame::downcast_ref`: attachments and children, not the context. */
  function DowncastStatic(sf: StaticFrame, tag: nat): Option<Place> {
    match FindAttachment(sf.attachments, tag, 0)
    case Some(p) => Some(p)
    case None => FindInChildren(sf.children, tag, 0, |sf.children|)
  }

  predicate ContainsStatic(sf: StaticFrame, tag: nat) {
    || (exists i :: 0 <= i < |sf.attachments| && sf.attachments[i].tag == tag)
    || (exists i :: 0 <= i < |sf.children| && ContainsDynamic(sf.children[i], tag))
  }

  /** `StaticFrame::downcast_mut`: the context too, and the ring buffer as two slices of which the
      first holds `split` children. */
  function DowncastStaticMut(sf: StaticFrame, tag: nat, split: nat): Option<Place>
    requires split <= |sf.children|
  {
    if sf.context.item.tag == tag then Some(Here(0))
    else
      match FindAttachment(sf.attachments, tag, 0)
      case Some(p) => Some(p)
      case None =>
        match FindInChildren(sf.children, tag, split, |sf.children|)
        case Some(p) => Some(p)
        case None => FindInChildren(sf.children, tag, 0, split)
  }

  datatype Found = NotFound | Found(root: nat, place: Place)

  /** `Report::downcast_ref` over head and peers, from the given root on. */
  function DowncastRef(roots: seq<StaticFrame>, tag: nat, from: nat): Found
    requires from <= |roots|
    decreases |roots| - from
  {
    if from == |roots| then NotFound
    else if roots[from].context.item.tag == tag then Found(from, Here(0))
    else
      match DowncastStatic(roots[from], tag)
      case Some(p) => Found(from, p)
      case None => DowncastRef(roots, tag, from + 1)
  }

  /** `Report::downcast_mut`; `splits` says where each root's ring buffer wraps. */
  function DowncastMut(roots: seq<StaticFrame>, splits: seq<nat>, tag: nat, from: nat): Found
    requires from <= |roots| == |splits|
    requires forall i :: 0 <= i < |roots| ==> splits[i] <= |roots[i].children|
    decreases |roots| - from
  {
    if from == |roots| then NotFound
    else
      match DowncastStaticMut(roots[from], tag, splits[from])
      case Some(p) => Found(from, p)
      case None => DowncastMut(roots, splits, tag, from + 1)
  }

  /** `Report::contains`. */
  predicate Contains(roots: seq<StaticFrame>, tag: nat) {
    exists i :: 0 <= i < |roots| && (roots[i].context.item.tag == tag || ContainsStatic(roots[i], tag))
  }

  // ---------------------------------------------------------------------------------------------
  // The order of the search, written down as a list

  datatype Entry = Entry(place: Place, tag: nat)

  function AttachmentEntries(atts: seq<Item>): (es: seq<Entry>)
    ensures |es| == |atts|
  {
    seq(|atts|, i requires 0 <= i < |atts| => Entry(Here(i + 1), atts[i].tag))
  }

  function Within(child: nat, es: seq<Entry>): seq<Entry> {
    seq(|es|, i requires 0 <= i < |es| => Entry(Inside(child, es[i].place), es[i].tag))
  }

  function ChildEntries(children: seq<DynamicFrame>, n: nat): seq<Entry>
    requires n <= |children|
    decreases children, 0, n
  {
    if n == 0 then [] else Within(n - 1, Entries(children[n - 1])) + ChildEntries(children, n - 1)
  }

  /** Context, attachments first to last, then the children's own lists, last child first. */
  function Entries(df: DynamicFrame): seq<Entry>
    decreases df, 1, 0
  {
    [Entry(Here(0), df.context.item.tag)] + (AttachmentEntries(df.attachments) + ChildEntries(df.children, |df.children|))
  }

  /** `r` is the place of the first entry with the tag, or there is none. */
  ghost predicate IsFirst(es: seq<Entry>, tag: nat, r: Option<Place>) {
    match r
    case None => forall i :: 0 <= i < |es| ==> es[i].tag != tag
    case Some(p) =>
      exists i :: 0 <= i < |es| && es[i] == Entry(p, tag) && forall j :: 0 <= j < i ==> es[j].tag != tag
  }

  lemma FirstOfConcat(a: seq<Entry>, b: seq<Entry>, tag: nat, ra: Option<Place>, rb: Option<Place>)
    requires IsFirst(a, tag, ra) && (ra.None? ==> IsFirst(b, tag, rb))
    ensures IsFirst(a + b, tag, if ra.Some? then ra else rb)
  {
    if ra.Some? {
      var i :| 0 <= i < |a| && a[i] == Entry(ra.value, tag) && forall j :: 0 <= j < i ==> a[j].tag != tag;
      assert (a + b)[i] == a[i];
    } else if rb.Some? {
      var i :| 0 <= i < |b| && b[i] == Entry(rb.value, tag) && forall j :: 0 <= j < i ==> b[j].tag != tag;
      assert (a + b)[|a| + i] == b[i];
    }
  }

  lemma FirstWithin(child: nat, es: seq<Entry>, tag: nat, r: Option<Place>)
    requires IsFirst(es, tag, r)
    ensures IsFirst(Within(child, es), tag, if r.Some? then Some(Inside(child, r.value)) else None)
  {
    if r.Some? {
      var i :| 0 <= i < |es| && es[i] == Entry(r.value, tag) && forall j :: 0 <= j < i ==> es[j].tag != tag;
      assert Within(child, es)[i] == Entry(Inside(child, r.value), tag);
    }
  }

  lemma {:induction false} FindAttachmentIsFirst(atts: seq<Item>, tag: nat, from: nat)
    requires from <= |atts|
    ensures IsFirst(AttachmentEntries(atts)[from..], tag, FindAttachment(atts, tag, from))
    decreases |atts| - from
  {
    if from < |atts| {
      var es := AttachmentEntries(atts);
      FindAttachmentIsFirst(atts, tag, from + 1);
      assert es[from..] == [es[from]] + es[from + 1..];
      if atts[from].tag == tag {
        assert es[from..][0] == Entry(Here(from + 1), tag);
      } else {
        FirstOfConcat([es[from]], es[from + 1..], tag, None, FindAttachment(atts, tag, from + 1));
      }
    }
  }

  lemma {:induction false} FindInChildrenIsFirst(children: seq<DynamicFrame>, tag: nat, n: nat)
    requires n <= |children|
    ensures IsFirst(ChildEntries(children, n), tag, FindInChildren(children, tag, 0, n))
    decreases children, 0, n
  {
    if n > 0 {
      var r := DowncastDynamic(children[n - 1], tag);
      DowncastIsFirst(children[n - 1], tag);
      hide Entries, DowncastDynamic, IsFirst;
      FirstWithin(n - 1, Entries(children[n - 1]), tag, r);
      FindInChildrenIsFirst(children, tag, n - 1);
      FirstOfConcat(Within(n - 1, Entries(children[n - 1])), ChildEntries(children, n - 1), tag,
                    if r.Some? then Some(Inside(n - 1, r.value)) else None, FindInChildren(children, tag, 0, n - 1));
    }
  }

  /** `downcast_ref` finds the first value of the wanted type in that order: children are searched
      from the back. */
  lemma {:induction false} DowncastIsFirst(df: DynamicFrame, tag: nat)
    ensures IsFirst(Entries(df), tag, DowncastDynamic(df, tag))
    decreases df, 1, 0
  {
    var own := [Entry(Here(0), df.context.item.tag)];
    var atts := AttachmentEntries(df.attachments);
    var below := ChildEntries(df.children, |df.children|);
    var inAtts := FindAttachment(df.attachments, tag, 0);
    var inBelow := FindInChildren(df.children, tag, 0, |df.children|);
    FindAttachmentIsFirst(df.attachments, tag, 0);
    assert atts[0..] == atts;
    FindInChildrenIsFirst(df.children, tag, |df.children|);
    FirstOfConcat(atts, below, tag, inAtts, inBelow);
    var rest := if inAtts.Some? then inAtts else inBelow;
    if df.context.item.tag == tag {
      assert own[0] == Entry(Here(0), tag);
      FirstOfConcat(own, atts + below, tag, Some(Here(0)), None);
    } else {
      FirstOfConcat(own, atts + below, tag, None, rest);
    }
  }

  // ---------------------------------------------------------------------------------------------
  // The three searches agree

  lemma {:induction false} FindAttachmentIff(atts: seq<Item>, tag: nat, from: nat)
    requires from <= |atts|
    ensures FindAttachment(atts, tag, from).Some? <==> exists i :: from <= i < |atts| && atts[i].tag == tag
    decreases |atts| - from
  {
    if from < |atts| {
      FindAttachmentIff(atts, tag, from + 1);
    }
  }

  lemma {:induction false} FindInChildrenIff(children: seq<DynamicFrame>, tag: nat, lo: nat, hi: nat)
    requires lo <= hi <= |children|
    ensures FindInChildren(children, tag, lo, hi).Some? <==> exists i :: lo <= i < hi && ContainsDynamic(children[i], tag)
    decreases children, 0, hi
  {
    if lo < hi {
      DowncastIff(children[hi - 1], tag);
      FindInChildrenIff(children, tag, lo, hi - 1);
    }
  }

  lemma {:induction false} DowncastIff(df: DynamicFrame, tag: nat)
    ensures DowncastDynamic(df, tag).Some? <==> ContainsDynamic(df, tag)
    decreases df, 1, 0
  {
    FindAttachmentIff(df.attachments, tag, 0);
    FindInChildrenIff(df.children, tag, 0, |df.children|);
  }

  lemma {:induction false} FindInChildrenSplit(children: seq<DynamicFrame>, tag: nat, split: nat, hi: nat)
    requires split <= hi <= |children|
    ensures FindInChildren(children, tag, 0, hi)
         == if FindInChildren(children, tag, split, hi).Some? then FindInChildren(children, tag, split, hi)
            else FindInChildren(children, tag, 0, split)
    decreases hi
  {
    if split < hi {
      FindInChildrenSplit(children, tag, split, hi - 1);
    }
  }

  /** A root searched as the program does, context first, is the same search as in the frame it
      would be demoted to; the mutable search agrees wherever the ring buffer wraps. */
  lemma StaticSearch(sf: StaticFrame, tag: nat, split: nat)
    requires split <= |sf.children|
    ensures DowncastStaticMut(sf, tag, split) == DowncastDynamic(Demote(sf), tag)
    ensures (if sf.context.item.tag == tag then Some(Here(0)) else DowncastStatic(sf, tag)) == DowncastDynamic(Demote(sf), tag)
    ensures sf.context.item.tag == tag || ContainsStatic(sf, tag) <==> ContainsDynamic(Demote(sf), tag)
  {
    FindInChildrenSplit(sf.children, tag, split, |sf.children|);
  }

  /** What both downcasts find: the newest root holding the type, and within it the first place in
      the search order. */
  ghost predicate FindsNewest(roots: seq<StaticFrame>, tag: nat, from: nat, f: Found) {
    match f
    case NotFound => forall i :: from <= i < |roots| ==> !ContainsDynamic(Demote(roots[i]), tag)
    case Found(root, place) =>
      && from <= root < |roots|
      && (forall i :: from <= i < root ==> !ContainsDynamic(Demote(roots[i]), tag))
      && IsFirst(Entries(Demote(roots[root])), tag, Some(place))
  }

  lemma {:induction false} DowncastsAgree(roots: seq<StaticFrame>, splits: seq<nat>, tag: nat, from: nat)
    requires from <= |roots| == |splits|
    requires forall i :: 0 <= i < |roots| ==> splits[i] <= |roots[i].children|
    ensures DowncastMut(roots, splits, tag, from) == DowncastRef(roots, tag, from)
    ensures FindsNewest(roots, tag, from, DowncastRef(roots, tag, from))
    decreases |roots| - from
  {
    if from < |roots| {
      StaticSearch(roots[from], tag, splits[from]);
      DowncastIff(Demote(roots[from]), tag);
      DowncastIsFirst(Demote(roots[from]), tag);
      DowncastsAgree(roots, splits, tag, from + 1);
      hide DowncastStatic, DowncastStaticMut, DowncastDynamic, ContainsDynamic, IsFirst, Entries;
    }
  }

  predicate AnyContains(frames: seq<DynamicFrame>, tag: nat) {
    exists i :: 0 <= i < |frames| && ContainsDynamic(frames[i], tag)
  }

  lemma ContainsIffDynamic(roots: seq<StaticFrame>, tag: nat)
    ensures Contains(roots, tag) <==> AnyContains(DemoteAll(roots), tag)
  {
    forall i | 0 <= i < |roots|
      ensures roots[i].context.item.tag == tag || ContainsStatic(roots[i], tag) <==> ContainsDynamic(DemoteAll(roots)[i], tag)
    {
      StaticSearch(roots[i], tag, 0);
    }
    hide ContainsDynamic, ContainsStatic;
  }

  /** `contains` is true exactly when the downcasts find something. */
  lemma ContainsIffFound(roots: seq<StaticFrame>, splits: seq<nat>, tag: nat)
    requires |roots| == |splits|
    requires forall i :: 0 <= i < |roots| ==> splits[i] <= |roots[i].children|
    ensures Contains(roots, tag) <==> DowncastRef(roots, tag, 0).Found?
    ensures Contains(roots, tag) <==> DowncastMut(roots, splits, tag, 0).Found?
  {
    DowncastsAgree(roots, splits, tag, 0);
    ContainsIffDynamic(roots, tag);
    var f := DowncastRef(roots, tag, 0);
    if f.Found? {
      DowncastIff(Demote(roots[f.root]), tag);
      DowncastIsFirst(Demote(roots[f.root]), tag);
    }
  }

  // ---------------------------------------------------------------------------------------------
  // Search across context changes

  /** A change of context that lost nothing: every old frame is a child of the new head, in the order
      of `change_context` or in that of `try_change_context`. */
  ghost predicate ChangedLosslessly(before: ReportState, context: ContextFrame, after: ReportState) {
    && after.peers.items == []
    && after.head.context == context && after.head.attachments == []
    && (after.head.children == DemoteAll(before.Frames()) || after.head.children == DemoteAll(Reversed(before.Frames())))
  }

  lemma ChangeKeepsContents(before: ReportState, context: ContextFrame, after: ReportState, tag: nat)
    requires ChangedLosslessly(before, context, after)
    ensures Contains(after.Frames(), tag) <==> context.item.tag == tag || Contains(before.Frames(), tag)
  {
    assert after.Frames() == [after.head];
    ContainsIffDynamic(before.Frames(), tag);
    AnyReversed(before.Frames(), tag);
    assert Contains(after.Frames(), tag) <==> context.item.tag == tag || AnyContains(after.head.children, tag) by {
      hide ContainsDynamic;
      assert after.Frames()[0] == after.head;
    }
  }

  /** Two lists that are each other's mirror image. */
  ghost predicate Mirrored<T>(a: seq<T>, b: seq<T>) {
    |a| == |b| && forall i, j {:trigger a[i], b[j]} :: 0 <= i < |a| && 0 <= j < |b| && i + j == |a| - 1 ==> a[i] == b[j]
  }

  lemma ReversedIsMirrored<T>(s: seq<T>)
    ensures Mirrored(s, Reversed(s))
  {
    hide Reversed;
  }

  lemma ReversedMirrored(frames: seq<StaticFrame>)
    ensures Mirrored(DemoteAll(frames), DemoteAll(Reversed(frames)))
  {
    hide Reversed, Demote;
  }

  lemma AnyMirrored(a: seq<DynamicFrame>, b: seq<DynamicFrame>, tag: nat)
    requires Mirrored(a, b)
    ensures AnyContains(a, tag) <==> AnyContains(b, tag)
  {
    hide ContainsDynamic;
    if i :| 0 <= i < |a| && ContainsDynamic(a[i], tag) {
      assert a[i] == b[|a| - 1 - i];
    }
    if i :| 0 <= i < |b| && ContainsDynamic(b[i], tag) {
      assert a[|a| - 1 - i] == b[i];
    }
  }

  lemma AnyReversed(frames: seq<StaticFrame>, tag: nat)
    ensures AnyContains(DemoteAll(Reversed(frames)), tag) <==> AnyContains(DemoteAll(frames), tag)
  {
    ReversedMirrored(frames);
    AnyMirrored(DemoteAll(frames), DemoteAll(Reversed(frames)), tag);
  }

  /** Along any chain of lossless context changes a type is found at the end exactly when it was
      there at the start or came in with one of the new contexts. */
  lemma {:induction false} ChainKeepsContents(states: seq<ReportState>, contexts: seq<ContextFrame>, tag: nat)
    requires |states| == |contexts| + 1
    requires forall i :: 0 <= i < |contexts| ==> ChangedLosslessly(states[i], contexts[i], states[i + 1])
    ensures Contains(states[|contexts|].Frames(), tag)
       <==> Contains(states[0].Frames(), tag) || exists i :: 0 <= i < |contexts| && contexts[i].item.tag == tag
    decreases |contexts|
  {
    if contexts != [] {
      var n := |contexts| - 1;
      ChainKeepsContents(states[..n + 1], contexts[..n], tag);
      ChangeKeepsContents(states[n], contexts[n], states[n + 1], tag);
      hide Contains, ChangedLosslessly;
    }
  }

  lemma LosslessChanges(s: ReportState, context: ContextFrame, oracle: Oracle, calls: nat)
    requires s.Valid() && |s.Frames()| <= ISIZE_MAX
    ensures Grants(oracle, calls, 1 + |s.Frames()|) ==>
              ChangedLosslessly(s, context, ChangeContext(s, context, oracle, calls).state)
    ensures ChangedLosslessly(s, context, Changed(s, context))
  {
    if Grants(oracle, calls, 1 + |s.Frames()|) {
      ChangeContextLossless(s, context, oracle, calls);
    }
  }

  // ---------------------------------------------------------------------------------------------
  // Which match a search finds after a change of context

  /** Frame `k` of a report, newest first, is the oldest one that holds the type. */
  ghost predicate IsOldestWith(frames: seq<StaticFrame>, tag: nat, k: nat) {
    k < |frames| && ContainsDynamic(Demote(frames[k]), tag)
    && forall i :: k < i < |frames| ==> !ContainsDynamic(Demote(frames[i]), tag)
  }

  ghost predicate IsNewestWith(frames: seq<StaticFrame>, tag: nat, k: nat) {
    k < |frames| && ContainsDynamic(Demote(frames[k]), tag)
    && forall i :: 0 <= i < k ==> !ContainsDynamic(Demote(frames[i]), tag)
  }

  ghost predicate OnlyOneWith(frames: seq<StaticFrame>, tag: nat) {
    forall i, j :: 0 <= i < j < |frames| ==> !ContainsDynamic(Demote(frames[i]), tag) || !ContainsDynamic(Demote(frames[j]), tag)
  }

  lemma {:induction false} FindInChildrenLast(children: seq<DynamicFrame>, tag: nat, n: nat)
    requires n <= |children|
    ensures match FindInChildren(children, tag, 0, n)
            case None => forall i :: 0 <= i < n ==> !ContainsDynamic(children[i], tag)
            case Some(p) =>
              && p.Inside? && p.child < n
              && DowncastDynamic(children[p.child], tag) == Some(p.place)
              && ContainsDynamic(children[p.child], tag)
              && forall i :: p.child < i < n ==> !ContainsDynamic(children[i], tag)
    decreases n
  {
    if n > 0 {
      DowncastIff(children[n - 1], tag);
      FindInChildrenLast(children, tag, n - 1);
      hide ContainsDynamic, DowncastDynamic;
    }
  }

  /** What is found in a report whose only typed frame is a fresh head over the frames `typed`. */
  ghost predicate FindsOldest(f: Found, typed: seq<StaticFrame>, tag: nat) {
    match f
    case NotFound => !AnyContains(DemoteAll(typed), tag)
    case Found(root, place) =>
      && root == 0 && place.Inside?
      && IsOldestWith(typed, tag, place.child)
      && DowncastDynamic(Demote(typed[place.child]), tag) == Some(place.place)
  }

  lemma FreshHeadDowncast(context: ContextFrame, typed: seq<StaticFrame>, lost: usize, tag: nat)
    requires context.item.tag != tag
    ensures FindsOldest(DowncastRef([FreshHead(context, DemoteAll(typed), lost)], tag, 0), typed, tag)
  {
    var head := FreshHead(context, DemoteAll(typed), lost);
    FindInChildrenLast(head.children, tag, |head.children|);
    assert DowncastRef([head], tag, 1) == NotFound;
    hide ContainsDynamic, DowncastDynamic, FindInChildren;
  }

  /** After `change_context`, under any allocator, a search for a type other than the new context's
      goes into the oldest surviving frame that holds it.  That is the newest holder exactly when only
      one surviving frame holds the type. */
  lemma ChangeContextFindsOldest(s: ReportState, context: ContextFrame, oracle: Oracle, calls: nat, tag: nat)
    requires s.Valid() && !ChangeContext(s, context, oracle, calls).panicked && context.item.tag != tag
    ensures |ChangeContext(s, context, oracle, calls).state.head.children| <= |s.Frames()|
    ensures var after := ChangeContext(s, context, oracle, calls).state;
            var survivors := s.Frames()[..|after.head.children|];
            var f := DowncastRef(after.Frames(), tag, 0);
            && FindsOldest(f, survivors, tag)
            && (f.Found? ==> (IsNewestWith(s.Frames(), tag, f.place.child) <==> OnlyOneWith(survivors, tag)))
  {
    var after := ChangeContext(s, context, oracle, calls).state;
    ChangeContextMeaning(s, context, oracle, calls);
    hide ChangeContext, ContainsDynamic, DowncastDynamic, FindInChildren, Stumbles;
    var survivors := s.Frames()[..|after.head.children|];
    assert after.head.children == DemoteAll(survivors);
    FreshHeadDowncast(context, survivors, after.head.lostChildren, tag);
    assert after.Frames() == [after.head];
    var f := DowncastRef(after.Frames(), tag, 0);
    if f.Found? {
      OldestIsNewestIff(s.Frames(), survivors, tag, f.place.child);
    }
  }

  lemma OldestIsNewestIff(frames: seq<StaticFrame>, survivors: seq<StaticFrame>, tag: nat, k: nat)
    requires survivors <= frames && IsOldestWith(survivors, tag, k)
    ensures IsNewestWith(frames, tag, k) <==> OnlyOneWith(survivors, tag)
  {
    hide ContainsDynamic;
    assert survivors[k] == frames[k];
    assert forall i :: 0 <= i < |survivors| ==> survivors[i] == frames[i];
    if OnlyOneWith(survivors, tag) {
      assert forall i :: 0 <= i < k ==> !ContainsDynamic(Demote(survivors[i]), tag);
    }
  }

  lemma OldestMirrored(frames: seq<StaticFrame>, back: seq<StaticFrame>, tag: nat, k: nat)
    requires Mirrored(frames, back) && IsOldestWith(back, tag, k)
    ensures k < |frames| && IsNewestWith(frames, tag, |frames| - 1 - k)
    ensures back[k] == frames[|frames| - 1 - k]
  {
    hide ContainsDynamic, Demote;
    assert frames[|frames| - 1 - k] == back[k];
    forall i | 0 <= i < |frames| - 1 - k
      ensures !ContainsDynamic(Demote(frames[i]), tag)
    {
      assert frames[i] == back[|frames| - 1 - i];
    }
  }

  lemma OldestReversed(frames: seq<StaticFrame>, tag: nat, k: nat)
    requires IsOldestWith(Reversed(frames), tag, k)
    ensures k < |frames| && IsNewestWith(frames, tag, |frames| - 1 - k)
    ensures Reversed(frames)[k] == frames[|frames| - 1 - k]
  {
    hide IsOldestWith, IsNewestWith, Reversed;
    ReversedIsMirrored(frames);
    OldestMirrored(frames, Reversed(frames), tag, k);
  }

  /** After `try_change_context` the search goes into the newest frame that holds the type. */
  lemma ChangedFindsNewest(s: ReportState, context: ContextFrame, tag: nat)
    requires context.item.tag != tag
    ensures var after := Changed(s, context);
            var f := DowncastRef(after.Frames(), tag, 0);
            var n := |s.Frames()|;
            if Contains(s.Frames(), tag) then
              && f.Found? && f.place.Inside? && f.place.child < n
              && IsNewestWith(s.Frames(), tag, n - 1 - f.place.child)
              && DowncastDynamic(Demote(s.Frames()[n - 1 - f.place.child]), tag) == Some(f.place.place)
            else f.NotFound?
  {
    hide ContainsDynamic, DowncastDynamic, FindInChildren, Contains, Reversed, DowncastRef, AnyContains, IsOldestWith, IsNewestWith;
    var after, reversed := Changed(s, context), Reversed(s.Frames());
    FreshHeadDowncast(context, reversed, s.lostPeers, tag);
    ContainsIffDynamic(s.Frames(), tag);
    AnyReversed(s.Frames(), tag);
    assert after.Frames() == [after.head];
    var f := DowncastRef(after.Frames(), tag, 0);
    if f.Found? {
      OldestReversed(s.Frames(), tag, f.place.child);
    }
    FoundIfAny(f, reversed, tag);
  }

  lemma FoundIfAny(f: Found, typed: seq<StaticFrame>, tag: nat)
    requires FindsOldest(f, typed, tag)
    ensures f.Found? <==> AnyContains(DemoteAll(typed), tag)
  {
    hide ContainsDynamic, DowncastDynamic;
    if f.Found? {
      assert ContainsDynamic(DemoteAll(typed)[f.place.child], tag);
    }
  }

  /** A frame that carries nothing but its context. */
  function Bare(tag: nat, value: int): StaticFrame {
    StaticFrame(ContextFrame(Item(tag, value), None, 0), [], [], 0, 0)
  }

  /** A head and a peer of one type: after a lossless `change_context` the peer is returned. */
  lemma OlderMatchIsReturned()
    ensures var s := ReportState(Bare(1, 20), Deque([Bare(1, 10)], 1), 0, None);
            var after := ChangeContext(s, ContextFrame(Item(2, 30), None, 0), _ => Granted(0), 0).state;
            && after.head.children == [Demote(Bare(1, 20)), Demote(Bare(1, 10))]
            && DowncastRef(after.Frames(), 1, 0) == Found(0, Inside(1, Here(0)))
            && DowncastRef(s.Frames(), 1, 0) == Found(0, Here(0))
  {
    var s := ReportState(Bare(1, 20), Deque([Bare(1, 10)], 1), 0, None);
    var context := ContextFrame(Item(2, 30), None, 0);
    var grants: Oracle := _ => Granted(0);
    ChangeContextLossless(s, context, grants, 0);
    hide ChangeContext;
    assert DemoteAll(s.Frames()) == [Demote(Bare(1, 20)), Demote(Bare(1, 10))];
    var head := FreshHead(context, DemoteAll(s.Frames()), 0);
    FreshHeadDowncast(context, s.Frames(), 0, 1);
    assert ContainsDynamic(Demote(s.Frames()[1]), 1);
    assert AnyContains(DemoteAll(s.Frames()), 1) by {
      assert ContainsDynamic(DemoteAll(s.Frames())[1], 1);
    }
  }
}
