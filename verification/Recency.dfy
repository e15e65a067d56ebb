/** The most recent value of a type in a report, and exactly when the search finds that one.

    Attachments are added after the context and one after another.  Children come from a change of
    context: `change_context` leaves the newest first, `try_change_context` the newest last. */
module Recency {
  import opened Allocation
  import opened Frame
  import opened ReportSpec
  import opened Search

  /** How a frame's children were left, and theirs in turn.  A frame beyond the list counts as one left
      by `change_context`. */
  datatype Ordering = Ordering(newestFirst: bool, below: seq<Ordering>)

  /** The ordering as seen from child `i`. */
  function Below(order: Ordering, i: nat): Ordering {
    if i < |order.below| then order.below[i] else Ordering(true, [])
  }

  // ---------------------------------------------------------------------------------------------
  // The most recent match

  function LastAttachment(atts: seq<Item>, tag: nat, n: nat): Option<Place>
    requires n <= |atts|
  {
    if n == 0 then None
    else if atts[n - 1].tag == tag then Some(Here(n))
    else LastAttachment(atts, tag, n - 1)
  }

  /** Among a frame's own values: the last attachment that matches, otherwise the context. */
  function NewestOwn(context: ContextFrame, atts: seq<Item>, tag: nat): Option<Place> {
    match LastAttachment(atts, tag, |atts|)
    case Some(p) => Some(p)
    case None => if context.item.tag == tag then Some(Here(0)) else None
  }

  function Newest(df: DynamicFrame, tag: nat, order: Ordering): Option<Place>
    decreases df, 1, 0
  {
    match NewestOwn(df.context, df.attachments, tag)
    case Some(p) => Some(p)
    case None => NewestChild(df.children, tag, order)
  }

  /** Among the children, in the order in which they were left. */
  function NewestChild(children: seq<DynamicFrame>, tag: nat, order: Ordering): Option<Place>
    decreases children, 0, |children| + 1
  {
    if order.newestFirst then FirstChild(children, tag, order, 0) else LastChild(children, tag, order, |children|)
  }

  function FirstChild(children: seq<DynamicFrame>, tag: nat, order: Ordering, from: nat): Option<Place>
    requires from <= |children|
    decreases children, 0, |children| - from
  {
    if from == |children| then None
    else
      match Newest(children[from], tag, Below(order, from))
      case Some(p) => Some(Inside(from, p))
      case None => FirstChild(children, tag, order, from + 1)
  }

  function LastChild(children: seq<DynamicFrame>, tag: nat, order: Ordering, n: nat): Option<Place>
    requires n <= |children|
    decreases children, 0, n
  {
    if n == 0 then None
    else
      match Newest(children[n - 1], tag, Below(order, n - 1))
      case Some(p) => Some(Inside(n - 1, p))
      case None => LastChild(children, tag, order, n - 1)
  }

  /** In a report: the documented order is the head, the peers front to back, then the children. */
  function NewestRoot(roots: seq<StaticFrame>, tag: nat, from: nat): Found
    requires from <= |roots|
    decreases |roots| - from
  {
    if from == |roots| then NotFound
    else
      match NewestOwn(roots[from].context, roots[from].attachments, tag)
      case Some(p) => Found(from, p)
      case None => NewestRoot(roots, tag, from + 1)
  }

  function NewestBelow(roots: seq<StaticFrame>, tag: nat, order: Ordering, from: nat): Found
    requires from <= |roots|
    decreases |roots| - from
  {
    if from == |roots| then NotFound
    else
      match NewestChild(roots[from].children, tag, Below(order, from))
      case Some(p) => Found(from, p)
      case None => NewestBelow(roots, tag, order, from + 1)
  }

  function MostRecent(roots: seq<StaticFrame>, tag: nat, order: Ordering): Found {
    match NewestRoot(roots, tag, 0)
    case Found(i, p) => Found(i, p)
    case NotFound => NewestBelow(roots, tag, order, 0)
  }

  // ---------------------------------------------------------------------------------------------
  // The frames in which it is found

  predicate Matches(atts: seq<Item>, tag: nat) {
    exists i :: 0 <= i < |atts| && atts[i].tag == tag
  }

  predicate HoldsItself(context: ContextFrame, atts: seq<Item>, tag: nat) {
    context.item.tag == tag || Matches(atts, tag)
  }

  /** Of a frame's own values at most one attachment matches, and not together with the context. */
  ghost predicate OwnClear(context: ContextFrame, atts: seq<Item>, tag: nat) {
    && (Matches(atts, tag) ==> context.item.tag != tag)
    && forall i, j :: 0 <= i < j < |atts| ==> atts[i].tag != tag || atts[j].tag != tag
  }

  /** The frame's own values decide, or its children do. */
  ghost predicate Clear(df: DynamicFrame, tag: nat, order: Ordering)
    decreases df, 1
  {
    && OwnClear(df.context, df.attachments, tag)
    && (!HoldsItself(df.context, df.attachments, tag) ==> ChildrenClear(df.children, tag, order))
  }

  /** The last child that holds the type is clear, and where the newest child comes first it is the
      only one. */
  ghost predicate ChildrenClear(children: seq<DynamicFrame>, tag: nat, order: Ordering)
    decreases children, 0
  {
    && (order.newestFirst ==> OneHolder(children, tag))
    && forall k :: 0 <= k < |children| && LastHolder(children, tag, k) ==> Clear(children[k], tag, Below(order, k))
  }

  ghost predicate OneHolder(children: seq<DynamicFrame>, tag: nat) {
    forall i, j :: 0 <= i < j < |children| ==> !ContainsDynamic(children[i], tag) || !ContainsDynamic(children[j], tag)
  }

  ghost predicate LastHolder(children: seq<DynamicFrame>, tag: nat, k: nat) {
    k < |children| && ContainsDynamic(children[k], tag) && forall i :: k < i < |children| ==> !ContainsDynamic(children[i], tag)
  }

  ghost predicate FirstHolder(children: seq<DynamicFrame>, tag: nat, k: nat) {
    k < |children| && ContainsDynamic(children[k], tag) && forall i :: 0 <= i < k ==> !ContainsDynamic(children[i], tag)
  }

  // ---------------------------------------------------------------------------------------------
  // A frame's own values

  lemma {:induction false} LastAttachmentMeaning(atts: seq<Item>, tag: nat, n: nat)
    requires n <= |atts|
    ensures match LastAttachment(atts, tag, n)
            case None => forall i :: 0 <= i < n ==> atts[i].tag != tag
            case Some(p) => p.Here? && 0 < p.slot <= n && atts[p.slot - 1].tag == tag
                            && forall i :: p.slot <= i < n ==> atts[i].tag != tag
    decreases n
  {
    if n > 0 {
      LastAttachmentMeaning(atts, tag, n - 1);
    }
  }

  lemma {:induction false} FirstAttachmentMeaning(atts: seq<Item>, tag: nat, from: nat)
    requires from <= |atts|
    ensures match FindAttachment(atts, tag, from)
            case None => forall i :: from <= i < |atts| ==> atts[i].tag != tag
            case Some(p) => p.Here? && from < p.slot <= |atts| && atts[p.slot - 1].tag == tag
                            && forall i :: from <= i < p.slot - 1 ==> atts[i].tag != tag
    decreases |atts| - from
  {
    if from < |atts| {
      FirstAttachmentMeaning(atts, tag, from + 1);
    }
  }

  /** What the search finds among a frame's own values. */
  function FirstOwn(context: ContextFrame, atts: seq<Item>, tag: nat): Option<Place> {
    if context.item.tag == tag then Some(Here(0)) else FindAttachment(atts, tag, 0)
  }

  lemma OwnIff(context: ContextFrame, atts: seq<Item>, tag: nat)
    ensures FirstOwn(context, atts, tag) == NewestOwn(context, atts, tag) <==> OwnClear(context, atts, tag)
    ensures FirstOwn(context, atts, tag).Some? <==> HoldsItself(context, atts, tag)
    ensures NewestOwn(context, atts, tag).Some? <==> HoldsItself(context, atts, tag)
  {
    LastAttachmentMeaning(atts, tag, |atts|);
    FirstAttachmentMeaning(atts, tag, 0);
  }

  // ---------------------------------------------------------------------------------------------
  // Children

  lemma {:induction false} NewestIfHeld(df: DynamicFrame, tag: nat, order: Ordering)
    ensures Newest(df, tag, order).Some? <==> ContainsDynamic(df, tag)
    decreases df, 1, 0
  {
    OwnIff(df.context, df.attachments, tag);
    FirstChildMeaning(df.children, tag, order, 0);
    LastChildMeaning(df.children, tag, order, |df.children|);
  }

  lemma {:induction false} FirstChildMeaning(children: seq<DynamicFrame>, tag: nat, order: Ordering, from: nat)
    requires from <= |children|
    ensures match FirstChild(children, tag, order, from)
            case None => forall i :: from <= i < |children| ==> !ContainsDynamic(children[i], tag)
            case Some(p) =>
              && p.Inside? && from <= p.child < |children| && ContainsDynamic(children[p.child], tag)
              && Newest(children[p.child], tag, Below(order, p.child)) == Some(p.place)
              && forall i :: from <= i < p.child ==> !ContainsDynamic(children[i], tag)
    decreases children, 0, |children| - from
  {
    if from < |children| {
      NewestIfHeld(children[from], tag, Below(order, from));
      FirstChildMeaning(children, tag, order, from + 1);
      hide ContainsDynamic, Newest, Below;
    }
  }

  lemma {:induction false} LastChildMeaning(children: seq<DynamicFrame>, tag: nat, order: Ordering, n: nat)
    requires n <= |children|
    ensures match LastChild(children, tag, order, n)
            case None => forall i :: 0 <= i < n ==> !ContainsDynamic(children[i], tag)
            case Some(p) =>
              && p.Inside? && p.child < n && ContainsDynamic(children[p.child], tag)
              && Newest(children[p.child], tag, Below(order, p.child)) == Some(p.place)
              && forall i :: p.child < i < n ==> !ContainsDynamic(children[i], tag)
    decreases children, 0, n
  {
    if n > 0 {
      NewestIfHeld(children[n - 1], tag, Below(order, n - 1));
      LastChildMeaning(children, tag, order, n - 1);
      hide ContainsDynamic, Newest, Below;
    }
  }

  lemma FirstIsLastIff(children: seq<DynamicFrame>, tag: nat, first: nat, last: nat)
    requires FirstHolder(children, tag, first) && LastHolder(children, tag, last)
    ensures first == last <==> OneHolder(children, tag)
  {
    hide ContainsDynamic;
  }

  lemma OnlyLastHolder(children: seq<DynamicFrame>, tag: nat, k: nat, j: nat)
    requires LastHolder(children, tag, k) && LastHolder(children, tag, j)
    ensures k == j
  {
    hide ContainsDynamic;
  }

  /** Of the children the search takes the last that holds the type; whether that is the most recent
      match depends on their order and on that child. */
  lemma {:induction false} ChildrenIff(children: seq<DynamicFrame>, tag: nat, order: Ordering)
    ensures FindInChildren(children, tag, 0, |children|) == NewestChild(children, tag, order)
       <==> ChildrenClear(children, tag, order)
    decreases children, 0
  {
    var n := |children|;
    FindInChildrenLast(children, tag, n);
    FirstChildMeaning(children, tag, order, 0);
    LastChildMeaning(children, tag, order, n);
    match FindInChildren(children, tag, 0, n)
    case None =>
      NoneClear(children, tag, order);
    case Some(p) =>
      var k := p.child;
      NewestIff(children[k], tag, Below(order, k));
      hide ContainsDynamic, Newest, DowncastDynamic, Below, Clear, FindInChildren, FirstChild, LastChild;
      assert LastHolder(children, tag, k);
      LastHolderClear(children, tag, order, k);
      if order.newestFirst {
        var q := FirstChild(children, tag, order, 0).value;
        assert FirstHolder(children, tag, q.child);
        FirstIsLastIff(children, tag, q.child, k);
      } else {
        var q := LastChild(children, tag, order, n).value;
        assert LastHolder(children, tag, q.child);
        OnlyLastHolder(children, tag, k, q.child);
      }
  }

  lemma NoneClear(children: seq<DynamicFrame>, tag: nat, order: Ordering)
    requires forall i :: 0 <= i < |children| ==> !ContainsDynamic(children[i], tag)
    ensures ChildrenClear(children, tag, order)
  {
    hide ContainsDynamic, Clear;
  }

  lemma LastHolderClear(children: seq<DynamicFrame>, tag: nat, order: Ordering, k: nat)
    requires LastHolder(children, tag, k)
    ensures ChildrenClear(children, tag, order)
       <==> (order.newestFirst ==> OneHolder(children, tag)) && Clear(children[k], tag, Below(order, k))
  {
    hide ContainsDynamic, Clear, OneHolder;
    forall j | 0 <= j < |children| && LastHolder(children, tag, j)
      ensures j == k
    {
      OnlyLastHolder(children, tag, k, j);
    }
  }

  /** The search of a demoted frame finds the most recent match exactly when the frame is clear. */
  lemma {:induction false} NewestIff(df: DynamicFrame, tag: nat, order: Ordering)
    ensures DowncastDynamic(df, tag) == Newest(df, tag, order) <==> Clear(df, tag, order)
    decreases df, 1
  {
    OwnIff(df.context, df.attachments, tag);
    ChildrenIff(df.children, tag, order);
    hide ContainsDynamic, FindInChildren, NewestChild, FindAttachment, ChildrenClear;
  }

  // ---------------------------------------------------------------------------------------------
  // Reports

  /** Root `i` is the first that holds the type, at any depth. */
  ghost predicate FirstRoot(roots: seq<StaticFrame>, tag: nat, i: nat) {
    i < |roots| && ContainsDynamic(Demote(roots[i]), tag)
    && forall j :: 0 <= j < i ==> !ContainsDynamic(Demote(roots[j]), tag)
  }

  predicate RootHoldsItself(root: StaticFrame, tag: nat) {
    HoldsItself(root.context, root.attachments, tag)
  }

  /** The first root that holds the type holds it clearly; and when it does so only in its children, no
      later root holds it in its own values, which the documentation puts first. */
  ghost predicate ReportClear(roots: seq<StaticFrame>, tag: nat, order: Ordering) {
    forall i :: 0 <= i < |roots| && FirstRoot(roots, tag, i) ==>
      && Clear(Demote(roots[i]), tag, Below(order, i))
      && (!RootHoldsItself(roots[i], tag) ==> forall j :: 0 <= j < |roots| ==> !RootHoldsItself(roots[j], tag))
  }

  lemma {:induction false} NewestRootMeaning(roots: seq<StaticFrame>, tag: nat, from: nat)
    requires from <= |roots|
    ensures match NewestRoot(roots, tag, from)
            case NotFound => forall i :: from <= i < |roots| ==> !RootHoldsItself(roots[i], tag)
            case Found(k, p) =>
              && from <= k < |roots| && RootHoldsItself(roots[k], tag)
              && NewestOwn(roots[k].context, roots[k].attachments, tag) == Some(p)
              && forall i :: from <= i < k ==> !RootHoldsItself(roots[i], tag)
    decreases |roots| - from
  {
    if from < |roots| {
      OwnIff(roots[from].context, roots[from].attachments, tag);
      hide NewestOwn, HoldsItself;
      NewestRootMeaning(roots, tag, from + 1);
    }
  }

  predicate HeldBelow(root: StaticFrame, tag: nat) {
    exists i :: 0 <= i < |root.children| && ContainsDynamic(root.children[i], tag)
  }

  lemma {:induction false} NewestBelowMeaning(roots: seq<StaticFrame>, tag: nat, order: Ordering, from: nat)
    requires from <= |roots|
    ensures match NewestBelow(roots, tag, order, from)
            case NotFound => forall i :: from <= i < |roots| ==> !HeldBelow(roots[i], tag)
            case Found(k, p) =>
              && from <= k < |roots| && HeldBelow(roots[k], tag)
              && NewestChild(roots[k].children, tag, Below(order, k)) == Some(p)
              && forall i :: from <= i < k ==> !HeldBelow(roots[i], tag)
    decreases |roots| - from
  {
    if from < |roots| {
      NewestChildIfHeld(roots[from], tag, Below(order, from));
      hide NewestChild, HeldBelow, Below;
      NewestBelowMeaning(roots, tag, order, from + 1);
    }
  }

  lemma NewestChildIfHeld(root: StaticFrame, tag: nat, order: Ordering)
    ensures NewestChild(root.children, tag, order).Some? <==> HeldBelow(root, tag)
  {
    FirstChildMeaning(root.children, tag, order, 0);
    LastChildMeaning(root.children, tag, order, |root.children|);
    hide ContainsDynamic, FirstChild, LastChild;
  }

  lemma RootHolds(root: StaticFrame, tag: nat)
    ensures ContainsDynamic(Demote(root), tag) <==> RootHoldsItself(root, tag) || HeldBelow(root, tag)
  {
  }

  /** What the report's search returns: the place in the first root that holds the type. */
  lemma FirstRootSearched(roots: seq<StaticFrame>, tag: nat)
    ensures var f := DowncastRef(roots, tag, 0);
            if f.Found? then FirstRoot(roots, tag, f.root) && DowncastDynamic(Demote(roots[f.root]), tag) == Some(f.place)
            else forall i :: 0 <= i < |roots| ==> !ContainsDynamic(Demote(roots[i]), tag)
  {
    DowncastFrom(roots, tag, 0);
  }

  lemma {:induction false} DowncastFrom(roots: seq<StaticFrame>, tag: nat, from: nat)
    requires from <= |roots|
    ensures match DowncastRef(roots, tag, from)
            case NotFound => forall i :: from <= i < |roots| ==> !ContainsDynamic(Demote(roots[i]), tag)
            case Found(k, p) =>
              && from <= k < |roots| && ContainsDynamic(Demote(roots[k]), tag)
              && (forall i :: from <= i < k ==> !ContainsDynamic(Demote(roots[i]), tag))
              && DowncastDynamic(Demote(roots[k]), tag) == Some(p)
    decreases |roots| - from
  {
    if from < |roots| {
      StaticSearch(roots[from], tag, 0);
      DowncastIff(Demote(roots[from]), tag);
      hide ContainsDynamic, DowncastDynamic, DowncastStatic;
      DowncastFrom(roots, tag, from + 1);
    }
  }

  lemma OnlyFirstRoot(roots: seq<StaticFrame>, tag: nat, i: nat, k: nat)
    requires FirstRoot(roots, tag, i) && FirstRoot(roots, tag, k)
    ensures i == k
  {
    hide ContainsDynamic;
  }

  lemma ReportClearAt(roots: seq<StaticFrame>, tag: nat, order: Ordering, k: nat)
    requires FirstRoot(roots, tag, k)
    ensures ReportClear(roots, tag, order)
       <==> Clear(Demote(roots[k]), tag, Below(order, k))
            && (!RootHoldsItself(roots[k], tag) ==> forall j :: 0 <= j < |roots| ==> !RootHoldsItself(roots[j], tag))
  {
    hide ContainsDynamic, Clear, RootHoldsItself;
    forall i | 0 <= i < |roots| && FirstRoot(roots, tag, i)
      ensures i == k
    {
      OnlyFirstRoot(roots, tag, i, k);
    }
  }

  /** The most recent match, once the first root that holds the type is known. */
  lemma MostRecentAt(roots: seq<StaticFrame>, tag: nat, order: Ordering, k: nat)
    requires FirstRoot(roots, tag, k)
    ensures var later := !RootHoldsItself(roots[k], tag) && exists j :: 0 <= j < |roots| && RootHoldsItself(roots[j], tag);
            var f := MostRecent(roots, tag, order);
            f.Found? && if later then f.root != k
                        else f.root == k && Newest(Demote(roots[k]), tag, Below(order, k)) == Some(f.place)
  {
    NewestRootMeaning(roots, tag, 0);
    NewestBelowMeaning(roots, tag, order, 0);
    forall i | 0 <= i < |roots|
      ensures ContainsDynamic(Demote(roots[i]), tag) <==> RootHoldsItself(roots[i], tag) || HeldBelow(roots[i], tag)
    {
      RootHolds(roots[i], tag);
    }
    OwnIff(roots[k].context, roots[k].attachments, tag);
    hide ContainsDynamic, HeldBelow, NewestChild, NewestOwn, HoldsItself, NewestRoot, NewestBelow, Below;
  }

  /** `downcast_ref` returns the most recent match, as documented, exactly when the report is clear. */
  lemma MostRecentIff(roots: seq<StaticFrame>, tag: nat, order: Ordering)
    ensures DowncastRef(roots, tag, 0) == MostRecent(roots, tag, order) <==> ReportClear(roots, tag, order)
  {
    FirstRootSearched(roots, tag);
    match DowncastRef(roots, tag, 0)
    case NotFound =>
      NothingRecent(roots, tag, order);
    case Found(k, p) =>
      MostRecentAt(roots, tag, order, k);
      ReportClearAt(roots, tag, order, k);
      NewestIff(Demote(roots[k]), tag, Below(order, k));
      hide ContainsDynamic, DowncastDynamic, Newest, Clear, MostRecent, RootHoldsItself, Below, ReportClear, DowncastRef, FirstRoot;
  }

  lemma NothingRecent(roots: seq<StaticFrame>, tag: nat, order: Ordering)
    requires forall i :: 0 <= i < |roots| ==> !ContainsDynamic(Demote(roots[i]), tag)
    ensures MostRecent(roots, tag, order).NotFound? && ReportClear(roots, tag, order)
  {
    NewestRootMeaning(roots, tag, 0);
    NewestBelowMeaning(roots, tag, order, 0);
    forall i | 0 <= i < |roots|
      ensures !RootHoldsItself(roots[i], tag) && !HeldBelow(roots[i], tag)
    {
      RootHolds(roots[i], tag);
    }
    hide ContainsDynamic, HeldBelow, Clear, RootHoldsItself, NewestRoot, NewestBelow;
  }

  // ---------------------------------------------------------------------------------------------
  // After a change of context

  lemma FreshHeadClear(context: ContextFrame, typed: seq<StaticFrame>, lost: usize, tag: nat, order: Ordering)
    ensures ReportClear([FreshHead(context, DemoteAll(typed), lost)], tag, order)
       <==> context.item.tag == tag || ChildrenClear(DemoteAll(typed), tag, Below(order, 0))
  {
    var head := FreshHead(context, DemoteAll(typed), lost);
    var roots := [head];
    RootHolds(head, tag);
    if ContainsDynamic(Demote(head), tag) {
      assert FirstRoot(roots, tag, 0);
      ReportClearAt(roots, tag, order, 0);
      hide ContainsDynamic, ChildrenClear;
      assert Clear(Demote(head), tag, Below(order, 0))
        <==> context.item.tag == tag || ChildrenClear(DemoteAll(typed), tag, Below(order, 0));
    } else {
      NoneClear(DemoteAll(typed), tag, Below(order, 0));
      hide ContainsDynamic, ChildrenClear, Clear;
      assert !FirstRoot(roots, tag, 0);
    }
  }

  /** After `change_context`, which leaves the newest child first, under any allocator: a search finds
      the most recent of the surviving values exactly when the new context matches, or at most one
      surviving frame holds the type and that frame is clear. */
  lemma ChangeContextMostRecentIff(s: ReportState, context: ContextFrame, oracle: Oracle, calls: nat, tag: nat, order: Ordering)
    requires s.Valid() && !ChangeContext(s, context, oracle, calls).panicked && Below(order, 0).newestFirst
    ensures |ChangeContext(s, context, oracle, calls).state.head.children| <= |s.Frames()|
    ensures var after := ChangeContext(s, context, oracle, calls).state;
            var survivors := s.Frames()[..|after.head.children|];
            DowncastRef(after.Frames(), tag, 0) == MostRecent(after.Frames(), tag, order)
            <==> context.item.tag == tag
                 || (OnlyOneWith(survivors, tag)
                     && forall k :: 0 <= k < |survivors| && ContainsDynamic(Demote(survivors[k]), tag) ==>
                          Clear(Demote(survivors[k]), tag, Below(Below(order, 0), k)))
  {
    var after := ChangeContext(s, context, oracle, calls).state;
    ChangeContextMeaning(s, context, oracle, calls);
    hide ChangeContext, Stumbles;
    var survivors := s.Frames()[..|after.head.children|];
    assert after.head.children == DemoteAll(survivors);
    assert after.Frames() == [after.head];
    MostRecentIff(after.Frames(), tag, order);
    FreshHeadClear(context, survivors, after.head.lostChildren, tag, order);
    OneHolderClear(survivors, tag, Below(order, 0));
    hide DowncastRef, MostRecent, ReportClear, ChildrenClear, Clear, ContainsDynamic, OnlyOneWith;
  }

  lemma OneHolderClear(typed: seq<StaticFrame>, tag: nat, order: Ordering)
    requires order.newestFirst
    ensures ChildrenClear(DemoteAll(typed), tag, order)
       <==> OnlyOneWith(typed, tag)
            && forall k :: 0 <= k < |typed| && ContainsDynamic(Demote(typed[k]), tag) ==>
                 Clear(Demote(typed[k]), tag, Below(order, k))
  {
    hide ContainsDynamic, Clear;
    var children := DemoteAll(typed);
    assert OneHolder(children, tag) <==> OnlyOneWith(typed, tag);
    if OneHolder(children, tag) {
      forall k | 0 <= k < |typed|
        ensures LastHolder(children, tag, k) <==> ContainsDynamic(Demote(typed[k]), tag)
      {
      }
    }
  }

  /** After `try_change_context`, which leaves the newest child last: exactly when the new context
      matches, or the newest frame that holds the type is clear. */
  lemma ChangedMostRecentIff(s: ReportState, context: ContextFrame, tag: nat, order: Ordering)
    requires !Below(order, 0).newestFirst
    ensures var after := Changed(s, context);
            DowncastRef(after.Frames(), tag, 0) == MostRecent(after.Frames(), tag, order)
            <==> context.item.tag == tag || NewestHolderClear(s.Frames(), tag, Below(order, 0))
  {
    hide DowncastRef, MostRecent, NewestHolderClear, Below, Mirrored, FreshHead, Reversed, DemoteAll;
    assert Changed(s, context).Frames() == [FreshHead(context, DemoteAll(Reversed(s.Frames())), s.lostPeers)];
    ReversedIsMirrored(s.Frames());
    MirroredMostRecent(s.Frames(), Reversed(s.Frames()), context, s.lostPeers, tag, order);
  }

  /** The newest frame that holds the type is clear in its place among the children, where it comes last. */
  ghost predicate NewestHolderClear(frames: seq<StaticFrame>, tag: nat, order: Ordering) {
    forall k :: 0 <= k < |frames| && IsNewestWith(frames, tag, k) ==>
      Clear(Demote(frames[k]), tag, Below(order, |frames| - 1 - k))
  }

  lemma MirroredMostRecent(frames: seq<StaticFrame>, back: seq<StaticFrame>, context: ContextFrame, lost: usize, tag: nat, order: Ordering)
    requires Mirrored(frames, back) && !Below(order, 0).newestFirst
    ensures var roots := [FreshHead(context, DemoteAll(back), lost)];
            DowncastRef(roots, tag, 0) == MostRecent(roots, tag, order)
            <==> context.item.tag == tag || NewestHolderClear(frames, tag, Below(order, 0))
  {
    var roots := [FreshHead(context, DemoteAll(back), lost)];
    hide DowncastRef, MostRecent, ReportClear, ChildrenClear, NewestHolderClear, Below, DemoteAll, Mirrored, FreshHead;
    MostRecentIff(roots, tag, order);
    FreshHeadClear(context, back, lost, tag, order);
    NewestClear(frames, back, tag, Below(order, 0));
  }

  lemma MirroredDemoted(frames: seq<StaticFrame>, back: seq<StaticFrame>)
    requires Mirrored(frames, back)
    ensures Mirrored(DemoteAll(frames), DemoteAll(back))
  {
    hide Demote;
    var a, b := DemoteAll(frames), DemoteAll(back);
    forall i, j | 0 <= i < |a| && 0 <= j < |b| && i + j == |a| - 1
      ensures a[i] == b[j]
    {
      assert frames[i] == back[j];
    }
  }

  lemma NewestIsLast(frames: seq<StaticFrame>, back: seq<StaticFrame>, tag: nat, k: nat)
    requires Mirrored(frames, back) && k < |frames|
    ensures IsNewestWith(frames, tag, k) <==> LastHolder(DemoteAll(back), tag, |frames| - 1 - k)
    ensures DemoteAll(back)[|frames| - 1 - k] == Demote(frames[k])
  {
    MirroredDemoted(frames, back);
    var a, b := DemoteAll(frames), DemoteAll(back);
    hide ContainsDynamic, Demote;
    assert IsNewestWith(frames, tag, k) <==> FirstHolder(a, tag, k);
    assert a[k] == b[|a| - 1 - k];
    hide DemoteAll;
    MirroredHolder(a, b, tag, k);
  }

  lemma MirroredHolder(a: seq<DynamicFrame>, b: seq<DynamicFrame>, tag: nat, k: nat)
    requires Mirrored(a, b) && k < |a|
    ensures FirstHolder(a, tag, k) <==> LastHolder(b, tag, |a| - 1 - k)
  {
    hide ContainsDynamic;
    var n := |a|;
    assert a[k] == b[n - 1 - k];
    if FirstHolder(a, tag, k) {
      forall i | n - 1 - k < i < n
        ensures !ContainsDynamic(b[i], tag)
      {
        assert a[n - 1 - i] == b[i];
      }
    }
    if LastHolder(b, tag, n - 1 - k) {
      forall i | 0 <= i < k
        ensures !ContainsDynamic(a[i], tag)
      {
        assert a[i] == b[n - 1 - i];
      }
    }
  }

  lemma NewestClearAt(frames: seq<StaticFrame>, back: seq<StaticFrame>, tag: nat, order: Ordering, k: nat)
    requires Mirrored(frames, back) && !order.newestFirst && IsNewestWith(frames, tag, k)
    ensures ChildrenClear(DemoteAll(back), tag, order) <==> Clear(Demote(frames[k]), tag, Below(order, |frames| - 1 - k))
  {
    assert k < |frames|;
    hide ContainsDynamic, Clear, ChildrenClear, LastHolder, IsNewestWith, Demote, DemoteAll, Below, Mirrored, OneHolder;
    NewestIsLast(frames, back, tag, k);
    LastHolderClear(DemoteAll(back), tag, order, |frames| - 1 - k);
  }

  lemma OnlyNewest(frames: seq<StaticFrame>, tag: nat, j: nat, k: nat)
    requires IsNewestWith(frames, tag, j) && IsNewestWith(frames, tag, k)
    ensures j == k
  {
    hide ContainsDynamic;
  }

  lemma NewestClear(frames: seq<StaticFrame>, back: seq<StaticFrame>, tag: nat, order: Ordering)
    requires Mirrored(frames, back) && !order.newestFirst
    ensures ChildrenClear(DemoteAll(back), tag, order) <==> NewestHolderClear(frames, tag, order)
  {
    hide ContainsDynamic, Clear, DemoteAll, IsNewestWith, LastHolder, Below, ChildrenClear, Mirrored, Demote;
    if k :| 0 <= k < |frames| && IsNewestWith(frames, tag, k) {
      NewestClearAt(frames, back, tag, order, k);
      forall j | 0 <= j < |frames| && IsNewestWith(frames, tag, j)
        ensures j == k
      {
        OnlyNewest(frames, tag, j, k);
      }
    } else {
      NobodyHolds(frames, back, tag, order);
    }
  }

  lemma NobodyHolds(frames: seq<StaticFrame>, back: seq<StaticFrame>, tag: nat, order: Ordering)
    requires Mirrored(frames, back) && !order.newestFirst
    requires forall k :: 0 <= k < |frames| ==> !IsNewestWith(frames, tag, k)
    ensures ChildrenClear(DemoteAll(back), tag, order)
  {
    var n, children := |frames|, DemoteAll(back);
    forall j | 0 <= j < n
      ensures !LastHolder(children, tag, j)
    {
      NewestIsLast(frames, back, tag, n - 1 - j);
    }
    hide ContainsDynamic, Clear, DemoteAll, LastHolder;
  }

  // ---------------------------------------------------------------------------------------------
  // Inputs

  /** A frame with two attachments of one type: the older one is found, without any change of context. */
  lemma OlderAttachmentIsFound()
    ensures var f := Bare(2, 0).(attachments := [Item(1, 10), Item(1, 20)]);
            && DowncastRef([f], 1, 0) == Found(0, Here(1))
            && MostRecent([f], 1, Ordering(true, [])) == Found(0, Here(2))
  {
    var f := Bare(2, 0).(attachments := [Item(1, 10), Item(1, 20)]);
    assert FindAttachment(f.attachments, 1, 0) == Some(Here(1));
    assert LastAttachment(f.attachments, 1, 2) == Some(Here(2));
  }

  /** A head and a peer of one type, moved down by two lossless changes of context.  At the second only
      one typed frame holds the type; still the older of the two values is found. */
  lemma OlderNestedValueIsFound()
    ensures var s := ReportState(Bare(1, 20), Deque([Bare(1, 10)], 1), 0, None);
            var once := ChangeContext(s, ContextFrame(Item(2, 30), None, 0), _ => Granted(0), 0).state;
            once.Valid()
            && var twice := ChangeContext(once, ContextFrame(Item(3, 40), None, 0), _ => Granted(0), 0).state;
               && OnlyOneWith(once.Frames(), 1)
               && DowncastRef(twice.Frames(), 1, 0) == Found(0, Inside(0, Inside(1, Here(0))))
               && MostRecent(twice.Frames(), 1, Ordering(true, [])) == Found(0, Inside(0, Inside(0, Here(0))))
  {
    var s := ReportState(Bare(1, 20), Deque([Bare(1, 10)], 1), 0, None);
    var grants: Oracle := _ => Granted(0);
    ChangeContextLossless(s, ContextFrame(Item(2, 30), None, 0), grants, 0);
    var olds := DemoteAll(s.Frames());
    var once := ReportState(FreshHead(ContextFrame(Item(2, 30), None, 0), olds, 0), Deque([], 0), 0, None);
    ChangeContextLossless(once, ContextFrame(Item(3, 40), None, 0), grants, 0);
    hide ChangeContext;
    var head := FreshHead(ContextFrame(Item(3, 40), None, 0), DemoteAll(once.Frames()), 0);
    assert olds == [Demote(Bare(1, 20)), Demote(Bare(1, 10))];
    assert head.children == [Demote(once.head)];
    NestedValues(head, Demote(once.head), olds);
  }

  lemma NestedValues(head: StaticFrame, inner: DynamicFrame, olds: seq<DynamicFrame>)
    requires head.context.item.tag == 3 && head.attachments == [] && head.children == [inner]
    requires inner.context.item.tag == 2 && inner.attachments == [] && inner.children == olds
    requires |olds| == 2 && olds[0].context.item.tag == 1 && olds[1].context.item.tag == 1
    requires olds[0].attachments == [] && olds[1].attachments == []
    ensures DowncastRef([head], 1, 0) == Found(0, Inside(0, Inside(1, Here(0))))
    ensures MostRecent([head], 1, Ordering(true, [])) == Found(0, Inside(0, Inside(0, Here(0))))
  {
    var order := Ordering(true, []);
    assert Below(order, 0) == order;
    assert FindInChildren(olds, 1, 0, 2) == Some(Inside(1, Here(0)));
    assert DowncastDynamic(inner, 1) == Some(Inside(1, Here(0)));
    assert Newest(olds[0], 1, Below(order, 0)) == Some(Here(0));
    assert FirstChild(olds, 1, order, 0) == Some(Inside(0, Here(0)));
    assert Newest(inner, 1, order) == Some(Inside(0, Here(0)));
    assert FirstChild([inner], 1, order, 0) == Some(Inside(0, Inside(0, Here(0))));
    assert NewestRoot([head], 1, 0) == NotFound;
  }
}
