/** How changing a report's context moves its traversal one level down. */
module Demotion {
  import opened Allocation
  import opened Frame
  import opened ReportSpec
  import opened Walk

  /** The same visit one level down; a typed frame has moved to the heap. */
  function Deeper(v: Visit): Visit {
    Visit(if v.frame.Static? then Dynamic(Demote(v.frame.sf)) else v.frame, v.depth + 1)
  }

  function DeeperAll(visits: seq<Visit>): seq<Visit> {
    seq(|visits|, i requires 0 <= i < |visits| => Deeper(visits[i]))
  }

  lemma DeeperConcat(a: seq<Visit>, b: seq<Visit>)
    ensures DeeperAll(a + b) == DeeperAll(a) + DeeperAll(b)
  {
  }

  lemma {:induction false} DeeperForest(frames: seq<DynamicFrame>, depth: nat)
    ensures DeeperAll(Forest(frames, depth)) == Forest(frames, depth + 1)
    decreases frames, 1
  {
    if frames != [] {
      var first, rest := frames[0], Forest(frames[1..], depth);
      var below := Below(first.children, first.lostChildren, depth + 1);
      DeeperBelow(first.children, first.lostChildren, depth + 1);
      DeeperForest(frames[1..], depth);
      DeeperConcat([Visit(Dynamic(first), depth)], below);
      DeeperConcat(Preorder(first, depth), rest);
    }
  }

  lemma {:induction false} DeeperBelow(children: seq<DynamicFrame>, lost: usize, depth: nat)
    ensures DeeperAll(Below(children, lost, depth)) == Below(children, lost, depth + 1)
    decreases children, 2
  {
    if children != [] {
      DeeperForest(children, depth);
      DeeperConcat(Forest(children, depth), Marker(lost, depth));
    }
  }

  lemma {:induction false} DeeperRoots(roots: seq<StaticFrame>)
    ensures DeeperAll(Roots(roots)) == Forest(DemoteAll(roots), 1)
    decreases |roots|
  {
    if roots != [] {
      var first, demoted := roots[0], DemoteAll(roots);
      var here, below := [Visit(Static(first), 0)], Below(first.children, first.lostChildren, 1);
      DeeperBelow(first.children, first.lostChildren, 1);
      DeeperRoots(roots[1..]);
      assert demoted[1..] == DemoteAll(roots[1..]);
      ForestHead(demoted, 1);
      DeeperConcat(here, below);
      DeeperConcat(here + below, Roots(roots[1..]));
      hide Forest, Roots, Below;
      assert DeeperAll(here) == [Visit(Dynamic(demoted[0]), 1)];
    }
  }

  /** The traversal of a report whose only typed frame is a fresh head. */
  lemma FreshTraversal(context: ContextFrame, typed: seq<StaticFrame>, lost: usize)
    ensures var head := FreshHead(context, DemoteAll(typed), lost);
            Traversal([head], 0)
            == [Visit(Static(head), 0)] + (if typed == [] then [] else DeeperAll(Traversal(typed, lost)))
  {
    var head := FreshHead(context, DemoteAll(typed), lost);
    assert Roots([head]) == [Visit(Static(head), 0)] + Below(DemoteAll(typed), lost, 1) + Roots([]);
    DeeperRoots(typed);
    DeeperConcat(Roots(typed), Marker(lost, 0));
    assert DeeperAll(Marker(lost, 0)) == Marker(lost, 1);
  }

  /** After `change_context`, under any allocator, the walk visits the new head and then makes exactly
      the old walk, restricted to the typed frames that survived, one level deeper.  The count of what
      was lost closes that walk, unless nothing survived: then no visit reports it. */
  lemma ChangeContextDeepens(s: ReportState, context: ContextFrame, oracle: Oracle, calls: nat)
    requires s.Valid() && !ChangeContext(s, context, oracle, calls).panicked
    ensures |ChangeContext(s, context, oracle, calls).state.head.children| <= |s.Frames()|
    ensures var after := ChangeContext(s, context, oracle, calls).state;
            var survivors := s.Frames()[..|after.head.children|];
            Traversal(after.Frames(), after.lostPeers)
            == [Visit(Static(after.head), 0)]
               + (if survivors == [] then [] else DeeperAll(Traversal(survivors, after.head.lostChildren)))
  {
    var after := ChangeContext(s, context, oracle, calls).state;
    var head := after.head;
    ChangeContextMeaning(s, context, oracle, calls);
    hide ChangeContext;
    var k := |head.children|;
    assert head.children == DemoteAll(s.Frames()[..k]);
    FreshTraversal(context, s.Frames()[..k], head.lostChildren);
    hide Traversal;
    assert after.Frames() == [head];
  }

  /** After a lossless change the walk visits the new head and then every old frame one level deeper,
      the typed frames in the opposite order, with the old loss count at the end. */
  lemma ChangedDeepens(s: ReportState, context: ContextFrame)
    ensures var after := Changed(s, context);
            Traversal(after.Frames(), after.lostPeers)
            == [Visit(Static(after.head), 0)] + DeeperAll(Traversal(Reversed(s.Frames()), s.lostPeers))
  {
    var after := Changed(s, context);
    FreshTraversal(context, Reversed(s.Frames()), s.lostPeers);
    hide Traversal;
    assert after.Frames() == [after.head];
    assert |Reversed(s.Frames())| == |s.Frames()|;
  }
}
