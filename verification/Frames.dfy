/** The two walkers over a report as the program runs them, each proved to perform the steps of
    the machine in `Walk`, and the traversal that visits frames mutably. */
module Frames {
  import opened Allocation
  import opened Frame
  import opened Sequences
  import opened Walk

  /** `Frames`: head, its descendants, then each peer and its descendants, newest peer first. */
  class FrameWalker {
    const headRef: StaticFrame
    const rootLostPeers: usize
    var peerIter: seq<StaticFrame>
    var headRemaining: bool
    var stack: seq<StackEntry>
    var stackCap: nat
    var rootLostEmitted: bool
    var pendingFrame: Option<FrameRef>
    var stalled: bool
    var autoUnstall: bool

    ghost function State(): Walk
      reads this
    {
      Walk((if headRemaining then [headRef] else []) + peerIter, stack, stackCap,
           if rootLostEmitted then 0 else rootLostPeers, pendingFrame, stalled, autoUnstall)
    }

    ghost predicate Valid()
      reads this
    {
      State().Valid() && (headRemaining ==> stack == [] && pendingFrame.None?)
    }

    constructor (head: StaticFrame, peers: seq<StaticFrame>, lostPeers: usize)
      ensures Valid()
      ensures State() == Walk([head] + peers, [], 0, lostPeers, None, false, false)
    {
      headRef, rootLostPeers, peerIter := head, lostPeers, peers;
      headRemaining, rootLostEmitted := true, false;
      stack, stackCap, pendingFrame := [], 0, None;
      stalled, autoUnstall := false, false;
    }

    method Next(a: Allocator) returns (y: Yield)
      requires Valid()
      modifies this, a`calls
      ensures Valid()
      ensures Stepped(State(), y, a.calls) == Step(old(State()), a.reply, old(a.calls))
    {
      stalled := false;
      if pendingFrame.Some? {
        var frame := pendingFrame.value;
        pendingFrame := None;
        var ok, cap := a.TryReserve(|stack|, stackCap, 1);
        if !ok {
          if autoUnstall {
            return Failed(|stack|);
          }
          pendingFrame := Some(frame);
          stalled := true;
          return Failed(|stack|);
        }
        stack, stackCap := stack + [StackEntry(frame.Kids(), frame.Lost())], cap;
      }
      y := Proceed();
    }

    /** The part of `next` after the pending frame. */
    method Proceed() returns (y: Yield)
      requires Valid() && pendingFrame.None?
      modifies this
      ensures Valid()
      ensures (State(), y) == Advance(old(State()))
    {
      if headRemaining {
        y := NextRoot();
        return;
      }
      while |stack| > 0
        invariant Valid() && pendingFrame.None? && !headRemaining
        invariant Advance(State()) == Advance(old(State()))
        decreases |stack|
      {
        var top := stack[|stack| - 1];
        var depth := |stack|;
        if top.iter != [] {
          var f := Dynamic(top.iter[0]);
          stack := stack[..depth - 1] + [top.(iter := top.iter[1..])];
          pendingFrame := PendingOf(f);
          return Visited(Visit(f, depth));
        }
        stack := stack[..depth - 1];
        if top.lostChildren > 0 {
          return Visited(Visit(LostFrames(top.lostChildren), depth));
        }
      }
      y := NextRoot();
    }

    /** With no child left to visit: the head, then the next peer, then the loss marker. */
    method NextRoot() returns (y: Yield)
      requires Valid() && pendingFrame.None? && stack == []
      modifies this
      ensures Valid()
      ensures (State(), y) == Advance(old(State()))
    {
      ghost var roots := State().roots;
      if headRemaining {
        headRemaining := false;
        pendingFrame := PendingOf(Static(headRef));
        assert State().roots == roots[1..];
        return Visited(Visit(Static(headRef), 0));
      }
      if peerIter != [] {
        var f := Static(peerIter[0]);
        peerIter := peerIter[1..];
        pendingFrame := PendingOf(f);
        assert State().roots == roots[1..];
        return Visited(Visit(f, 0));
      }
      if !rootLostEmitted && rootLostPeers > 0 {
        rootLostEmitted := true;
        return Visited(Visit(LostFrames(rootLostPeers), 0));
      }
      return Finished;
    }

    method TryUnstall() returns (gone: bool)
      requires Valid()
      modifies this
      ensures Valid()
      ensures (State(), gone) == Unstall(old(State()))
      ensures gone == old(stalled)
      ensures State() == if gone then old(State()).(pending := None, stalled := false) else old(State())
    {
      if stalled {
        stalled := false;
        gone := pendingFrame.Some?;
        pendingFrame := None;
      } else {
        gone := false;
      }
    }

    method SetAutoUnstall(on: bool)
      requires Valid()
      modifies this
      ensures Valid()
      ensures State() == old(State()).(auto := on)
    {
      autoUnstall := on;
    }
  }

  /** `ChronoFrames`: oldest peer first, the head last. */
  class ChronoWalker {
    const headRef: StaticFrame
    const rootLostPeers: usize
    var peerIter: seq<StaticFrame>  // consumed from the back
    var rootPeerRemaining: bool
    var stack: seq<StackEntry>
    var stackCap: nat
    var rootLostEmitted: bool
    var pendingFrame: Option<FrameRef>
    var stalled: bool
    var autoUnstall: bool

    ghost function State(): Walk
      reads this
    {
      Walk(Reversed(peerIter) + (if rootPeerRemaining then [headRef] else []), stack, stackCap,
           if rootLostEmitted then 0 else rootLostPeers, pendingFrame, stalled, autoUnstall)
    }

    ghost predicate Valid()
      reads this
    {
      State().Valid() && (!rootPeerRemaining ==> peerIter == [])
    }

    constructor (head: StaticFrame, peers: seq<StaticFrame>, lostPeers: usize)
      ensures Valid()
      ensures State() == Walk(Reversed(peers) + [head], [], 0, lostPeers, None, false, false)
    {
      headRef, rootLostPeers, peerIter := head, lostPeers, peers;
      rootPeerRemaining, rootLostEmitted := true, false;
      stack, stackCap, pendingFrame := [], 0, None;
      stalled, autoUnstall := false, false;
    }

    method Next(a: Allocator) returns (y: Yield)
      requires Valid()
      modifies this, a`calls
      ensures Valid()
      ensures Stepped(State(), y, a.calls) == Step(old(State()), a.reply, old(a.calls))
    {
      stalled := false;
      if pendingFrame.Some? {
        var frame := pendingFrame.value;
        pendingFrame := None;
        var ok, cap := a.TryReserve(|stack|, stackCap, 1);
        if !ok {
          if autoUnstall {
            return Failed(|stack|);
          }
          pendingFrame := Some(frame);
          stalled := true;
          return Failed(|stack|);
        }
        stack, stackCap := stack + [StackEntry(frame.Kids(), frame.Lost())], cap;
      }
      y := Proceed();
    }

    /** The part of `next` after the pending frame. */
    method Proceed() returns (y: Yield)
      requires Valid() && pendingFrame.None?
      modifies this
      ensures Valid()
      ensures (State(), y) == Advance(old(State()))
    {
      hide Advance, Reversed;
      while |stack| > 0
        invariant Valid() && pendingFrame.None?
        invariant Advance(State()) == Advance(old(State()))
        decreases |stack|
      {
        var top := stack[|stack| - 1];
        var depth := |stack|;
        AdvanceSteps(State());
        if top.iter != [] {
          var f := Dynamic(top.iter[0]);
          stack := stack[..depth - 1] + [top.(iter := top.iter[1..])];
          pendingFrame := PendingOf(f);
          return Visited(Visit(f, depth));
        }
        stack := stack[..depth - 1];
        if top.lostChildren > 0 {
          return Visited(Visit(LostFrames(top.lostChildren), depth));
        }
      }
      y := NextRoot();
    }

    /** With no child left to visit: the oldest peer, at last the head, then the loss marker. */
    method NextRoot() returns (y: Yield)
      requires Valid() && pendingFrame.None? && stack == []
      modifies this
      ensures Valid()
      ensures (State(), y) == Advance(old(State()))
    {
      ghost var roots := State().roots;
      if rootPeerRemaining {
        if peerIter != [] {
          var f := Static(peerIter[|peerIter| - 1]);
          peerIter := peerIter[..|peerIter| - 1];
          pendingFrame := PendingOf(f);
          assert State().roots == roots[1..];
          return Visited(Visit(f, 0));
        } else {
          rootPeerRemaining := false;
          pendingFrame := PendingOf(Static(headRef));
          assert State().roots == roots[1..];
          return Visited(Visit(Static(headRef), 0));
        }
      }
      if !rootLostEmitted && rootLostPeers > 0 {
        rootLostEmitted := true;
        return Visited(Visit(LostFrames(rootLostPeers), 0));
      }
      return Finished;
    }

    method TryUnstall() returns (gone: bool)
      requires Valid()
      modifies this
      ensures Valid()
      ensures (State(), gone) == Unstall(old(State()))
      ensures gone == old(stalled)
      ensures State() == if gone then old(State()).(pending := None, stalled := false) else old(State())
    {
      if stalled {
        stalled := false;
        gone := pendingFrame.Some?;
        pendingFrame := None;
      } else {
        gone := false;
      }
    }

    method SetAutoUnstall(on: bool)
      requires Valid()
      modifies this
      ensures Valid()
      ensures State() == old(State()).(auto := on)
    {
      autoUnstall := on;
    }
  }

  // ---------------------------------------------------------------------------------------------
  // `frames_mut`

  datatype Outcome = Completed | Broke | AllocationFailed

  function Nodes(frames: seq<DynamicFrame>): seq<FrameRef> {
    if frames == [] then [] else [Dynamic(frames[0])] + Nodes(frames[0].children) + Nodes(frames[1..])
  }

  function Statics(frames: seq<StaticFrame>): seq<FrameRef> {
    if frames == [] then [] else [Static(frames[0])] + Statics(frames[1..])
  }

  /** The descendants of all roots, those of the last root first. */
  function Descendants(roots: seq<StaticFrame>): seq<FrameRef> {
    if roots == [] then [] else Nodes(roots[|roots| - 1].children) + Descendants(roots[..|roots| - 1])
  }

  /** The order in which `frames_mut` visits a report. */
  function MutOrder(roots: seq<StaticFrame>): seq<FrameRef> {
    Statics(roots) + Descendants(roots)
  }

  function Pending(stack: seq<seq<DynamicFrame>>): seq<FrameRef> {
    if stack == [] then [] else Nodes(stack[|stack| - 1]) + Pending(stack[..|stack| - 1])
  }

  lemma PendingPush(stack: seq<seq<DynamicFrame>>, top: seq<DynamicFrame>)
    ensures Pending(stack + [top]) == Nodes(top) + Pending(stack)
  {
    hide Nodes;
    assert (stack + [top])[..|stack|] == stack;
  }

  lemma PendingPop(stack: seq<seq<DynamicFrame>>)
    requires stack != []
    ensures var top := stack[|stack| - 1];
            var below := stack[..|stack| - 1];
            && stack == below + [top]
            && (top == [] ==> Pending(stack) == Pending(below))
            && (top != [] ==> Pending(stack) == [Dynamic(top[0])] + (Nodes(top[0].children) + Pending(below + [top[1..]])))
  {
    var top := stack[|stack| - 1];
    var below := stack[..|stack| - 1];
    assert stack == below + [top];
    if top != [] {
      PendingPush(below, top[1..]);
      Assoc4([Dynamic(top[0])], Nodes(top[0].children), Nodes(top[1..]), Pending(below));
    }
  }

  lemma Assoc4<T>(a: seq<T>, b: seq<T>, c: seq<T>, d: seq<T>)
    ensures (a + b + c) + d == a + (b + (c + d))
  {
  }

  /** `seed_stack_from_deque`: an empty deque is not pushed. */
  method SeedStack(stack: seq<seq<DynamicFrame>>, cap: nat, deque: seq<DynamicFrame>, a: Allocator)
    returns (ok: bool, stack': seq<seq<DynamicFrame>>, cap': nat)
    requires |stack| <= cap <= ISIZE_MAX
    modifies a`calls
    ensures |stack'| <= cap' <= ISIZE_MAX
    ensures ok ==> Pending(stack') == Nodes(deque) + Pending(stack)
    ensures ok ==> stack' == if deque == [] then stack else stack + [deque]
    ensures a.calls >= old(a.calls)
    ensures !ok ==> deque != [] && (SomeRefused(a.reply, old(a.calls), a.calls) || |stack| == ISIZE_MAX)
  {
    if deque == [] {
      return true, stack, cap;
    }
    ok, cap' := a.TryReserve(|stack|, cap, 1);
    stack' := stack;
    if ok {
      stack' := stack + [deque];
      PendingPush(stack, deque);
    }
  }

  /** How far a mutable traversal that visited `seen` of the frames `all` can have come. */
  ghost predicate Progress(seen: seq<FrameRef>, rest: seq<FrameRef>, all: seq<FrameRef>, breaks: nat -> bool) {
    seen + rest == all && forall k :: 0 <= k < |seen| ==> !breaks(k)
  }

  /** What `frames_mut` promises: an always-continuing visitor and a granting allocator see every
      frame in order; a break ends the traversal at the frame whose visit broke; an allocation
      failure leaves a proper prefix. */
  ghost predicate Traversed(visited: seq<FrameRef>, outcome: Outcome, all: seq<FrameRef>, breaks: nat -> bool) {
    match outcome
    case Completed => visited == all && forall k :: 0 <= k < |visited| ==> !breaks(k)
    case AllocationFailed => visited < all && forall k :: 0 <= k < |visited| ==> !breaks(k)
    case Broke =>
      && visited != [] && visited <= all
      && breaks(|visited| - 1) && forall k :: 0 <= k < |visited| - 1 ==> !breaks(k)
  }

  lemma StepProgress(seen: seq<FrameRef>, v: FrameRef, rest: seq<FrameRef>, all: seq<FrameRef>, breaks: nat -> bool)
    requires Progress(seen, [v] + rest, all, breaks)
    ensures if breaks(|seen|) then Traversed(seen + [v], Broke, all, breaks) else Progress(seen + [v], rest, all, breaks)
    ensures Traversed(seen, AllocationFailed, all, breaks)
  {
    assert seen + ([v] + rest) == (seen + [v]) + rest;
  }

  lemma NextInLine(seen: seq<FrameRef>, v: FrameRef, rest: seq<FrameRef>, all: seq<FrameRef>, breaks: nat -> bool)
    requires Progress(seen, [v] + rest, all, breaks)
    ensures |seen| < |all| && all[|seen|] == v
  {
  }

  /** Where an allocation failure can stop a traversal that has visited the first `k` frames.  A typed
      frame is visited before its children are queued, a demoted one after. */
  ghost predicate StopsAtChildren(all: seq<FrameRef>, typed: nat, k: nat) {
    || (0 < k <= typed && k <= |all| && all[k - 1].Kids() != [])
    || (typed <= k < |all| && all[k].Kids() != [])
  }

  lemma StopsAtRoot(seen: seq<FrameRef>, v: FrameRef, all: seq<FrameRef>, typed: nat, breaks: nat -> bool)
    requires Traversed(seen + [v], AllocationFailed, all, breaks) && |seen| < typed && v.Kids() != []
    ensures StopsAtChildren(all, typed, |seen| + 1)
  {
    assert all[|seen|] == (seen + [v])[|seen|];
  }

  /** The traversal with a visitor that may stop at its k-th call: `breaks(k)` says whether it does. */
  method FramesMut(roots: seq<StaticFrame>, breaks: nat -> bool, a: Allocator)
    returns (visited: seq<FrameRef>, outcome: Outcome)
    requires roots != []
    modifies a`calls
    ensures Traversed(visited, outcome, MutOrder(roots), breaks)
    ensures outcome.AllocationFailed? ==>
              SomeRefused(a.reply, old(a.calls), a.calls) || |MutOrder(roots)| > ISIZE_MAX
    ensures outcome.AllocationFailed? ==> StopsAtChildren(MutOrder(roots), |roots|, |visited|)
  {
    hide Nodes, Descendants, Statics, Pending, Progress, MutOrder, Traversed, StopsAtChildren;
    visited := [];
    var stack: seq<seq<DynamicFrame>>, cap := [], 0;
    var i := 0;
    NoRootSeen(roots, breaks);
    while i < |roots|
      invariant 0 <= i <= |roots| && |stack| <= cap <= ISIZE_MAX
      invariant |stack| <= |visited| == i && a.calls >= old(a.calls)
      invariant Progress(visited, Statics(roots[i..]) + Descendants(roots), MutOrder(roots), breaks)
      invariant Pending(stack) == Descendants(roots[..i])
    {
      RootStep(roots, i);
      StepProgress(visited, Static(roots[i]), Statics(roots[i + 1..]) + Descendants(roots), MutOrder(roots), breaks);
      ghost var seen := visited;
      visited := visited + [Static(roots[i])];
      if breaks(i) {
        return visited, Broke;
      }
      var ok;
      ok, stack, cap := SeedStack(stack, cap, roots[i].children, a);
      if !ok {
        SeedFailed(visited, roots, i, breaks);
        StopsAtRoot(seen, Static(roots[i]), MutOrder(roots), |roots|, breaks);
        SeenWithin(visited, Statics(roots[i + 1..]) + Descendants(roots), MutOrder(roots), breaks);
        return visited, AllocationFailed;
      }
      i := i + 1;
    }
    AllRootsSeen(roots, i);
    visited, outcome := DrainStack(MutOrder(roots), visited, stack, cap, breaks, a);
    if outcome.AllocationFailed? {
      StopsLater(MutOrder(roots), |roots|, |visited|);
    }
  }

  lemma StopsLater(all: seq<FrameRef>, typed: nat, k: nat)
    requires typed <= k < |all| && all[k].Kids() != []
    ensures StopsAtChildren(all, typed, k)
  {
  }

  lemma NoRootSeen(roots: seq<StaticFrame>, breaks: nat -> bool)
    ensures Progress([], Statics(roots[0..]) + Descendants(roots), MutOrder(roots), breaks)
    ensures Pending([]) == Descendants(roots[..0])
  {
    hide Statics, Nodes;
    assert roots[0..] == roots && roots[..0] == [];
    assert [] + MutOrder(roots) == MutOrder(roots);
  }

  lemma AllRootsSeen(roots: seq<StaticFrame>, i: nat)
    requires i == |roots|
    ensures Statics(roots[i..]) + Descendants(roots) == Descendants(roots[..i])
  {
    hide Descendants;
    assert roots[..i] == roots && roots[i..] == [];
    assert [] + Descendants(roots) == Descendants(roots);
  }

  lemma SeenWithin(seen: seq<FrameRef>, rest: seq<FrameRef>, all: seq<FrameRef>, breaks: nat -> bool)
    requires Progress(seen, rest, all, breaks)
    ensures |seen| <= |all|
  {
  }

  lemma StaticsDrop(roots: seq<StaticFrame>, i: nat)
    requires i < |roots|
    ensures Statics(roots[i..]) == [Static(roots[i])] + Statics(roots[i + 1..])
  {
    assert roots[i..][1..] == roots[i + 1..];
  }

  lemma DescendantsTake(roots: seq<StaticFrame>, i: nat)
    requires i < |roots|
    ensures Descendants(roots[..i + 1]) == Nodes(roots[i].children) + Descendants(roots[..i])
  {
    hide Nodes;
    assert roots[..i + 1][..i] == roots[..i];
  }

  lemma RootStep(roots: seq<StaticFrame>, i: nat)
    requires i < |roots|
    ensures Statics(roots[i..]) + Descendants(roots) == [Static(roots[i])] + (Statics(roots[i + 1..]) + Descendants(roots))
    ensures Descendants(roots[..i + 1]) == Nodes(roots[i].children) + Descendants(roots[..i])
  {
    hide Nodes, Descendants, Statics;
    StaticsDrop(roots, i);
    DescendantsTake(roots, i);
    Assoc([Static(roots[i])], Statics(roots[i + 1..]), Descendants(roots));
  }

  lemma ProperPrefix(seen: seq<FrameRef>, front: seq<FrameRef>, back: seq<FrameRef>, all: seq<FrameRef>, breaks: nat -> bool)
    requires back != [] && Progress(seen, front + back, all, breaks)
    ensures Traversed(seen, AllocationFailed, all, breaks)
  {
  }

  lemma SeedFailed(seen: seq<FrameRef>, roots: seq<StaticFrame>, i: nat, breaks: nat -> bool)
    requires i < |roots| && roots[i].children != []
    requires Progress(seen, Statics(roots[i + 1..]) + Descendants(roots), MutOrder(roots), breaks)
    ensures Traversed(seen, AllocationFailed, MutOrder(roots), breaks)
  {
    hide Descendants, Statics, MutOrder, Progress, Traversed;
    DescendantsNotEmpty(roots, i);
    ProperPrefix(seen, Statics(roots[i + 1..]), Descendants(roots), MutOrder(roots), breaks);
  }

  lemma {:induction false} DescendantsNotEmpty(roots: seq<StaticFrame>, i: nat)
    requires i < |roots| && roots[i].children != []
    ensures Descendants(roots) != []
    decreases |roots|
  {
    if i < |roots| - 1 {
      DescendantsNotEmpty(roots[..|roots| - 1], i);
    }
  }

  method DrainStack(ghost all: seq<FrameRef>, seen: seq<FrameRef>, stack0: seq<seq<DynamicFrame>>, cap0: nat,
                    breaks: nat -> bool, a: Allocator)
    returns (visited: seq<FrameRef>, outcome: Outcome)
    requires |stack0| <= cap0 <= ISIZE_MAX
    requires Progress(seen, Pending(stack0), all, breaks) && |stack0| <= |seen|
    modifies a`calls
    ensures Traversed(visited, outcome, all, breaks) && a.calls >= old(a.calls)
    ensures outcome.AllocationFailed? ==> SomeRefused(a.reply, old(a.calls), a.calls) || |all| > ISIZE_MAX
    ensures outcome.AllocationFailed? ==> |seen| <= |visited| < |all| && all[|visited|].Kids() != []
  {
    visited := seen;
    var stack, cap := stack0, cap0;
    while |stack| > 0
      invariant |stack| <= cap <= ISIZE_MAX
      invariant Progress(visited, Pending(stack), all, breaks)
      invariant |stack| <= |visited| && |seen| <= |visited| && a.calls >= old(a.calls)
      decreases |Pending(stack)|, |stack|
    {
      hide Nodes, Pending, Progress, Traversed;
      var n := |stack| - 1;
      var top := stack[n];
      PendingPop(stack);
      if top == [] {
        stack := stack[..n];
        continue;
      }
      var df := top[0];
      stack := stack[..n] + [top[1..]];
      var ok;
      ghost var rest := Nodes(df.children) + Pending(stack);
      StepProgress(visited, Dynamic(df), rest, all, breaks);
      NextInLine(visited, Dynamic(df), rest, all, breaks);
      ok, stack, cap := SeedStack(stack, cap, df.children, a);
      if !ok {
        return visited, AllocationFailed;
      }
      var k := |visited|;
      visited := visited + [Dynamic(df)];
      if breaks(k) {
        return visited, Broke;
      }
    }
    return visited, Completed;
  }

  // ---------------------------------------------------------------------------------------------
  // The mutable traversal against the immutable one

  function Real(v: Visit): seq<FrameRef> {
    if v.frame.LostFrames? then [] else [v.frame]
  }

  /** The real frames among some visits, loss markers left out. */
  function RealFrames(visits: seq<Visit>): seq<FrameRef> {
    if visits == [] then [] else Real(visits[0]) + RealFrames(visits[1..])
  }

  lemma {:induction false} RealFramesConcat(a: seq<Visit>, b: seq<Visit>)
    ensures RealFrames(a + b) == RealFrames(a) + RealFrames(b)
  {
    hide Real;
    if a == [] {
      assert a + b == b;
    } else {
      RealFramesConcat(a[1..], b);
      assert (a + b)[1..] == a[1..] + b;
      Assoc(Real(a[0]), RealFrames(a[1..]), RealFrames(b));
    }
  }

  lemma RealFramesMarker(lost: usize, depth: nat)
    ensures RealFrames(Marker(lost, depth)) == []
  {
    assert lost > 0 ==> Marker(lost, depth)[1..] == [];
  }

  lemma {:induction false} ForestNodes(frames: seq<DynamicFrame>, depth: nat)
    ensures RealFrames(Forest(frames, depth)) == Nodes(frames)
    decreases frames, 0
  {
    if frames != [] {
      hide RealFrames, Below, Nodes;
      var first := [Visit(Dynamic(frames[0]), depth)];
      var below := Below(frames[0].children, frames[0].lostChildren, depth + 1);
      ForestHead(frames, depth);
      RealFramesConcat(first + below, Forest(frames[1..], depth));
      RealFramesConcat(first, below);
      BelowNodes(frames[0].children, frames[0].lostChildren, depth + 1);
      ForestNodes(frames[1..], depth);
      RealFramesOne(first[0]);
      NodesCons(frames);
    } else {
      assert Nodes(frames) == [];
    }
  }

  lemma RealFramesOne(v: Visit)
    ensures RealFrames([v]) == Real(v)
  {
    assert [v][1..] == [];
  }

  lemma NodesCons(frames: seq<DynamicFrame>)
    requires frames != []
    ensures Nodes(frames) == [Dynamic(frames[0])] + Nodes(frames[0].children) + Nodes(frames[1..])
  {
  }

  lemma {:induction false} BelowNodes(children: seq<DynamicFrame>, lost: usize, depth: nat)
    ensures RealFrames(Below(children, lost, depth)) == Nodes(children)
    decreases children, 1
  {
    if children != [] {
      hide RealFrames, Nodes, Forest, Marker;
      ForestNodes(children, depth);
      RealFramesConcat(Forest(children, depth), Marker(lost, depth));
      RealFramesMarker(lost, depth);
    }
  }

  lemma {:induction false} RootsNodes(roots: seq<StaticFrame>)
    ensures multiset(RealFrames(Roots(roots))) == multiset(Statics(roots)) + multiset(Descendants(roots))
  {
    if roots != [] {
      hide RealFrames, Below, Nodes;
      var f := roots[0];
      var first := [Visit(Static(f), 0)];
      var below := Below(f.children, f.lostChildren, 1);
      RealFramesConcat(first + below, Roots(roots[1..]));
      RealFramesConcat(first, below);
      RealFramesOne(first[0]);
      BelowNodes(f.children, f.lostChildren, 1);
      RootsNodes(roots[1..]);
      DescendantsCons(roots);
    }
  }

  lemma {:induction false} DescendantsCons(roots: seq<StaticFrame>)
    requires roots != []
    ensures Descendants(roots) == Descendants(roots[1..]) + Nodes(roots[0].children)
    decreases |roots|
  {
    hide Nodes;
    if |roots| > 1 {
      var n := |roots| - 1;
      DescendantsCons(roots[..n]);
      assert roots[..n][1..] == roots[1..][..n - 1];
      assert roots[1..][n - 1] == roots[n];
      Assoc(Nodes(roots[n].children), Descendants(roots[1..][..n - 1]), Nodes(roots[0].children));
    }
  }

  /** `frames_mut` reaches exactly the frames `frames()` yields, each as often, in its own order. */
  lemma MutOrderVisitsSameFrames(roots: seq<StaticFrame>, lostPeers: usize)
    ensures multiset(MutOrder(roots)) == multiset(RealFrames(Traversal(roots, lostPeers)))
  {
    RealFramesConcat(Roots(roots), Marker(lostPeers, 0));
    RealFramesMarker(lostPeers, 0);
    RootsNodes(roots);
    hide RealFrames, Roots, Marker, Statics, Descendants;
  }
}
