/** The report object: the methods that update it in place, each proved against `ReportSpec`. */
module Reports {
  import opened Allocation
  import opened Frame
  import opened ReportSpec
  import opened Sequences

  /** A frame whose context is already boxed but whose type is still known. */
  datatype IntermediateFrame = IntermediateFrame(
    context: ContextFrame,
    attachments: seq<Item>,
    children: seq<DynamicFrame>,
    lostAttachments: usize,
    lostChildren: usize)
  {
    function IntoDynamic(): DynamicFrame {
      DynamicFrame(context, attachments, children, lostAttachments, lostChildren)
    }

    function RecoverStatic(): StaticFrame {
      StaticFrame(context, attachments, children, lostAttachments, lostChildren)
    }
  }

  function Boxed(sf: StaticFrame): IntermediateFrame {
    IntermediateFrame(sf.context, sf.attachments, sf.children, sf.lostAttachments, sf.lostChildren)
  }

  /** The static frames behind some intermediates, last one first. */
  function Recovered(inters: seq<IntermediateFrame>): seq<StaticFrame> {
    if inters == [] then [] else [inters[|inters| - 1].RecoverStatic()] + Recovered(inters[..|inters| - 1])
  }

  /** Boxing frames one by one from the back of `frames`. */
  function BoxedFromBack(frames: seq<StaticFrame>): (inters: seq<IntermediateFrame>)
    ensures |inters| == |frames|
  {
    if frames == [] then [] else BoxedFromBack(frames[1..]) + [Boxed(frames[0])]
  }

  lemma BoxedFromBackNone(frames: seq<StaticFrame>)
    ensures BoxedFromBack(frames[|frames|..]) == []
  {
  }

  lemma BoxedFromBackStep(frames: seq<StaticFrame>, n: nat)
    requires n < |frames|
    ensures BoxedFromBack(frames[n..]) == BoxedFromBack(frames[n + 1..]) + [Boxed(frames[n])]
  {
    assert frames[n..][1..] == frames[n + 1..];
  }

  lemma RecoveredNone()
    ensures Recovered([]) == []
  {
  }

  lemma RecoveredTake(inters: seq<IntermediateFrame>, i: nat)
    requires i < |inters|
    ensures Recovered(inters[..i + 1]) == [inters[i].RecoverStatic()] + Recovered(inters[..i])
  {
    assert inters[..i + 1][..i] == inters[..i];
  }

  lemma {:induction false} BoxedFromBackRecovers(frames: seq<StaticFrame>)
    ensures Recovered(BoxedFromBack(frames)) == frames
  {
    if frames != [] {
      var n := |frames| - 1;
      var inters := BoxedFromBack(frames);
      BoxedFromBackRecovers(frames[1..]);
      assert inters[..n] == BoxedFromBack(frames[1..]) && inters[n] == Boxed(frames[0]);
      assert inters[..n + 1] == inters;
      RecoveredTake(inters, n);
      hide Recovered, BoxedFromBack;
    }
  }

  function Dynamics(inters: seq<IntermediateFrame>): seq<DynamicFrame> {
    if inters == [] then [] else [inters[0].IntoDynamic()] + Dynamics(inters[1..])
  }

  lemma {:induction false} DynamicsSnoc(inters: seq<IntermediateFrame>, x: IntermediateFrame)
    ensures Dynamics(inters + [x]) == Dynamics(inters) + [x.IntoDynamic()]
  {
    if inters == [] {
      assert [x][1..] == [];
    } else {
      DynamicsSnoc(inters[1..], x);
      assert (inters + [x])[1..] == inters[1..] + [x];
    }
  }

  lemma ReversedCons<T>(s: seq<T>)
    requires s != []
    ensures Reversed(s) == Reversed(s[1..]) + [s[0]]
  {
    hide Reversed;
  }

  lemma DemoteAllSnoc(frames: seq<StaticFrame>, last: StaticFrame)
    ensures DemoteAll(frames + [last]) == DemoteAll(frames) + [Demote(last)]
  {
    hide Demote;
  }

  lemma {:induction false} BoxedFromBackDynamics(frames: seq<StaticFrame>)
    ensures Dynamics(BoxedFromBack(frames)) == DemoteAll(Reversed(frames))
  {
    if frames != [] {
      hide Reversed, DemoteAll, Dynamics;
      ReversedCons(frames);
      DemoteAllSnoc(Reversed(frames[1..]), frames[0]);
      BoxedFromBackDynamics(frames[1..]);
      DynamicsSnoc(BoxedFromBack(frames[1..]), Boxed(frames[0]));
    }
  }

  lemma ChangeContextCarries(s: ReportState, context: ContextFrame, oracle: Oracle, calls: nat)
    requires s.Valid()
    ensures var r := ChangeContext(s, context, oracle, calls);
            !r.panicked ==> CarriesFirst(r.state.head.children, s.Frames())
  {
    ChangeContextSurvivors(s, context, oracle, calls);
    hide ChangeContext;
  }

  lemma ReversedCarries(frames: seq<StaticFrame>)
    ensures CarriesBackwards(DemoteAll(Reversed(frames)), frames)
  {
    hide Reversed;
  }

  lemma {:induction false} DynamicsCarry(inters: seq<IntermediateFrame>)
    ensures |Dynamics(inters)| == |inters|
    ensures forall i :: 0 <= i < |inters| ==> Carries(Dynamics(inters)[i], inters[i].RecoverStatic())
    decreases |inters|
  {
    if inters != [] {
      DynamicsCarry(inters[1..]);
      forall i | 0 <= i < |inters|
        ensures Carries(Dynamics(inters)[i], inters[i].RecoverStatic())
      {
        if i > 0 {
          assert inters[i] == inters[1..][i - 1];
        }
      }
    }
  }

  datatype ChangeResult = Changed | GaveBack(context: ContextFrame)

  class Report {
    var head: StaticFrame
    var peers: Deque<StaticFrame>
    var lostPeers: usize
    const capacity: Option<usize>

    ghost function State(): ReportState
      reads this
    {
      ReportState(head, peers, lostPeers, capacity)
    }

    ghost predicate Valid()
      reads this
    {
      State().Valid()
    }

    constructor (context: ContextFrame, capacity: Option<usize>)
      ensures Valid()
      ensures State() == ReportState(FreshHead(context, [], 0), Deque([], 0), 0, capacity)
    {
      head := FreshHead(context, [], 0);
      peers, lostPeers, this.capacity := Deque([], 0), 0, capacity;
    }

    function PeerCount(): usize
      reads this
    {
      SaturatingAdd(1, |peers.items|)
    }

    method PushPeer(sf: StaticFrame, a: Allocator) returns (panicked: bool)
      requires Valid() && (capacity.Some? ==> capacity.value >= 2)
      modifies this, a`calls
      ensures Valid()
      ensures Pushed(State(), panicked, a.calls) == Push(old(State()), sf, a.reply, old(a.calls))
      ensures old(a.calls) <= a.calls
      ensures !panicked ==>
                OneForEach(|peers.items|, old(|peers.items|) + 1 + MiscountOf(old(State()), a.reply, old(a.calls)),
                           Refusals(a.reply, old(a.calls), a.calls), MostPeers(capacity))
    {
      hide OneForEach, Refusals, MostPeers, Miscounts;
      PushLeaves(State(), sf, a.reply, a.calls);
      EvictToCap();
      if |peers.items| == USIZE_MAX {
        assert false;
      }
      ghost var kept := |peers.items|;
      var ok;
      ok, peers := TryPushFront(peers, sf, a);
      if !ok {
        peers := peers.PopBack();
        assert kept > 0 ==> peers.items == old(peers.items)[..kept - 1];
        lostPeers := SaturatingAdd(lostPeers, 1);
        ok, peers := TryPushFront(peers, sf, a);
      }
      panicked := !ok;
    }

    /** The first loop of `push`.  It evicts no more than it must: with one peer more than it leaves the
        report would still be full. */
    method EvictToCap()
      requires Valid() && (capacity.Some? ==> capacity.value >= 2)
      modifies this
      ensures head == old(head)
      ensures var kept := Kept(old(|peers.items|), capacity);
              && peers == Deque(old(peers.items)[..kept], old(peers.cap))
              && lostPeers == SaturatingAdd(old(lostPeers), old(|peers.items|) - kept)
      ensures |peers.items| <= old(|peers.items|)
      ensures capacity.Some? ==> 1 + |peers.items| < capacity.value
      ensures |peers.items| < old(|peers.items|) ==> capacity.Some? && 1 + (|peers.items| + 1) >= capacity.value
    {
      if capacity.Some? {
        while PeerCount() >= capacity.value
          invariant head == old(head) && Valid()
          invariant peers.cap == old(peers.cap) && |peers.items| <= old(|peers.items|)
          invariant peers.items == old(peers.items)[..|peers.items|]
          invariant Kept(|peers.items|, capacity) == Kept(old(|peers.items|), capacity) <= |peers.items|
          invariant lostPeers == SaturatingAdd(old(lostPeers), old(|peers.items|) - |peers.items|)
          decreases |peers.items|
        {
          peers := peers.PopBack();
          lostPeers := SaturatingAdd(lostPeers, 1);
        }
      }
    }

    /** Never evicts: the push happens in full, or nothing changes and the frame comes back. */
    method TryPushPeer(sf: StaticFrame, a: Allocator) returns (back: Option<StaticFrame>)
      requires Valid()
      modifies this, a`calls
      ensures Valid()
      ensures back.None? <==> (capacity.Some? ==> old(PeerCount()) < capacity.value)
                              && Reserve(old(|peers.items|), old(peers.cap), 1, a.reply, old(a.calls)).ok
      ensures back.None? ==> PushedOnto(State(), [sf], old(State()), 0) && |peers.items| == old(|peers.items|) + 1
      ensures back.Some? ==> State() == old(State()) && back.value == sf
    {
      if |peers.items| == USIZE_MAX {
        assert false;
      }
      if capacity.Some? && PeerCount() >= capacity.value {
        return Some(sf);
      }
      var ok;
      ok, peers := TryPushFront(peers, sf, a);
      back := if ok then None else Some(sf);
    }

    /** The closure `demote_and_push` of `change_context`. */
    static method DemoteAndPush(sf: StaticFrame, children: Deque<DynamicFrame>, lost: usize, a: Allocator)
      returns (children': Deque<DynamicFrame>, lost': usize, panicked: bool)
      requires children.Valid()
      modifies a`calls
      ensures children'.Valid()
      ensures Demotion(children', lost', a.calls, panicked) == DemoteOne(sf, children, lost, a.reply, old(a.calls))
      ensures old(a.calls) < a.calls
      ensures !panicked ==>
                OneForEach(|children'.items|, |children.items| + 1 + Excess(children, a.reply, old(a.calls), 1),
                           Refusals(a.reply, old(a.calls), a.calls), ISIZE_MAX)
    {
      hide OneForEach, Refusals, Excess;
      DemoteOneLeaves(sf, children, lost, a.reply, a.calls);
      children', lost', panicked := children, lost, false;
      while true
        invariant children'.Valid() && !panicked
        invariant DemoteOne(sf, children', lost', a.reply, a.calls) == DemoteOne(sf, children, lost, a.reply, old(a.calls))
        decreases |children'.items|
      {
        var boxed := a.TryBox();
        if boxed {
          var ok;
          ok, children' := TryPushFront(children', Demote(sf), a);
          if !ok {
            children' := children'.PopBack();
            lost' := SaturatingAdd(lost', 1);
            ok, children' := TryPushFront(children', Demote(sf), a);
            panicked := !ok;
          }
          return;
        }
        lost' := SaturatingAdd(lost', 1);
        if children'.items == [] {
          return;
        }
        children' := children'.PopBack();
      }
    }

    method ChangeContextLossy(context: ContextFrame, a: Allocator) returns (panicked: bool)
      requires Valid()
      modifies this, a`calls
      ensures Valid()
      ensures var r := ChangeContext(old(State()), context, a.reply, old(a.calls));
              panicked == r.panicked && a.calls == r.calls && (!panicked ==> State() == r.state)
      ensures !panicked ==> CarriesFirst(head.children, old(State()).Frames())
    {
      ChangeContextCarries(State(), context, a.reply, a.calls);
      hide DemoteOne, Reserve, CarriesFirst;
      var old_peers := peers;
      var children: Deque<DynamicFrame>, lost := Deque([], 0), lostPeers;
      var _, cap := a.TryReserve(0, 0, 1 + |peers.items|);
      children := Deque([], cap);
      ghost var whole := DemoteFrom(State().Frames(), children, lost, a.reply, a.calls);
      while old_peers.items != []
        invariant State() == old(State()) && children.Valid()
        invariant whole == DemoteFrom([head] + old_peers.items, children, lost, a.reply, a.calls)
        decreases |old_peers.items|
      {
        var sf := old_peers.items[|old_peers.items| - 1];
        assert ([head] + old_peers.items)[..|old_peers.items|] == [head] + old_peers.PopBack().items;
        old_peers := old_peers.PopBack();
        children, lost, panicked := DemoteAndPush(sf, children, lost, a);
        if panicked {
          return;
        }
      }
      assert [head] + old_peers.items == [head] && [head][..0] == [];
      children, lost, panicked := DemoteAndPush(head, children, lost, a);
      if !panicked {
        head := FreshHead(context, children.items, lost);
        peers, lostPeers := Deque([], 0), 0;
      }
    }

    /** Puts back what had been taken: the buffer never shrank, so no push asks the allocator. */
    static method RecoverPeers(inters: seq<IntermediateFrame>, trailing: Option<StaticFrame>,
                               remaining: Deque<StaticFrame>, a: Allocator)
      returns (peers: Deque<StaticFrame>)
      requires remaining.Valid()
      requires |remaining.items| + (if trailing.Some? then 1 else 0) + |inters| <= remaining.cap
      modifies a`calls
      ensures a.calls == old(a.calls)
      ensures peers == Deque(remaining.items + ((if trailing.Some? then [trailing.value] else []) + Recovered(inters)), remaining.cap)
    {
      hide Recovered;
      peers := remaining;
      if trailing.Some? {
        var _, extended := TryPushBack(peers, trailing.value, a);
        peers := PutBack(inters, extended, a);
        Assoc(remaining.items, [trailing.value], Recovered(inters));
      } else {
        peers := PutBack(inters, remaining, a);
        assert [] + Recovered(inters) == Recovered(inters);
      }
    }

    static method PutBack(inters: seq<IntermediateFrame>, d: Deque<StaticFrame>, a: Allocator)
      returns (d': Deque<StaticFrame>)
      requires d.Valid() && |d.items| + |inters| <= d.cap
      modifies a`calls
      ensures a.calls == old(a.calls)
      ensures d' == Deque(d.items + Recovered(inters), d.cap)
    {
      hide Recovered;
      d' := d;
      var i := |inters|;
      assert inters[..i] == inters;
      while i > 0
        invariant 0 <= i <= |inters|
        invariant d'.cap == d.cap && d'.items + Recovered(inters[..i]) == d.items + Recovered(inters)
        invariant |d'.items| + i <= d.cap
        invariant a.calls == old(a.calls)
      {
        i := i - 1;
        var sf := inters[i].RecoverStatic();
        RecoveredTake(inters, i);
        ghost var front := d'.items;
        var ok;
        ok, d' := TryPushBack(d', sf, a);
        Assoc(front, [sf], Recovered(inters[..i]));
      }
      RecoveredNone();
    }

    /** The boxing phase: peers are taken from the back.  On a refusal everything is put back. */
    static method BoxPeers(original: Deque<StaticFrame>, cap: nat, a: Allocator)
      returns (ok: bool, inters: Deque<IntermediateFrame>, peers: Deque<StaticFrame>)
      requires original.Valid() && |original.items| < cap <= ISIZE_MAX
      modifies a`calls
      ensures ok <==> Grants(a.reply, old(a.calls), |original.items|)
      ensures if ok then inters == Deque(BoxedFromBack(original.items), cap) && peers == Deque([], original.cap)
                         && a.calls == old(a.calls) + |original.items|
              else peers == original
    {
      hide Recovered, BoxedFromBack, Grants;
      ghost var all := original.items;
      ghost var start := a.calls;
      peers, inters := original, Deque([], cap);
      BoxedFromBackNone(all);
      while peers.items != []
        invariant peers.cap == original.cap && |peers.items| <= |all| && peers.items == all[..|peers.items|]
        invariant inters == Deque(BoxedFromBack(all[|peers.items|..]), cap)
        invariant a.calls == start + |all| - |peers.items|
        invariant Grants(a.reply, start, |all|) <==> Grants(a.reply, a.calls, |peers.items|)
        decreases |peers.items|
      {
        var n := |peers.items| - 1;
        var sf := peers.items[n];
        GrantsSplit(a.reply, a.calls, 1, n);
        GrantsOne(a.reply, a.calls);
        peers := peers.PopBack();
        var boxed := a.TryBox();
        if !boxed {
          BoxedFromBackRecovers(all[n + 1..]);
          peers := RecoverPeers(inters.items, Some(sf), peers, a);
          assert all == all[..n] + ([sf] + all[n + 1..]);
          return false, inters, peers;
        }
        BoxedFromBackStep(all, n);
        ok, inters := TryPushBack(inters, Boxed(sf), a);
      }
      assert all[0..] == all;
      GrantsNone(a.reply, a.calls);
      ok := true;
    }

    /** All or nothing: either every frame is demoted, or the report is exactly as it was and the new
        context comes back. */
    method TryChangeContext(context: ContextFrame, a: Allocator) returns (r: ChangeResult)
      requires Valid()
      modifies this, a`calls
      ensures Valid()
      ensures r.Changed? <==> AllGranted(old(State()), a.reply, old(a.calls))
      ensures r.Changed? ==> State() == ReportSpec.Changed(old(State()), context)
      ensures r.Changed? ==> CarriesBackwards(head.children, old(State()).Frames())
      ensures r.GaveBack? ==> State() == old(State()) && r.context == context
    {
      hide Recovered, BoxedFromBack, Dynamics, Grants, DemoteAll, Reversed, AllGranted, CarriesBackwards;
      AllGrantedSteps(State(), a.reply, a.calls);
      ghost var frames := State().Frames();
      var total := 1 + |peers.items|;
      var ok, childCap := a.TryReserve(0, 0, total);
      if !ok {
        return GaveBack(context);
      }
      var cap;
      ok, cap := a.TryReserve(0, 0, total);
      if !ok {
        return GaveBack(context);
      }
      var inters;
      ok, inters, peers := BoxPeers(peers, cap, a);
      if !ok {
        return GaveBack(context);
      }
      assert frames[1..] == old(peers.items);
      var boxed := a.TryBox();
      if !boxed {
        BoxedFromBackRecovers(frames[1..]);
        peers := RecoverPeers(inters.items, None, peers, a);
        return GaveBack(context);
      }
      ok, inters := TryPushBack(inters, Boxed(head), a);
      BoxedFromBackStep(frames, 0);
      assert frames[0..] == frames;
      TakeAsChildren(context, frames, inters.items, childCap, a);
      return ChangeResult.Changed;
    }

    /** The new head takes the boxed frames as its children. */
    method TakeAsChildren(context: ContextFrame, ghost frames: seq<StaticFrame>, inters: seq<IntermediateFrame>, cap: nat, a: Allocator)
      requires inters == BoxedFromBack(frames) && |inters| <= cap <= ISIZE_MAX
      modifies this, a`calls
      ensures State() == ReportState(FreshHead(context, DemoteAll(Reversed(frames)), old(lostPeers)), Deque([], 0), 0, capacity)
      ensures CarriesBackwards(head.children, frames)
    {
      hide BoxedFromBack, Dynamics, DemoteAll, Reversed, CarriesBackwards, Carries;
      var children := DemoteIntermediates(inters, cap, a);
      BoxedFromBackDynamics(frames);
      ReversedCarries(frames);
      head := FreshHead(context, children, lostPeers);
      peers, lostPeers := Deque([], 0), 0;
    }

    /** The last phase: room for all children was reserved, so no push asks the allocator. */
    static method DemoteIntermediates(inters: seq<IntermediateFrame>, cap: nat, a: Allocator)
      returns (items: seq<DynamicFrame>)
      requires |inters| <= cap <= ISIZE_MAX
      modifies a`calls
      ensures items == Dynamics(inters) && a.calls == old(a.calls)
      ensures |items| == |inters| && forall i :: 0 <= i < |inters| ==> Carries(items[i], inters[i].RecoverStatic())
    {
      DynamicsCarry(inters);
      hide Carries;
      var children: Deque<DynamicFrame> := Deque([], cap);
      var i := |inters|;
      while i > 0
        invariant 0 <= i <= |inters| && |children.items| == |inters| - i
        invariant children == Deque(Dynamics(inters[i..]), cap)
        invariant a.calls == old(a.calls)
      {
        i := i - 1;
        assert inters[i..][1..] == inters[i + 1..];
        var ok;
        ok, children := TryPushFront(children, inters[i].IntoDynamic(), a);
      }
      assert inters[0..] == inters;
      items := children.items;
    }
  }
}
