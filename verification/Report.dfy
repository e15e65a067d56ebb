/** What `push` and `change_context` do to a report, as functions of the report and of the
    allocator's answers, and what those functions guarantee. */
module ReportSpec {
  import opened Allocation
  import opened Frame

  datatype ReportState = ReportState(
    head: StaticFrame,
    peers: Deque<StaticFrame>,
    lostPeers: usize,
    capacity: Option<usize>)
  {
    ghost predicate Valid() {
      peers.Valid()
    }

    /** All typed frames, newest first. */
    function Frames(): seq<StaticFrame> {
      [head] + peers.items
    }
  }

  // ---------------------------------------------------------------------------------------------
  // The eviction loop of `push`

  /** The loop's guard: the report is at or over its cap. */
  predicate Full(peers: Deque<StaticFrame>, cap: usize) {
    SaturatingAdd(1, |peers.items|) >= cap
  }

  function Rounds(peers: Deque<StaticFrame>, k: nat): Deque<StaticFrame>
    decreases k
  {
    if k == 0 then peers else Rounds(peers.PopBack(), k - 1)
  }

  lemma {:induction false} RoundsLength(peers: Deque<StaticFrame>, k: nat)
    ensures |Rounds(peers, k).items| == if k <= |peers.items| then |peers.items| - k else 0
    decreases k
  {
    if k > 0 {
      RoundsLength(peers.PopBack(), k - 1);
    }
  }

  /** The loop is left after some number of rounds exactly when the cap is at least two: the head
      alone already counts one. */
  lemma EvictionEndsIff(peers: Deque<StaticFrame>, cap: usize)
    requires peers.Valid()
    ensures (exists k :: !Full(Rounds(peers, k), cap)) <==> cap >= 2
  {
    if cap >= 2 {
      RoundsLength(peers, |peers.items|);
      assert !Full(Rounds(peers, |peers.items|), cap);
    } else {
      forall k: nat
        ensures Full(Rounds(peers, k), cap)
      {
        RoundsLength(peers, k);
      }
    }
  }

  /** How many peers the loop leaves. */
  function Kept(peers: nat, capacity: Option<usize>): nat
    requires capacity.Some? ==> capacity.value >= 2
  {
    if capacity.Some? && 1 + peers >= capacity.value then capacity.value - 2 else peers
  }

  /** `some` is what is left of `whole` when a number of its last elements are gone. */
  ghost predicate Survives<T>(some: seq<T>, whole: seq<T>) {
    |some| <= |whole| && some == whole[..|some|]
  }

  lemma SurvivesThrough<T>(some: seq<T>, front: seq<T>, mid: seq<T>, back: seq<T>)
    requires Survives(mid, back) && Survives(some, front + mid)
    ensures Survives(some, front + back)
  {
  }

  // ---------------------------------------------------------------------------------------------
  // `push`

  /** The result of an operation that may panic. */
  datatype Pushed = Pushed(state: ReportState, panicked: bool, calls: nat)

  function Push(s: ReportState, sf: StaticFrame, oracle: Oracle, calls: nat): Pushed
    requires s.Valid() && (s.capacity.Some? ==> s.capacity.value >= 2)
  {
    var kept := Kept(|s.peers.items|, s.capacity);
    var lost := SaturatingAdd(s.lostPeers, |s.peers.items| - kept);
    var g := Reserve(kept, s.peers.cap, 1, oracle, calls);
    if g.ok then
      Pushed(s.(peers := Deque([sf] + s.peers.items[..kept], g.cap), lostPeers := lost), false, g.calls)
    else
      var left := if kept > 0 then kept - 1 else 0;
      var g' := Reserve(left, s.peers.cap, 1, oracle, g.calls);
      Pushed(s.(peers := Deque(if g'.ok then [sf] + s.peers.items[..left] else s.peers.items[..left], g'.cap),
                lostPeers := SaturatingAdd(lost, 1)),
             !g'.ok, g'.calls)
  }

  /** The only push that miscounts: the deque owns no memory and the first request is refused.
      `pop_back` then removes nothing, yet the loss counter goes up. */
  predicate Miscounts(s: ReportState, oracle: Oracle, calls: nat) {
    s.peers.cap == 0 && oracle(calls).Refused?
  }

  /** After pushing `newest` (newest first) onto `s`: the head stays, the surviving peers are the
      newest ones in order, the cap is respected, and peers present plus peers lost grow by the
      number pushed, plus `extra`. */
  ghost predicate PushedOnto(after: ReportState, newest: seq<StaticFrame>, s: ReportState, extra: nat) {
    && after.Valid()
    && after.head == s.head && after.capacity == s.capacity
    && Survives(after.peers.items, newest + s.peers.items)
    && after.lostPeers == SaturatingAdd(s.lostPeers, |newest| + |s.peers.items| - |after.peers.items| + extra)
  }

  /** The most peers a push leaves. */
  function MostPeers(capacity: Option<usize>): nat
    requires capacity.Some? ==> capacity.value >= 2
  {
    if capacity.Some? && capacity.value - 1 < ISIZE_MAX then capacity.value - 1 else ISIZE_MAX
  }

  ghost function MiscountOf(s: ReportState, oracle: Oracle, calls: nat): nat {
    if Miscounts(s, oracle, calls) then 1 else 0
  }

  /** How many peers one push leaves, and how often it asks: one more than before up to the most there
      can be, and one fewer for a refused request.  It asks only when the buffer is too small. */
  lemma PushLeaves(s: ReportState, sf: StaticFrame, oracle: Oracle, calls: nat)
    requires s.Valid() && (s.capacity.Some? ==> s.capacity.value >= 2)
    ensures var r := Push(s, sf, oracle, calls);
            var n, most := |s.peers.items|, MostPeers(s.capacity);
            && r.calls == calls + (if Min(n + 1, most) <= s.peers.cap then 0 else if Miscounts(s, oracle, calls) then 2 else 1)
            && s.peers.cap <= r.state.peers.cap
            && (!r.panicked ==>
                  OneForEach(|r.state.peers.items|, n + 1 + MiscountOf(s, oracle, calls), Refusals(oracle, calls, r.calls), most))
  {
    var r := Push(s, sf, oracle, calls);
    if r.calls == calls + 2 {
      assert Refusals(oracle, calls, calls + 1) == 1;
    } else if r.calls == calls + 1 {
      assert Refusals(oracle, calls, calls) == 0;
    }
  }

  /** What one push does to a report, for every allocator.  Without a refusal there is one peer more,
      up to the most there can be; a refused request costs exactly one.  The call miscounts by one, and
      may panic, only when the deque owns no memory and the first request is refused. */
  lemma PushMeaning(s: ReportState, sf: StaticFrame, oracle: Oracle, calls: nat)
    requires s.Valid() && (s.capacity.Some? ==> s.capacity.value >= 2)
    ensures var r := Push(s, sf, oracle, calls);
            && (r.panicked <==> Miscounts(s, oracle, calls) && oracle(calls + 1).Refused?)
            && (!r.panicked ==>
                  && PushedOnto(r.state, [sf], s, MiscountOf(s, oracle, calls))
                  && r.state.peers.items != [] && r.state.peers.items[0] == sf
                  && (s.capacity.Some? ==> 1 + |r.state.peers.items| <= s.capacity.value))
            && calls <= r.calls
            && (!r.panicked ==>
                  OneForEach(|r.state.peers.items|, |s.peers.items| + 1 + MiscountOf(s, oracle, calls),
                             Refusals(oracle, calls, r.calls), MostPeers(s.capacity)))
  {
    PushLeaves(s, sf, oracle, calls);
    hide OneForEach, Refusals;
    var r := Push(s, sf, oracle, calls);
    var kept := Kept(|s.peers.items|, s.capacity);
    assert [sf] + s.peers.items[..kept] == ([sf] + s.peers.items)[..kept + 1];
    if kept > 0 {
      assert [sf] + s.peers.items[..kept - 1] == ([sf] + s.peers.items)[..kept];
    }
  }

  function PushAll(s: ReportState, frames: seq<StaticFrame>, oracle: Oracle, calls: nat): Pushed
    requires s.Valid() && (s.capacity.Some? ==> s.capacity.value >= 2)
    decreases |frames|
  {
    if frames == [] then Pushed(s, false, calls)
    else
      var r := Push(s, frames[0], oracle, calls);
      PushMeaning(s, frames[0], oracle, calls);
      if r.panicked then r else PushAll(r.state, frames[1..], oracle, r.calls)
  }

  lemma PushedOntoThen(last: ReportState, newer: seq<StaticFrame>, mid: ReportState, older: seq<StaticFrame>, s: ReportState, extra: nat)
    requires PushedOnto(mid, older, s, extra) && PushedOnto(last, newer, mid, 0)
    ensures PushedOnto(last, newer + older, s, extra)
  {
    assert (newer + older) + s.peers.items == newer + (older + s.peers.items);
    SurvivesThrough(last.peers.items, newer, mid.peers.items, older + s.peers.items);
    SurvivesLength(mid.peers.items, older + s.peers.items);
    SurvivesLength(last.peers.items, newer + mid.peers.items);
    hide Survives;
  }

  lemma LeavesThen(n: nat, mid: nat, last: nat, first: nat, more: nat, refused: nat, refused': nat, most: nat)
    requires OneForEach(mid, n + first, refused, most) && OneForEach(last, mid + more, refused', most)
    requires mid == most ==> refused' == 0
    ensures OneForEach(last, n + first + more, refused + refused', most)
  {
  }

  /** The number of peers that any run of pushes leaves; with a buffer for the most there can be, it
      makes no request. */
  lemma {:induction false} PushAllLeaves(s: ReportState, frames: seq<StaticFrame>, oracle: Oracle, calls: nat)
    requires s.Valid() && (s.capacity.Some? ==> s.capacity.value >= 2)
    ensures var r := PushAll(s, frames, oracle, calls);
            var n, most := |s.peers.items|, MostPeers(s.capacity);
            && calls <= r.calls
            && (s.peers.cap >= most ==> r.calls == calls)
            && (frames != [] && !r.panicked ==>
                  OneForEach(|r.state.peers.items|, n + |frames| + MiscountOf(s, oracle, calls), Refusals(oracle, calls, r.calls), most))
    decreases |frames|
  {
    if frames != [] {
      hide Push, PushAll, PushedOnto, Refusals, MostPeers, OneForEach, MiscountOf;
      PushAllStep(s, frames, oracle, calls);
      PushLeaves(s, frames[0], oracle, calls);
      AfterPush(s, frames[0], oracle, calls);
      var r := Push(s, frames[0], oracle, calls);
      if !r.panicked {
        PushAllLeaves(r.state, frames[1..], oracle, r.calls);
        var last := PushAll(r.state, frames[1..], oracle, r.calls);
        RefusalsSplit(oracle, calls, r.calls, last.calls);
        if |frames| > 1 && !last.panicked {
          LeavesThen(|s.peers.items|, |r.state.peers.items|, |last.state.peers.items|, 1 + MiscountOf(s, oracle, calls), |frames| - 1,
                     Refusals(oracle, calls, r.calls), Refusals(oracle, r.calls, last.calls), MostPeers(s.capacity));
        } else if |frames| == 1 {
          NothingPushed(r.state, frames[1..], oracle, r.calls);
        }
      }
    }
  }

  lemma AfterPush(s: ReportState, sf: StaticFrame, oracle: Oracle, calls: nat)
    requires s.Valid() && (s.capacity.Some? ==> s.capacity.value >= 2)
    ensures var r := Push(s, sf, oracle, calls);
            !r.panicked ==> r.state.Valid() && r.state.capacity == s.capacity && MiscountOf(r.state, oracle, r.calls) == 0
  {
  }

  lemma PushAllStep(s: ReportState, frames: seq<StaticFrame>, oracle: Oracle, calls: nat)
    requires s.Valid() && (s.capacity.Some? ==> s.capacity.value >= 2) && frames != []
    ensures var r := Push(s, frames[0], oracle, calls);
            if r.panicked then PushAll(s, frames, oracle, calls) == r
            else r.state.Valid() && r.state.capacity == s.capacity
                 && PushAll(s, frames, oracle, calls) == PushAll(r.state, frames[1..], oracle, r.calls)
  {
  }

  lemma NothingPushed(s: ReportState, frames: seq<StaticFrame>, oracle: Oracle, calls: nat)
    requires s.Valid() && (s.capacity.Some? ==> s.capacity.value >= 2) && frames == []
    ensures PushAll(s, frames, oracle, calls) == Pushed(s, false, calls)
  {
  }

  /** Any run of pushes keeps the head, leaves the most recently pushed frames newest first, and
      accounts for every peer; without a refusal all are left, up to the most there can be, and each
      refused request costs exactly one.  Only the first push can panic or miscount. */
  lemma {:induction false} PushAllMeaning(s: ReportState, frames: seq<StaticFrame>, oracle: Oracle, calls: nat)
    requires s.Valid() && (s.capacity.Some? ==> s.capacity.value >= 2)
    ensures var r := PushAll(s, frames, oracle, calls);
            var miscounts := frames != [] && Miscounts(s, oracle, calls);
            && (r.panicked <==> miscounts && oracle(calls + 1).Refused?)
            && (!r.panicked ==> PushedOnto(r.state, Reversed(frames), s, if miscounts then 1 else 0))
            && calls <= r.calls
            && (!r.panicked && frames != [] ==>
                  OneForEach(|r.state.peers.items|, |s.peers.items| + |frames| + MiscountOf(s, oracle, calls),
                             Refusals(oracle, calls, r.calls), MostPeers(s.capacity)))
    decreases |frames|
  {
    PushAllLeaves(s, frames, oracle, calls);
    if frames == [] {
      assert Reversed(frames) + s.peers.items == s.peers.items;
    } else {
      PushMeaning(s, frames[0], oracle, calls);
      var r := Push(s, frames[0], oracle, calls);
      if !r.panicked {
        PushAllMeaning(r.state, frames[1..], oracle, r.calls);
        var last := PushAll(r.state, frames[1..], oracle, r.calls);
        hide Push, PushedOnto;
        assert Reversed(frames) == Reversed(frames[1..]) + [frames[0]];
        PushedOntoThen(last.state, Reversed(frames[1..]), r.state, [frames[0]], s, if Miscounts(s, oracle, calls) then 1 else 0);
      }
    }
  }

  lemma SurvivesLength<T>(some: seq<T>, whole: seq<T>)
    requires Survives(some, whole)
    ensures |some| <= |whole|
  {
  }

  // ---------------------------------------------------------------------------------------------
  // `change_context`

  datatype Demotion = Demotion(children: Deque<DynamicFrame>, lost: usize, calls: nat, panicked: bool)

  /** Pushing a boxed frame, with the eviction of one child and the retry. */
  function PushChild(df: DynamicFrame, children: Deque<DynamicFrame>, lost: usize, oracle: Oracle, calls: nat): Demotion
    requires children.Valid()
  {
    var g := Reserve(|children.items|, children.cap, 1, oracle, calls);
    if g.ok then
      Demotion(Deque([df] + children.items, g.cap), lost, g.calls, false)
    else
      var popped := children.PopBack();
      var g' := Reserve(|popped.items|, children.cap, 1, oracle, g.calls);
      Demotion(Deque(if g'.ok then [df] + popped.items else popped.items, g'.cap), SaturatingAdd(lost, 1), g'.calls, !g'.ok)
  }

  /** `demote_and_push`: while boxing fails, evict the oldest child and try again; with no child
      left, give the frame up. */
  function DemoteOne(sf: StaticFrame, children: Deque<DynamicFrame>, lost: usize, oracle: Oracle, calls: nat): Demotion
    requires children.Valid()
    decreases |children.items|
  {
    if oracle(calls).Granted? then PushChild(Demote(sf), children, lost, oracle, calls + 1)
    else if children.items != [] then DemoteOne(sf, children.PopBack(), SaturatingAdd(lost, 1), oracle, calls + 1)
    else Demotion(children, SaturatingAdd(lost, 1), calls + 1, false)
  }

  /** Frames are demoted from the back: oldest first. */
  function DemoteFrom(frames: seq<StaticFrame>, children: Deque<DynamicFrame>, lost: usize, oracle: Oracle, calls: nat): Demotion
    requires children.Valid()
    decreases |frames|
  {
    if frames == [] then Demotion(children, lost, calls, false)
    else
      var n := |frames| - 1;
      DemoteOneMeaning(frames[n], children, lost, oracle, calls);
      var d := DemoteOne(frames[n], children, lost, oracle, calls);
      if d.panicked then d else DemoteFrom(frames[..n], d.children, d.lost, oracle, d.calls)
  }

  /** The answers, from request `calls` on, that make demotion onto a deque without memory stumble at
      its `j`-th frame: the first `j` boxes are refused, the next is granted, the push is refused, and
      the retry is answered by `retry`. */
  ghost predicate StumblesAt(oracle: Oracle, calls: nat, j: nat, retry: bool) {
    && (forall i :: calls <= i < calls + j ==> oracle(i).Refused?)
    && oracle(calls + j).Granted?
    && oracle(calls + j + 1).Refused?
    && oracle(calls + j + 2).Granted? == retry
  }

  ghost predicate Stumbles(oracle: Oracle, calls: nat, frames: nat, retry: bool) {
    exists j :: 0 <= j < frames && StumblesAt(oracle, calls, j, retry)
  }

  lemma StumblesLater(oracle: Oracle, calls: nat, frames: nat, retry: bool)
    requires oracle(calls).Refused?
    ensures Stumbles(oracle, calls, frames + 1, retry) <==> Stumbles(oracle, calls + 1, frames, retry)
  {
    var next := calls + 1;
    if k :| 0 <= k < frames && StumblesAt(oracle, next, k, retry) {
      assert StumblesAt(oracle, calls, k + 1, retry);
    }
    if j :| 0 <= j < frames + 1 && StumblesAt(oracle, calls, j, retry) {
      assert StumblesAt(oracle, next, j - 1, retry);
    }
  }

  lemma StumblesNow(oracle: Oracle, calls: nat, frames: nat, retry: bool)
    requires oracle(calls).Granted?
    ensures Stumbles(oracle, calls, frames + 1, retry)
       <==> oracle(calls + 1).Refused? && oracle(calls + 2).Granted? == retry
  {
    assert StumblesAt(oracle, calls, 0, retry) <==> oracle(calls + 1).Refused? && oracle(calls + 2).Granted? == retry;
  }

  lemma StumblesNever(oracle: Oracle, calls: nat, retry: bool)
    ensures !Stumbles(oracle, calls, 0, retry)
  {
  }

  /** Demoting `frames` frames onto `children` ends in a panic. */
  ghost predicate Panics(children: Deque<DynamicFrame>, oracle: Oracle, calls: nat, frames: nat) {
    children.cap == 0 && Stumbles(oracle, calls, frames, false)
  }

  /** By how much the loss count is too high afterwards. */
  ghost function Excess(children: Deque<DynamicFrame>, oracle: Oracle, calls: nat, frames: nat): nat {
    if children.cap == 0 && Stumbles(oracle, calls, frames, true) then 1 else 0
  }

  lemma PushChildMeaning(df: DynamicFrame, children: Deque<DynamicFrame>, lost: usize, oracle: Oracle, calls: nat)
    requires children.Valid()
    ensures var d := PushChild(df, children, lost, oracle, calls);
            && (d.panicked <==> children.cap == 0 && oracle(calls).Refused? && oracle(calls + 1).Refused?)
            && (!d.panicked ==>
                  && d.children.Valid() && 0 < d.children.cap && children.cap <= d.children.cap
                  && Survives(d.children.items, [df] + children.items)
                  && d.lost == SaturatingAdd(lost, |children.items| + 1 - |d.children.items|
                                                   + if children.cap == 0 && oracle(calls).Refused? then 1 else 0))
  {
    if children.items != [] {
      assert [df] + children.PopBack().items == ([df] + children.items)[..|children.items|];
    }
  }

  /** Demoting the frames `ds` (newest first) onto `children` leaves, unless it panics, a prefix of
      `ds` followed by the old children, with every loss recorded, and `extra` more. */
  ghost predicate Demoted(d: Demotion, ds: seq<DynamicFrame>, children: Deque<DynamicFrame>, lost: usize, panics: bool, extra: nat) {
    && d.panicked == panics
    && (!panics ==>
          && d.children.Valid() && children.cap <= d.children.cap
          && Survives(d.children.items, ds + children.items)
          && d.lost == SaturatingAdd(lost, |ds| + |children.items| - |d.children.items| + extra))
  }

  lemma PushChildLeaves(df: DynamicFrame, children: Deque<DynamicFrame>, lost: usize, oracle: Oracle, calls: nat)
    requires children.Valid()
    ensures var d := PushChild(df, children, lost, oracle, calls);
            && calls <= d.calls
            && (!d.panicked ==>
                  OneForEach(|d.children.items|, |children.items| + 1 + (if children.cap == 0 && oracle(calls).Refused? then 1 else 0),
                             Refusals(oracle, calls, d.calls), ISIZE_MAX))
  {
    var d := PushChild(df, children, lost, oracle, calls);
    if d.calls == calls + 2 {
      assert Refusals(oracle, calls, calls + 1) == 1;
    } else if d.calls == calls + 1 {
      assert Refusals(oracle, calls, calls) == 0;
    }
  }

  /** How many children one demotion leaves: one more than before, and one fewer for each refused
      request, be it for the box or for room. */
  lemma {:induction false} DemoteOneLeaves(sf: StaticFrame, children: Deque<DynamicFrame>, lost: usize, oracle: Oracle, calls: nat)
    requires children.Valid()
    ensures var d := DemoteOne(sf, children, lost, oracle, calls);
            && calls < d.calls
            && (!d.panicked ==>
                  OneForEach(|d.children.items|, |children.items| + 1 + Excess(children, oracle, calls, 1),
                             Refusals(oracle, calls, d.calls), ISIZE_MAX))
    decreases |children.items|
  {
    var d := DemoteOne(sf, children, lost, oracle, calls);
    if oracle(calls).Granted? {
      PushChildLeaves(Demote(sf), children, lost, oracle, calls + 1);
      RefusalsSplit(oracle, calls, calls + 1, d.calls);
      StumblesNow(oracle, calls, 0, true);
    } else if children.items != [] {
      DemoteOneLeaves(sf, children.PopBack(), SaturatingAdd(lost, 1), oracle, calls + 1);
      RefusalsSplit(oracle, calls, calls + 1, d.calls);
    } else {
      StumblesLater(oracle, calls, 0, true);
      StumblesNever(oracle, calls + 1, true);
    }
  }

  /** Each refused request adds exactly one to the loss count. */
  lemma {:induction false} DemoteOneCosts(sf: StaticFrame, children: Deque<DynamicFrame>, lost: usize, oracle: Oracle, calls: nat)
    requires children.Valid() && |children.items| < ISIZE_MAX
    ensures var d := DemoteOne(sf, children, lost, oracle, calls);
            calls < d.calls && (!d.panicked ==> d.lost == SaturatingAdd(lost, Refusals(oracle, calls, d.calls)))
    decreases |children.items|
  {
    var d := DemoteOne(sf, children, lost, oracle, calls);
    DemoteOneLeaves(sf, children, lost, oracle, calls);
    RefusalsSplit(oracle, calls, calls + 1, d.calls);
    if oracle(calls).Granted? {
      assert d.calls > calls + 1 ==> Refusals(oracle, calls + 1, d.calls) == Refusals(oracle, calls + 1, d.calls - 1) + if oracle(d.calls - 1).Refused? then 1 else 0;
    } else if children.items != [] {
      DemoteOneCosts(sf, children.PopBack(), SaturatingAdd(lost, 1), oracle, calls + 1);
    }
  }

  lemma {:induction false} DemoteFromCosts(frames: seq<StaticFrame>, children: Deque<DynamicFrame>, lost: usize, oracle: Oracle, calls: nat)
    requires children.Valid() && |frames| + |children.items| <= ISIZE_MAX
    ensures var d := DemoteFrom(frames, children, lost, oracle, calls);
            calls <= d.calls && (!d.panicked ==> d.lost == SaturatingAdd(lost, Refusals(oracle, calls, d.calls)))
    decreases |frames|
  {
    if frames != [] {
      var n := |frames| - 1;
      DemoteOneMeaning(frames[n], children, lost, oracle, calls);
      DemoteOneCosts(frames[n], children, lost, oracle, calls);
      var one := DemoteOne(frames[n], children, lost, oracle, calls);
      if !one.panicked {
        assert |one.children.items| <= |children.items| + 1;
        DemoteFromCosts(frames[..n], one.children, one.lost, oracle, one.calls);
        var rest := DemoteFrom(frames[..n], one.children, one.lost, oracle, one.calls);
        DemoteFromStep(frames, children, lost, oracle, calls);
        RefusalsSplit(oracle, calls, one.calls, rest.calls);
      }
      hide DemoteOne, DemoteFrom, Refusals;
    }
  }

  lemma {:induction false} DemoteOneMeaning(sf: StaticFrame, children: Deque<DynamicFrame>, lost: usize, oracle: Oracle, calls: nat)
    requires children.Valid()
    ensures var d := DemoteOne(sf, children, lost, oracle, calls);
            && Demoted(d, [Demote(sf)], children, lost,
                       Panics(children, oracle, calls, 1), Excess(children, oracle, calls, 1))
            && (children.cap == 0 && oracle(calls).Refused? ==> d == Demotion(children, SaturatingAdd(lost, 1), calls + 1, false))
            && (oracle(calls).Granted? && !d.panicked ==> d.children.cap > 0)
            && calls < d.calls
            && (!d.panicked ==>
                  OneForEach(|d.children.items|, |children.items| + 1 + Excess(children, oracle, calls, 1),
                             Refusals(oracle, calls, d.calls), ISIZE_MAX))
    decreases |children.items|
  {
    DemoteOneLeaves(sf, children, lost, oracle, calls);
    hide OneForEach, Refusals;
    if oracle(calls).Granted? {
      PushChildMeaning(Demote(sf), children, lost, oracle, calls + 1);
      StumblesNow(oracle, calls, 0, true);
      StumblesNow(oracle, calls, 0, false);
    } else if children.items != [] {
      var popped := children.PopBack();
      DemoteOneMeaning(sf, popped, SaturatingAdd(lost, 1), oracle, calls + 1);
      assert [Demote(sf)] + popped.items == ([Demote(sf)] + children.items)[..|children.items|];
    } else {
      StumblesLater(oracle, calls, 0, true);
      StumblesLater(oracle, calls, 0, false);
      hide StumblesAt;
    }
  }

  lemma DemotedThen(one: Demotion, d: Demotion, older: seq<DynamicFrame>, newer: seq<DynamicFrame>,
                    children: Deque<DynamicFrame>, lost: usize, panics: bool, first: nat, second: nat)
    requires Demoted(one, older, children, lost, false, first)
    requires one.children.Valid() ==> Demoted(d, newer, one.children, one.lost, panics, second)
    ensures Demoted(d, newer + older, children, lost, panics, first + second)
  {
    if !d.panicked {
      assert (newer + older) + children.items == newer + (older + children.items);
      SurvivesThrough(d.children.items, newer, one.children.items, older + children.items);
      SurvivesLength(one.children.items, older + children.items);
      SurvivesLength(d.children.items, newer + one.children.items);
      hide Survives;
    }
  }

  /** The first frame's part in the panic and in the excess of all of them. */
  lemma StumblesSplit(sf: StaticFrame, children: Deque<DynamicFrame>, lost: usize, oracle: Oracle, calls: nat, frames: nat)
    requires children.Valid()
    ensures var one := DemoteOne(sf, children, lost, oracle, calls);
            if Panics(children, oracle, calls, 1) then one.panicked && Panics(children, oracle, calls, frames + 1)
            else !one.panicked
                 && (Panics(children, oracle, calls, frames + 1) <==> Panics(one.children, oracle, one.calls, frames))
                 && Excess(children, oracle, calls, frames + 1)
                    == Excess(children, oracle, calls, 1) + Excess(one.children, oracle, one.calls, frames)
  {
    DemoteOneMeaning(sf, children, lost, oracle, calls);
    if children.cap == 0 {
      forall retry: bool
        ensures oracle(calls).Refused? ==>
                  !Stumbles(oracle, calls, 1, retry)
                  && (Stumbles(oracle, calls, frames + 1, retry) <==> Stumbles(oracle, calls + 1, frames, retry))
        ensures oracle(calls).Granted? ==> (Stumbles(oracle, calls, frames + 1, retry) <==> Stumbles(oracle, calls, 1, retry))
      {
        if oracle(calls).Refused? {
          StumblesLater(oracle, calls, 0, retry);
          StumblesLater(oracle, calls, frames, retry);
          StumblesNever(oracle, calls + 1, retry);
        } else {
          StumblesNow(oracle, calls, 0, retry);
          StumblesNow(oracle, calls, frames, retry);
        }
      }
    }
    hide Stumbles, DemoteOne, Survives;
  }

  lemma {:induction false} DemoteFromDemoted(frames: seq<StaticFrame>, children: Deque<DynamicFrame>, lost: usize, oracle: Oracle, calls: nat)
    requires children.Valid()
    ensures Demoted(DemoteFrom(frames, children, lost, oracle, calls), DemoteAll(frames), children, lost,
                    Panics(children, oracle, calls, |frames|), Excess(children, oracle, calls, |frames|))
    decreases |frames|
  {
    hide DemoteOne, DemoteFrom, Demoted, Panics, Excess, OneForEach, Refusals, DemoteAll, Demote;
    if frames == [] {
      NothingDemoted(frames, children, lost, oracle, calls);
    } else {
      var n := |frames| - 1;
      DemoteOneDemoted(frames[n], children, lost, oracle, calls);
      DemoteFromStep(frames, children, lost, oracle, calls);
      StumblesSplit(frames[n], children, lost, oracle, calls, n);
      var one := DemoteOne(frames[n], children, lost, oracle, calls);
      if one.panicked {
        PanicDemoted(one, DemoteAll(frames), children, lost, Excess(children, oracle, calls, n + 1));
      } else {
        DemoteFromDemoted(frames[..n], one.children, one.lost, oracle, one.calls);
        var rest := DemoteFrom(frames[..n], one.children, one.lost, oracle, one.calls);
        DemoteAllLast(frames);
        DemotedThen(one, rest, [Demote(frames[n])], DemoteAll(frames[..n]), children, lost,
                    Panics(one.children, oracle, one.calls, n),
                    Excess(children, oracle, calls, 1), Excess(one.children, oracle, one.calls, n));
      }
    }
  }

  lemma DemoteOneDemoted(sf: StaticFrame, children: Deque<DynamicFrame>, lost: usize, oracle: Oracle, calls: nat)
    requires children.Valid()
    ensures var d := DemoteOne(sf, children, lost, oracle, calls);
            && (d.panicked <==> Panics(children, oracle, calls, 1))
            && (!d.panicked ==> d.children.Valid())
            && Demoted(d, [Demote(sf)], children, lost, d.panicked, Excess(children, oracle, calls, 1))
  {
    DemoteOneMeaning(sf, children, lost, oracle, calls);
    hide DemoteOne, Panics, Excess, Survives;
  }

  lemma DemoteFromStep(frames: seq<StaticFrame>, children: Deque<DynamicFrame>, lost: usize, oracle: Oracle, calls: nat)
    requires children.Valid() && frames != []
    ensures var n := |frames| - 1;
            var one := DemoteOne(frames[n], children, lost, oracle, calls);
            if one.panicked then DemoteFrom(frames, children, lost, oracle, calls) == one
            else one.children.Valid()
                 && DemoteFrom(frames, children, lost, oracle, calls) == DemoteFrom(frames[..n], one.children, one.lost, oracle, one.calls)
  {
    DemoteOneMeaning(frames[|frames| - 1], children, lost, oracle, calls);
    hide DemoteOne, Panics, Excess, Survives;
  }

  lemma PanicDemoted(d: Demotion, ds: seq<DynamicFrame>, children: Deque<DynamicFrame>, lost: usize, extra: nat)
    requires d.panicked
    ensures Demoted(d, ds, children, lost, true, extra)
  {
  }

  lemma DemoteAllLast(frames: seq<StaticFrame>)
    requires frames != []
    ensures var n := |frames| - 1; DemoteAll(frames) == DemoteAll(frames[..n]) + [Demote(frames[n])]
  {
    hide Demote;
  }

  /** How many children demoting all frames leaves. */
  lemma {:induction false} DemoteFromLeaves(frames: seq<StaticFrame>, children: Deque<DynamicFrame>, lost: usize, oracle: Oracle, calls: nat)
    requires children.Valid() && |frames| + |children.items| <= ISIZE_MAX + 1
    ensures var d := DemoteFrom(frames, children, lost, oracle, calls);
            && calls <= d.calls
            && (!d.panicked ==>
                  OneForEach(|d.children.items|, |frames| + |children.items| + Excess(children, oracle, calls, |frames|),
                             Refusals(oracle, calls, d.calls), ISIZE_MAX))
    decreases |frames|
  {
    hide DemoteOne, DemoteFrom, Demoted, Panics, Excess, OneForEach, Refusals;
    if frames == [] {
      NothingDemoted(frames, children, lost, oracle, calls);
      NothingLeft(|children.items|, oracle, calls);
    } else {
      var n := |frames| - 1;
      DemoteOneFits(frames[n], children, lost, oracle, calls);
      StumblesSplit(frames[n], children, lost, oracle, calls, n);
      DemoteFromStep(frames, children, lost, oracle, calls);
      var one := DemoteOne(frames[n], children, lost, oracle, calls);
      if !one.panicked {
        DemoteFromLeaves(frames[..n], one.children, one.lost, oracle, one.calls);
        var rest := DemoteFrom(frames[..n], one.children, one.lost, oracle, one.calls);
        RefusalsSplit(oracle, calls, one.calls, rest.calls);
        if n == 0 {
          NothingDemoted(frames[..n], one.children, one.lost, oracle, one.calls);
        }
        if !rest.panicked {
          LeftTogether(|children.items|, |one.children.items|, |rest.children.items|, n,
                       Excess(children, oracle, calls, 1), Excess(one.children, oracle, one.calls, n),
                       Refusals(oracle, calls, one.calls), Refusals(oracle, one.calls, rest.calls));
        }
      }
    }
  }

  lemma NothingLeft(n: nat, oracle: Oracle, calls: nat)
    requires n <= ISIZE_MAX
    ensures OneForEach(n, n, Refusals(oracle, calls, calls), ISIZE_MAX)
  {
  }

  lemma DemoteOneFits(sf: StaticFrame, children: Deque<DynamicFrame>, lost: usize, oracle: Oracle, calls: nat)
    requires children.Valid()
    ensures var d := DemoteOne(sf, children, lost, oracle, calls);
            var extra := Excess(children, oracle, calls, 1);
            && calls < d.calls
            && (extra > 0 ==> extra == 1 && children.items == [])
            && (!d.panicked ==>
                  && d.children.Valid() && |d.children.items| <= |children.items| + 1
                  && OneForEach(|d.children.items|, |children.items| + 1 + extra, Refusals(oracle, calls, d.calls), ISIZE_MAX))
  {
    DemoteOneMeaning(sf, children, lost, oracle, calls);
    hide DemoteOne, OneForEach, Refusals, Stumbles;
  }

  /** First one more, then `more`; only the last can meet the limit. */
  lemma LeftTogether(n: nat, mid: nat, last: nat, more: nat, extra: nat, extra': nat, refused: nat, refused': nat)
    requires OneForEach(mid, n + 1 + extra, refused, ISIZE_MAX) && OneForEach(last, more + mid + extra', refused', ISIZE_MAX)
    requires n + 1 + more <= ISIZE_MAX + 1 && (extra > 0 ==> extra == 1 && n == 0)
    requires more == 0 ==> extra' == 0 && refused' == 0
    ensures OneForEach(last, more + 1 + n + extra + extra', refused + refused', ISIZE_MAX)
  {
  }

  lemma NothingDemoted(frames: seq<StaticFrame>, children: Deque<DynamicFrame>, lost: usize, oracle: Oracle, calls: nat)
    requires children.Valid() && frames == []
    ensures DemoteFrom(frames, children, lost, oracle, calls) == Demotion(children, lost, calls, false)
    ensures Excess(children, oracle, calls, |frames|) == 0 && !Panics(children, oracle, calls, |frames|)
    ensures Demoted(Demotion(children, lost, calls, false), DemoteAll(frames), children, lost, false, 0)
  {
    StumblesNever(oracle, calls, true);
    StumblesNever(oracle, calls, false);
    assert DemoteAll(frames) + children.items == children.items;
  }

  /** The same for all frames, from the oldest to the head. */
  lemma DemoteFromMeaning(frames: seq<StaticFrame>, children: Deque<DynamicFrame>, lost: usize, oracle: Oracle, calls: nat)
    requires children.Valid()
    ensures Demoted(DemoteFrom(frames, children, lost, oracle, calls), DemoteAll(frames), children, lost,
                    Panics(children, oracle, calls, |frames|), Excess(children, oracle, calls, |frames|))
    ensures var d := DemoteFrom(frames, children, lost, oracle, calls);
            |frames| + |children.items| <= ISIZE_MAX + 1 && !d.panicked ==>
              calls <= d.calls
              && OneForEach(|d.children.items|, |frames| + |children.items| + Excess(children, oracle, calls, |frames|),
                            Refusals(oracle, calls, d.calls), ISIZE_MAX)
  {
    DemoteFromDemoted(frames, children, lost, oracle, calls);
    hide Demoted, DemoteFrom, OneForEach, Refusals, Excess, Panics;
    if |frames| + |children.items| <= ISIZE_MAX + 1 {
      DemoteFromLeaves(frames, children, lost, oracle, calls);
    }
  }

  /** The report that `change_context` starts from when it has demoted everything it could. */
  function FreshHead(context: ContextFrame, children: seq<DynamicFrame>, lost: usize): StaticFrame {
    StaticFrame(context, [], children, 0, lost)
  }

  function ChangeContext(s: ReportState, context: ContextFrame, oracle: Oracle, calls: nat): Pushed
    requires s.Valid()
  {
    var g := Reserve(0, 0, 1 + |s.peers.items|, oracle, calls);
    var d := DemoteFrom(s.Frames(), Deque([], g.cap), s.lostPeers, oracle, g.calls);
    Pushed(ReportState(FreshHead(context, d.children.items, d.lost), Deque([], 0), 0, s.capacity), d.panicked, d.calls)
  }

  /** `change_context` under any allocator: the new head carries the given context and nothing else
      of its own, the demoted frames that survive are the most recent ones in order and unchanged,
      and children present plus children lost make up all the old frames and old losses.  The count
      is one too high exactly when the initial reservation failed, the first push after it was
      refused and its retry granted.  Each request refused after the reservation costs exactly one
      child and adds exactly one to the count. */
  lemma ChangeContextMeaning(s: ReportState, context: ContextFrame, oracle: Oracle, calls: nat)
    requires s.Valid()
    ensures var g := Reserve(0, 0, 1 + |s.peers.items|, oracle, calls);
            var r := ChangeContext(s, context, oracle, calls);
            var head := r.state.head;
            var extra := if !g.ok && Stumbles(oracle, g.calls, |s.Frames()|, true) then 1 else 0;
            !r.panicked ==>
              && r.state == ReportState(FreshHead(context, head.children, head.lostChildren), Deque([], 0), 0, s.capacity)
              && Survives(head.children, DemoteAll(s.Frames()))
              && CarriesFirst(head.children, s.Frames())
              && head.lostChildren == SaturatingAdd(s.lostPeers, |s.Frames()| - |head.children| + extra)
              && g.calls <= r.calls
              && OneForEach(|head.children|, |s.Frames()| + extra, Refusals(oracle, g.calls, r.calls), ISIZE_MAX)
              && (|s.Frames()| <= ISIZE_MAX ==>
                    head.lostChildren == SaturatingAdd(s.lostPeers, Refusals(oracle, g.calls, r.calls)))
  {
    hide OneForEach, Refusals, Survives, CarriesFirst, Stumbles, DemoteFrom;
    ChangeContextSurvivors(s, context, oracle, calls);
    ChangeContextCosts(s, context, oracle, calls);
  }

  lemma ChangeContextSurvivors(s: ReportState, context: ContextFrame, oracle: Oracle, calls: nat)
    requires s.Valid()
    ensures var g := Reserve(0, 0, 1 + |s.peers.items|, oracle, calls);
            var r := ChangeContext(s, context, oracle, calls);
            var head := r.state.head;
            var extra := if !g.ok && Stumbles(oracle, g.calls, |s.Frames()|, true) then 1 else 0;
            !r.panicked ==>
              && Survives(head.children, DemoteAll(s.Frames()))
              && CarriesFirst(head.children, s.Frames())
              && head.lostChildren == SaturatingAdd(s.lostPeers, |s.Frames()| - |head.children| + extra)
  {
    var g := Reserve(0, 0, 1 + |s.peers.items|, oracle, calls);
    DemoteFromDemoted(s.Frames(), Deque([], g.cap), s.lostPeers, oracle, g.calls);
    assert DemoteAll(s.Frames()) + [] == DemoteAll(s.Frames());
    hide DemoteFrom, Stumbles;
  }

  lemma ChangeContextCosts(s: ReportState, context: ContextFrame, oracle: Oracle, calls: nat)
    requires s.Valid()
    ensures var g := Reserve(0, 0, 1 + |s.peers.items|, oracle, calls);
            var r := ChangeContext(s, context, oracle, calls);
            var head := r.state.head;
            var extra := if !g.ok && Stumbles(oracle, g.calls, |s.Frames()|, true) then 1 else 0;
            !r.panicked ==>
              && g.calls <= r.calls
              && OneForEach(|head.children|, |s.Frames()| + extra, Refusals(oracle, g.calls, r.calls), ISIZE_MAX)
              && (|s.Frames()| <= ISIZE_MAX ==>
                    head.lostChildren == SaturatingAdd(s.lostPeers, Refusals(oracle, g.calls, r.calls)))
  {
    hide DemoteFrom, Stumbles, OneForEach, Refusals, SaturatingAdd;
    var g := Reserve(0, 0, 1 + |s.peers.items|, oracle, calls);
    DemoteFromLeaves(s.Frames(), Deque([], g.cap), s.lostPeers, oracle, g.calls);
    if |s.Frames()| <= ISIZE_MAX {
      DemoteFromCosts(s.Frames(), Deque([], g.cap), s.lostPeers, oracle, g.calls);
    }
  }

  /** Exactly when `change_context` panics although it is meant never to: the initial reservation
      fails, some number of boxes (fewer than there are frames) are refused, the next one is
      granted, and the push and its retry are both refused. */
  lemma ChangeContextPanicsIff(s: ReportState, context: ContextFrame, oracle: Oracle, calls: nat)
    requires s.Valid()
    ensures var g := Reserve(0, 0, 1 + |s.peers.items|, oracle, calls);
            (ChangeContext(s, context, oracle, calls).panicked <==>
               !g.ok && Stumbles(oracle, g.calls, |s.Frames()|, false))
  {
    var g := Reserve(0, 0, 1 + |s.peers.items|, oracle, calls);
    DemoteFromMeaning(s.Frames(), Deque([], g.cap), s.lostPeers, oracle, g.calls);
    hide DemoteFrom, Stumbles;
  }

  lemma {:induction false} DemoteFromGranted(frames: seq<StaticFrame>, children: Deque<DynamicFrame>, lost: usize, oracle: Oracle, calls: nat)
    requires children.Valid() && |frames| + |children.items| <= children.cap
    requires forall i :: calls <= i < calls + |frames| ==> oracle(i).Granted?
    ensures DemoteFrom(frames, children, lost, oracle, calls)
         == Demotion(Deque(DemoteAll(frames) + children.items, children.cap), lost, calls + |frames|, false)
    decreases |frames|
  {
    if frames == [] {
      assert DemoteAll(frames) + children.items == children.items;
    } else {
      var n := |frames| - 1;
      var one := Deque([Demote(frames[n])] + children.items, children.cap);
      assert DemoteOne(frames[n], children, lost, oracle, calls) == Demotion(one, lost, calls + 1, false);
      DemoteFromGranted(frames[..n], one, lost, oracle, calls + 1);
      assert DemoteAll(frames[..n]) + one.items == DemoteAll(frames) + children.items;
    }
  }

  /** With every request granted, all frames survive with all they hold: the old head first, then the
      peers. */
  lemma ChangeContextLossless(s: ReportState, context: ContextFrame, oracle: Oracle, calls: nat)
    requires s.Valid() && |s.Frames()| <= ISIZE_MAX
    requires Grants(oracle, calls, 1 + |s.Frames()|)
    ensures ChangeContext(s, context, oracle, calls)
         == Pushed(ReportState(FreshHead(context, DemoteAll(s.Frames()), s.lostPeers), Deque([], 0), 0, s.capacity),
                   false, calls + 1 + |s.Frames()|)
    ensures var children := ChangeContext(s, context, oracle, calls).state.head.children;
            |children| == |s.Frames()| && CarriesFirst(children, s.Frames())
  {
    var g := Reserve(0, 0, 1 + |s.peers.items|, oracle, calls);
    DemoteFromGranted(s.Frames(), Deque([], g.cap), s.lostPeers, oracle, g.calls);
    assert DemoteAll(s.Frames()) + [] == DemoteAll(s.Frames());
  }

  // ---------------------------------------------------------------------------------------------
  // `try_change_context`

  /** The report after a lossless change: the children are the old frames oldest first. */
  function Changed(s: ReportState, context: ContextFrame): ReportState {
    ReportState(FreshHead(context, DemoteAll(Reversed(s.Frames())), s.lostPeers), Deque([], 0), 0, s.capacity)
  }

  /** The allocator grants `n` requests in a row. */
  ghost predicate Grants(oracle: Oracle, calls: nat, n: nat) {
    forall i :: calls <= i < calls + n ==> oracle(i).Granted?
  }

  lemma GrantsSplit(oracle: Oracle, calls: nat, m: nat, n: nat)
    ensures Grants(oracle, calls, m + n) <==> Grants(oracle, calls, m) && Grants(oracle, calls + m, n)
  {
  }

  lemma GrantsNone(oracle: Oracle, calls: nat)
    ensures Grants(oracle, calls, 0)
  {
  }

  lemma GrantsOne(oracle: Oracle, calls: nat)
    ensures Grants(oracle, calls, 1) <==> oracle(calls).Granted?
  {
  }

  /** All the requests of `try_change_context` are granted: two buffers and one box a frame. */
  ghost predicate AllGranted(s: ReportState, oracle: Oracle, calls: nat) {
    |s.Frames()| <= ISIZE_MAX && Grants(oracle, calls, 2 + |s.Frames()|)
  }

  lemma AllGrantedSteps(s: ReportState, oracle: Oracle, calls: nat)
    ensures AllGranted(s, oracle, calls)
       <==> |s.Frames()| <= ISIZE_MAX && oracle(calls).Granted? && oracle(calls + 1).Granted?
            && Grants(oracle, calls + 2, |s.peers.items|) && oracle(calls + 2 + |s.peers.items|).Granted?
  {
    GrantsSplit(oracle, calls, 1, 1 + |s.Frames()|);
    GrantsSplit(oracle, calls + 1, 1, |s.Frames()|);
    GrantsSplit(oracle, calls + 2, |s.peers.items|, 1);
    GrantsOne(oracle, calls);
    GrantsOne(oracle, calls + 1);
    GrantsOne(oracle, calls + 2 + |s.peers.items|);
    hide Grants;
  }
}
