/** The depth-first walk behind `Frames` and `ChronoFrames`, on values: one step of the
    explicit-stack machine, the recursive traversal it must agree with, and the agreement. */
module Walk {
  import opened Allocation
  import opened Frame
  import opened Sequences

  datatype FrameRef = Static(sf: StaticFrame) | Dynamic(df: DynamicFrame) | LostFrames(n: usize) {
    function Kids(): seq<DynamicFrame> {
      match this
      case Static(sf) => sf.children
      case Dynamic(df) => df.children
      case LostFrames(_) => []
    }

    function Lost(): usize {
      match this
      case Static(sf) => sf.lostChildren
      case Dynamic(df) => df.lostChildren
      case LostFrames(_) => 0
    }
  }

  datatype Visit = Visit(frame: FrameRef, depth: nat)

  /** What one call of `next` returns. */
  datatype Yield = Visited(visit: Visit) | Failed(depth: nat) | Finished

  datatype StackEntry = StackEntry(iter: seq<DynamicFrame>, lostChildren: usize)

  /** The walker's state: roots still to visit, the stack of child iterators (top last) with its
      capacity, the count of lost peers not yet reported, the frame whose children wait to be
      pushed, and the two flags. */
  datatype Walk = Walk(
    roots: seq<StaticFrame>,
    stack: seq<StackEntry>,
    stackCap: nat,
    lostPeers: usize,
    pending: Option<FrameRef>,
    stalled: bool,
    auto: bool)
  {
    ghost predicate Valid() {
      && |stack| <= stackCap <= ISIZE_MAX
      && (pending.Some? ==> pending.value.Kids() != [])
      && (stalled ==> pending.Some?)
    }
  }

  function PendingOf(f: FrameRef): Option<FrameRef> {
    if f.Kids() == [] then None else Some(f)
  }

  // ---------------------------------------------------------------------------------------------
  // One call of `next`

  datatype Stepped = Stepped(walk: Walk, yielded: Yield, calls: nat)

  /** The part of `next` after the pending frame has been dealt with. */
  function Advance(w: Walk): (Walk, Yield)
    decreases |w.stack|
  {
    if w.stack != [] then
      var top := w.stack[|w.stack| - 1];
      var below := w.stack[..|w.stack| - 1];
      if top.iter != [] then
        var f := Dynamic(top.iter[0]);
        (w.(stack := below + [top.(iter := top.iter[1..])], pending := PendingOf(f)),
         Visited(Visit(f, |w.stack|)))
      else if top.lostChildren > 0 then
        (w.(stack := below), Visited(Visit(LostFrames(top.lostChildren), |w.stack|)))
      else
        Advance(w.(stack := below))
    else if w.roots != [] then
      var f := Static(w.roots[0]);
      (w.(roots := w.roots[1..], pending := PendingOf(f)), Visited(Visit(f, 0)))
    else if w.lostPeers > 0 then
      (w.(lostPeers := 0), Visited(Visit(LostFrames(w.lostPeers), 0)))
    else
      (w, Finished)
  }

  /** What happens at the top of the stack. */
  lemma AdvanceSteps(w: Walk)
    requires w.stack != []
    ensures var n := |w.stack| - 1;
            var top, below := w.stack[n], w.stack[..n];
            Advance(w) ==
              if top.iter != [] then
                (w.(stack := below + [top.(iter := top.iter[1..])], pending := PendingOf(Dynamic(top.iter[0]))),
                 Visited(Visit(Dynamic(top.iter[0]), n + 1)))
              else if top.lostChildren > 0 then (w.(stack := below), Visited(Visit(LostFrames(top.lostChildren), n + 1)))
              else Advance(w.(stack := below))
  {
  }

  function Step(w: Walk, oracle: Oracle, calls: nat): Stepped
    requires w.Valid()
  {
    if w.pending.None? then
      var (w', y) := Advance(w.(stalled := false));
      Stepped(w', y, calls)
    else
      var f := w.pending.value;
      var g := Reserve(|w.stack|, w.stackCap, 1, oracle, calls);
      if g.ok then
        var pushed := w.(stack := w.stack + [StackEntry(f.Kids(), f.Lost())], stackCap := g.cap,
                         pending := None, stalled := false);
        var (w', y) := Advance(pushed);
        Stepped(w', y, g.calls)
      else if w.auto then
        Stepped(w.(pending := None, stalled := false), Failed(|w.stack|), g.calls)
      else
        Stepped(w.(stalled := true), Failed(|w.stack|), g.calls)
  }

  /** `unstall`: give up on the stalled frame's children. */
  function Unstall(w: Walk): (Walk, bool) {
    if w.stalled then (w.(stalled := false, pending := None), w.pending.Some?) else (w, false)
  }

  // ---------------------------------------------------------------------------------------------
  // The recursive traversal

  function Marker(lost: usize, depth: nat): seq<Visit> {
    if lost > 0 then [Visit(LostFrames(lost), depth)] else []
  }

  function Preorder(df: DynamicFrame, depth: nat): seq<Visit>
    decreases df, 0
  {
    [Visit(Dynamic(df), depth)] + Below(df.children, df.lostChildren, depth + 1)
  }

  /** Everything beneath a node.  The marker for lost children appears only when some survive. */
  function Below(children: seq<DynamicFrame>, lost: usize, depth: nat): seq<Visit>
    decreases children, 1
  {
    if children == [] then [] else Forest(children, depth) + Marker(lost, depth)
  }

  function Forest(frames: seq<DynamicFrame>, depth: nat): seq<Visit>
    decreases frames, 0
  {
    if frames == [] then [] else Preorder(frames[0], depth) + Forest(frames[1..], depth)
  }

  function Roots(roots: seq<StaticFrame>): seq<Visit> {
    if roots == [] then []
    else [Visit(Static(roots[0]), 0)] + Below(roots[0].children, roots[0].lostChildren, 1) + Roots(roots[1..])
  }

  /** The whole traversal of the given roots followed by the report's own loss marker. */
  function Traversal(roots: seq<StaticFrame>, lostPeers: usize): seq<Visit> {
    Roots(roots) + Marker(lostPeers, 0)
  }

  // ---------------------------------------------------------------------------------------------
  // What a walker still has to produce

  function PendingBlock(w: Walk): seq<Visit> {
    if w.pending.None? then []
    else Below(w.pending.value.Kids(), w.pending.value.Lost(), |w.stack| + 1)
  }

  function StackRest(stack: seq<StackEntry>): seq<Visit> {
    if stack == [] then []
    else
      var top := stack[|stack| - 1];
      Forest(top.iter, |stack|) + Marker(top.lostChildren, |stack|) + StackRest(stack[..|stack| - 1])
  }

  function Remaining(w: Walk): seq<Visit> {
    PendingBlock(w) + StackRest(w.stack) + Traversal(w.roots, w.lostPeers)
  }

  /** What one call owes: the visit it yields, then the rest; an `Err` owes nothing. */
  ghost predicate Accounts(w: Walk, w': Walk, y: Yield) {
    match y
    case Visited(v) => Remaining(w) == [v] + Remaining(w')
    case Failed(d) =>
      && d == |w.stack|
      && w.pending.Some?
      && w' == (if w.auto then w.(pending := None, stalled := false) else w.(stalled := true))
      && Remaining(w) == (if w.auto then PendingBlock(w) else []) + Remaining(w')
    case Finished => Remaining(w) == [] == Remaining(w')
  }

  lemma ForestHead(iter: seq<DynamicFrame>, depth: nat)
    requires iter != []
    ensures Forest(iter, depth)
         == [Visit(Dynamic(iter[0]), depth)] + Below(iter[0].children, iter[0].lostChildren, depth + 1) + Forest(iter[1..], depth)
  {
    assert Forest(iter, depth) == Preorder(iter[0], depth) + Forest(iter[1..], depth);
  }

  /** Replacing the top entry changes only the front of what the stack still owes. */
  lemma StackRestTop(below: seq<StackEntry>, top: StackEntry)
    ensures StackRest(below + [top])
         == Forest(top.iter, |below| + 1) + Marker(top.lostChildren, |below| + 1) + StackRest(below)
  {
    var stack := below + [top];
    assert stack[..|stack| - 1] == below;
  }

  lemma Regroup<T>(v: seq<T>, p: seq<T>, f: seq<T>, m: seq<T>, s: seq<T>, r: seq<T>)
    ensures [] + ((v + p + f) + m + s) + r == v + (p + (f + m + s) + r)
  {
  }

  lemma AdvanceIntoChild(w: Walk)
    requires w.Valid() && w.pending.None? && w.stack != [] && w.stack[|w.stack| - 1].iter != []
    ensures var (w', y) := Advance(w); w'.Valid() && !y.Failed? && Accounts(w, w', y)
  {
    var n := |w.stack|;
    var top := w.stack[n - 1];
    var below := w.stack[..n - 1];
    var f := Dynamic(top.iter[0]);
    var top' := top.(iter := top.iter[1..]);
    var w' := w.(stack := below + [top'], pending := PendingOf(f));
    assert Advance(w) == (w', Visited(Visit(f, n)));
    var p := Below(f.Kids(), f.Lost(), n + 1);
    assert PendingBlock(w') == p;
    assert StackRest(w.stack) == [Visit(f, n)] + p + Forest(top'.iter, n) + Marker(top.lostChildren, n) + StackRest(below) by {
      assert w.stack == below + [top];
      ForestHead(top.iter, n);
      StackRestTop(below, top);
    }
    StackRestTop(below, top');
    Regroup([Visit(f, n)], p, Forest(top'.iter, n), Marker(top.lostChildren, n), StackRest(below), Traversal(w.roots, w.lostPeers));
  }

  lemma RegroupRoot<T>(v: seq<T>, p: seq<T>, r: seq<T>, m: seq<T>)
    ensures [] + [] + ((v + p + r) + m) == v + (p + [] + (r + m))
  {
  }

  lemma AdvanceToRoot(w: Walk)
    requires w.Valid() && w.pending.None? && w.stack == [] && w.roots != []
    ensures var (w', y) := Advance(w); w'.Valid() && !y.Failed? && Accounts(w, w', y)
  {
    var f := Static(w.roots[0]);
    var w' := w.(roots := w.roots[1..], pending := PendingOf(f));
    assert Advance(w) == (w', Visited(Visit(f, 0)));
    var p := Below(f.Kids(), f.Lost(), 1);
    assert PendingBlock(w') == p;
    assert Roots(w.roots) == [Visit(f, 0)] + p + Roots(w.roots[1..]);
    RegroupRoot([Visit(f, 0)], p, Roots(w.roots[1..]), Marker(w.lostPeers, 0));
  }

  lemma PopKeepsRemaining(w: Walk, top: StackEntry, popped: Walk)
    requires w.pending.None? && w.stack != [] && top == w.stack[|w.stack| - 1] && top.iter == []
    requires popped == w.(stack := w.stack[..|w.stack| - 1])
    ensures Remaining(w) == Marker(top.lostChildren, |w.stack|) + Remaining(popped)
  {
    assert Forest(top.iter, |w.stack|) == [];
    hide Traversal, Marker, Forest;
  }

  lemma {:induction false} AdvanceAccounts(w: Walk)
    requires w.Valid() && w.pending.None?
    ensures var (w', y) := Advance(w); w'.Valid() && !y.Failed? && Accounts(w, w', y)
    decreases |w.stack|
  {
    if w.stack != [] {
      var below := w.stack[..|w.stack| - 1];
      var top := w.stack[|w.stack| - 1];
      if top.iter != [] {
        AdvanceIntoChild(w);
      } else {
        var popped := w.(stack := below);
        PopKeepsRemaining(w, top, popped);
        if top.lostChildren == 0 {
          AdvanceAccounts(popped);
        }
      }
    } else if w.roots != [] {
      AdvanceToRoot(w);
    }
  }

  /** Pushing the waiting frame's children only moves them from one place to another. */
  lemma PushKeepsRemaining(w: Walk, pushed: Walk)
    requires w.Valid() && w.pending.Some?
    requires var f := w.pending.value;
             pushed.stack == w.stack + [StackEntry(f.Kids(), f.Lost())] && pushed.pending.None?
             && pushed.roots == w.roots && pushed.lostPeers == w.lostPeers
    ensures Remaining(pushed) == Remaining(w)
  {
    var f := w.pending.value;
    StackRestTop(w.stack, StackEntry(f.Kids(), f.Lost()));
    hide Forest, StackRest, Traversal;
  }

  /** Every call of `next`, whatever the allocator answers, either yields the next visit of the
      traversal, reports a failure without losing anything, or (in automatic mode) reports the
      failure and skips exactly the block beneath the failing frame. */
  lemma StepAccounts(w: Walk, oracle: Oracle, calls: nat)
    requires w.Valid()
    ensures var s := Step(w, oracle, calls); s.walk.Valid() && Accounts(w, s.walk, s.yielded)
  {
    if w.pending.None? {
      AdvanceAccounts(w.(stalled := false));
    } else {
      var f := w.pending.value;
      var g := Reserve(|w.stack|, w.stackCap, 1, oracle, calls);
      if g.ok {
        var pushed := w.(stack := w.stack + [StackEntry(f.Kids(), f.Lost())], stackCap := g.cap,
                         pending := None, stalled := false);
        PushKeepsRemaining(w, pushed);
        AdvanceAccounts(pushed);
        hide Remaining, Advance;
      }
    }
  }

  // ---------------------------------------------------------------------------------------------
  // Whole runs: any mixture of `next`, `unstall` and `set_auto_unstall`, under any allocator

  datatype Action = Next | CallUnstall | SetAuto(on: bool)

  /** What a run leaves behind.  `Skipped(v)` records that the block beneath `v` was given up. */
  datatype Event = Emitted(visit: Visit) | Errored(depth: nat) | Skipped(under: Visit) | Ended

  datatype Ran = Ran(walk: Walk, calls: nat, log: seq<Event>)

  function Waiting(w: Walk): Visit
    requires w.pending.Some?
  {
    Visit(w.pending.value, |w.stack|)
  }

  /** What a call of `next` contributes to the log. */
  function Events(w: Walk, s: Stepped): seq<Event> {
    match s.yielded
    case Visited(v) => [Emitted(v)]
    case Finished => [Ended]
    case Failed(d) =>
      if w.pending.Some? && s.walk.pending.None? then [Errored(d), Skipped(Waiting(w))] else [Errored(d)]
  }

  function Perform(w: Walk, oracle: Oracle, calls: nat, action: Action): Ran
    requires w.Valid()
  {
    match action
    case Next =>
      var s := Step(w, oracle, calls);
      Ran(s.walk, s.calls, Events(w, s))
    case CallUnstall =>
      var (w', gone) := Unstall(w);
      Ran(w', calls, if gone then [Skipped(Waiting(w))] else [])
    case SetAuto(on) => Ran(w.(auto := on), calls, [])
  }

  lemma EventsCover(w: Walk, s: Stepped)
    requires w.Valid() && Accounts(w, s.walk, s.yielded)
    ensures Remaining(w) == Covered(Events(w, s)) + Remaining(s.walk)
  {
    hide Remaining, Below, Covered;
    match s.yielded
    case Visited(v) => CoveredOne(Emitted(v));
    case Finished => CoveredOne(Ended);
    case Failed(d) =>
      CoveredOne(Errored(d));
      CoveredTwo(Errored(d), Skipped(Waiting(w)));
  }

  lemma UnstallCovers(w: Walk)
    requires w.Valid() && w.stalled
    ensures var (w', gone) := Unstall(w);
            gone && w'.Valid() && Remaining(w) == Covered([Skipped(Waiting(w))]) + Remaining(w')
  {
    hide Below, StackRest, Traversal;
    CoveredOne(Skipped(Waiting(w)));
  }

  /** Without a failure just before, `unstall` leaves the walker exactly as it was and says so; after
      one it takes the waiting frame and nothing else. */
  lemma UnstallOnlyStalled(w: Walk)
    requires w.Valid()
    ensures var (w', gone) := Unstall(w);
            && (gone <==> w.stalled)
            && w' == if w.stalled then w.(pending := None, stalled := false) else w
  {
  }

  /** `next` fails exactly when a frame's children wait, the stack is full, and it cannot grow. */
  lemma StepFailsIff(w: Walk, oracle: Oracle, calls: nat)
    requires w.Valid()
    ensures var s := Step(w, oracle, calls);
            var asks := w.pending.Some? && |w.stack| == w.stackCap;
            && (s.yielded.Failed? <==> asks && (|w.stack| == ISIZE_MAX || oracle(calls).Refused?))
            && s.calls == if asks && |w.stack| < ISIZE_MAX then calls + 1 else calls
  {
    StepAccounts(w, oracle, calls);
    hide Accounts;
    if w.pending.None? {
      AdvanceAccounts(w.(stalled := false));
    } else {
      var f := w.pending.value;
      var g := Reserve(|w.stack|, w.stackCap, 1, oracle, calls);
      if g.ok {
        AdvanceAccounts(w.(stack := w.stack + [StackEntry(f.Kids(), f.Lost())], stackCap := g.cap, pending := None, stalled := false));
      }
    }
    hide Advance;
  }

  lemma PerformAccounts(w: Walk, oracle: Oracle, calls: nat, action: Action)
    requires w.Valid()
    ensures var r := Perform(w, oracle, calls, action);
            r.walk.Valid() && Remaining(w) == Covered(r.log) + Remaining(r.walk)
  {
    match action
    case Next =>
      StepAccounts(w, oracle, calls);
      EventsCover(w, Step(w, oracle, calls));
      hide Step, Events, Remaining, Covered;
    case CallUnstall =>
      if w.stalled {
        UnstallCovers(w);
        hide Remaining, Covered;
      }
    case SetAuto(on) =>
      assert Covered([]) == [];
  }

  function Run(w: Walk, oracle: Oracle, calls: nat, actions: seq<Action>): (r: Ran)
    requires w.Valid()
    ensures r.walk.Valid()
    decreases |actions|
  {
    if actions == [] then Ran(w, calls, [])
    else
      PerformAccounts(w, oracle, calls, actions[0]);
      var one := Perform(w, oracle, calls, actions[0]);
      var rest := Run(one.walk, oracle, one.calls, actions[1..]);
      Ran(rest.walk, rest.calls, one.log + rest.log)
  }

  /** The visits of the traversal an event accounts for. */
  function Share(e: Event): seq<Visit> {
    match e
    case Emitted(v) => [v]
    case Skipped(v) => Below(v.frame.Kids(), v.frame.Lost(), v.depth + 1)
    case Errored(_) => []
    case Ended => []
  }

  function Covered(log: seq<Event>): seq<Visit> {
    if log == [] then [] else Share(log[0]) + Covered(log[1..])
  }

  function LastEmitted(log: seq<Event>): Option<Visit> {
    if log == [] then None
    else if log[|log| - 1].Emitted? then Some(log[|log| - 1].visit)
    else LastEmitted(log[..|log| - 1])
  }

  lemma CoveredOne(e: Event)
    ensures Covered([e]) == Share(e)
  {
    hide Share;
    assert [e][1..] == [];
  }

  lemma CoveredTwo(a: Event, b: Event)
    ensures Covered([a, b]) == Share(a) + Share(b)
  {
    hide Share;
    assert [a, b][1..] == [b];
    CoveredOne(b);
  }

  lemma {:induction false} CoveredConcat(a: seq<Event>, b: seq<Event>)
    ensures Covered(a + b) == Covered(a) + Covered(b)
  {
    hide Share;
    if a == [] {
      assert a + b == b;
    } else {
      CoveredConcat(a[1..], b);
      assert (a + b)[1..] == a[1..] + b;
      Assoc(Share(a[0]), Covered(a[1..]), Covered(b));
    }
  }

  /** Nothing is lost, repeated or reordered: what was emitted, together with the blocks that were
      deliberately skipped, followed by what is still to come, is the traversal itself. */
  lemma {:induction false} RunAccounts(w: Walk, oracle: Oracle, calls: nat, actions: seq<Action>)
    requires w.Valid()
    ensures var r := Run(w, oracle, calls, actions); Covered(r.log) + Remaining(r.walk) == Remaining(w)
    decreases |actions|
  {
    hide Remaining, Perform, Share;
    if actions != [] {
      PerformAccounts(w, oracle, calls, actions[0]);
      var one := Perform(w, oracle, calls, actions[0]);
      var rest := Run(one.walk, oracle, one.calls, actions[1..]);
      RunAccounts(one.walk, oracle, one.calls, actions[1..]);
      CoveredConcat(one.log, rest.log);
      Assoc(Covered(one.log), Covered(rest.log), Remaining(rest.walk));
    }
  }

  // ---------------------------------------------------------------------------------------------
  // Which blocks are skipped, and how long a run can be

  function LastOr(log: seq<Event>, v: Option<Visit>): Option<Visit> {
    var l := LastEmitted(log);
    if l.Some? then l else v
  }

  /** In a run that began after `before`, every skipped block lies beneath the visit emitted last,
      and every error carries that visit's depth. */
  ghost predicate Justified(log: seq<Event>, before: Option<Visit>) {
    forall i :: 0 <= i < |log| ==>
      var last := LastOr(log[..i], before);
      match log[i]
      case Skipped(v) => last == Some(v)
      case Errored(d) => last.Some? && last.value.depth == d
      case _ => true
  }

  /** A waiting frame is the one emitted last. */
  ghost predicate WaitsOn(w: Walk, last: Option<Visit>) {
    w.pending.Some? ==> last == Some(Waiting(w))
  }

  lemma {:induction false} AdvanceWaitsOnVisit(w: Walk)
    requires w.pending.None?
    ensures var (w', y) := Advance(w); if y.Visited? then WaitsOn(w', Some(y.visit)) else w'.pending.None?
    decreases |w.stack|
  {
    if w.stack != [] {
      var top := w.stack[|w.stack| - 1];
      if top.iter == [] && top.lostChildren == 0 {
        AdvanceWaitsOnVisit(w.(stack := w.stack[..|w.stack| - 1]));
      }
    }
  }

  lemma StepWaitsOnVisit(w: Walk, oracle: Oracle, calls: nat)
    requires w.Valid()
    ensures var s := Step(w, oracle, calls);
            match s.yielded
            case Visited(v) => WaitsOn(s.walk, Some(v))
            case Finished => s.walk.pending.None?
            case Failed(d) => true
  {
    if w.pending.None? {
      AdvanceWaitsOnVisit(w.(stalled := false));
    } else {
      var g := Reserve(|w.stack|, w.stackCap, 1, oracle, calls);
      if g.ok {
        AdvanceWaitsOnVisit(w.(stack := w.stack + [StackEntry(w.pending.value.Kids(), w.pending.value.Lost())],
                               stackCap := g.cap, pending := None, stalled := false));
      }
    }
  }

  lemma JustifiedOne(e: Event, before: Option<Visit>)
    requires e.Skipped? ==> before == Some(e.under)
    requires e.Errored? ==> before.Some? && before.value.depth == e.depth
    ensures Justified([e], before)
    ensures LastOr([e], before) == if e.Emitted? then Some(e.visit) else before
  {
    var log := [e];
    assert log[..0] == [] && log[|log| - 1] == e;
    assert LastEmitted(log[..|log| - 1]) == None;
  }

  lemma PerformJustified(w: Walk, oracle: Oracle, calls: nat, action: Action, before: Option<Visit>)
    requires w.Valid() && WaitsOn(w, before)
    ensures var r := Perform(w, oracle, calls, action);
            Justified(r.log, before) && WaitsOn(r.walk, LastOr(r.log, before))
  {
    var r := Perform(w, oracle, calls, action);
    match action
    case SetAuto(on) =>
    case CallUnstall =>
      if w.stalled {
        JustifiedOne(Skipped(Waiting(w)), before);
      }
    case Next =>
      StepAccounts(w, oracle, calls);
      StepWaitsOnVisit(w, oracle, calls);
      JustifiedOne(r.log[0], before);
      if |r.log| == 2 {
        JustifiedOne(r.log[1], before);
        JustifiedConcat([r.log[0]], [r.log[1]], before);
        LastOrConcat([r.log[0]], [r.log[1]], before);
        assert r.log == [r.log[0]] + [r.log[1]];
      }
  }

  lemma {:induction false} LastOrConcat(a: seq<Event>, b: seq<Event>, before: Option<Visit>)
    ensures LastOr(a + b, before) == LastOr(b, LastOr(a, before))
    decreases |b|
  {
    if b == [] {
      assert a + b == a;
    } else {
      assert (a + b)[..|a + b| - 1] == a + b[..|b| - 1];
      LastOrConcat(a, b[..|b| - 1], before);
    }
  }

  lemma JustifiedConcat(a: seq<Event>, b: seq<Event>, before: Option<Visit>)
    requires Justified(a, before) && Justified(b, LastOr(a, before))
    ensures Justified(a + b, before)
  {
    forall i | 0 <= i < |a + b|
      ensures var last := LastOr((a + b)[..i], before);
              match (a + b)[i]
              case Skipped(v) => last == Some(v)
              case Errored(d) => last.Some? && last.value.depth == d
              case _ => true
    {
      if i < |a| {
        assert (a + b)[..i] == a[..i];
      } else {
        assert (a + b)[..i] == a + b[..i - |a|];
        LastOrConcat(a, b[..i - |a|], before);
      }
    }
  }

  lemma {:induction false} RunJustified(w: Walk, oracle: Oracle, calls: nat, actions: seq<Action>, before: Option<Visit>)
    requires w.Valid() && WaitsOn(w, before)
    ensures Justified(Run(w, oracle, calls, actions).log, before)
    decreases |actions|
  {
    if actions != [] {
      PerformAccounts(w, oracle, calls, actions[0]);
      PerformJustified(w, oracle, calls, actions[0], before);
      var one := Perform(w, oracle, calls, actions[0]);
      var rest := Run(one.walk, oracle, one.calls, actions[1..]);
      RunJustified(one.walk, oracle, one.calls, actions[1..], LastOr(one.log, before));
      JustifiedConcat(one.log, rest.log, before);
    }
  }

  lemma PendingBlockNotEmpty(w: Walk)
    requires w.Valid() && w.pending.Some?
    ensures |PendingBlock(w)| > 0
  {
    ForestHead(w.pending.value.Kids(), |w.stack| + 1);
  }

  /** The walk is over exactly when nothing of the traversal remains. */
  lemma FinishedIffNothingRemains(w: Walk, oracle: Oracle, calls: nat)
    requires w.Valid()
    ensures Step(w, oracle, calls).yielded.Finished? <==> Remaining(w) == []
  {
    StepAccounts(w, oracle, calls);
    if w.pending.Some? {
      PendingBlockNotEmpty(w);
    }
  }

  function Visits(log: seq<Event>): seq<Visit> {
    if log == [] then [] else (if log[0].Emitted? then [log[0].visit] else []) + Visits(log[1..])
  }

  lemma VisitsCons(e: Event, rest: seq<Event>)
    ensures Visits([e] + rest) == (if e.Emitted? then [e.visit] else []) + Visits(rest)
  {
    assert ([e] + rest)[1..] == rest;
  }

  /** Without automatic unstalling, calls of `next` alone never lose a visit: whatever fails, the
      visits emitted so far and the remainder make up the traversal. */
  lemma {:induction false} StallingRunLosesNothing(w: Walk, oracle: Oracle, calls: nat, n: nat)
    requires w.Valid() && !w.auto
    ensures var r := Run(w, oracle, calls, seq(n, _ => Next));
            Visits(r.log) + Remaining(r.walk) == Remaining(w)
    decreases n
  {
    hide Step, Remaining, Perform;
    var actions := seq(n, _ => Next);
    if n > 0 {
      var one := Perform(w, oracle, calls, Next);
      StallingStep(w, oracle, calls);
      assert actions[1..] == seq(n - 1, _ => Next);
      StallingRunLosesNothing(one.walk, oracle, one.calls, n - 1);
      var rest := Run(one.walk, oracle, one.calls, actions[1..]);
      VisitsCons(one.log[0], rest.log);
      assert one.log == [one.log[0]];
    }
  }

  lemma StallingStep(w: Walk, oracle: Oracle, calls: nat)
    requires w.Valid() && !w.auto
    ensures var one := Perform(w, oracle, calls, Next);
            && one.walk.Valid() && !one.walk.auto && |one.log| == 1
            && Remaining(w) == (if one.log[0].Emitted? then [one.log[0].visit] else []) + Remaining(one.walk)
  {
    StepAccounts(w, oracle, calls);
    StepKeepsMode(w, oracle, calls);
  }

  lemma {:induction false} AdvanceKeepsMode(w: Walk)
    ensures Advance(w).0.auto == w.auto
    decreases |w.stack|
  {
    if w.stack != [] {
      var top := w.stack[|w.stack| - 1];
      if top.iter == [] && top.lostChildren == 0 {
        AdvanceKeepsMode(w.(stack := w.stack[..|w.stack| - 1]));
      }
    }
  }

  lemma StepKeepsMode(w: Walk, oracle: Oracle, calls: nat)
    requires w.Valid()
    ensures Step(w, oracle, calls).walk.auto == w.auto
  {
    AdvanceKeepsMode(w.(stalled := false));
    if w.pending.Some? {
      var g := Reserve(|w.stack|, w.stackCap, 1, oracle, calls);
      AdvanceKeepsMode(w.(stack := w.stack + [StackEntry(w.pending.value.Kids(), w.pending.value.Lost())],
                          stackCap := g.cap, pending := None, stalled := false));
    }
  }

  /** With automatic unstalling every call makes progress, so under any allocator the walk is over
      after at most as many calls as the traversal has visits. */
  lemma {:induction false} AutoRunFinishes(w: Walk, oracle: Oracle, calls: nat, n: nat)
    requires w.Valid() && w.auto
    requires |Remaining(w)| <= n
    ensures var r := Run(w, oracle, calls, seq(n, _ => Next));
            Step(r.walk, oracle, r.calls).yielded.Finished?
    decreases n
  {
    hide Remaining, Step, Below;
    var actions := seq(n, _ => Next);
    if n > 0 {
      StepAccounts(w, oracle, calls);
      StepKeepsMode(w, oracle, calls);
      var one := Perform(w, oracle, calls, Next);
      if w.pending.Some? {
        PendingBlockNotEmpty(w);
      }
      assert actions[1..] == seq(n - 1, _ => Next);
      AutoRunFinishes(one.walk, oracle, one.calls, n - 1);
    } else {
      FinishedIffNothingRemains(w, oracle, calls);
    }
  }

  /** Errors and skipped blocks come in pairs, the error first. */
  ghost predicate Paired(log: seq<Event>) {
    && (forall i :: 0 <= i < |log| && log[i].Errored? ==> i + 1 < |log| && log[i + 1].Skipped?)
    && (forall i :: 0 <= i < |log| && log[i].Skipped? ==> 0 < i && log[i - 1].Errored?)
  }

  lemma PairedConcat(a: seq<Event>, b: seq<Event>)
    requires Paired(a) && Paired(b)
    ensures Paired(a + b)
  {
    var log := a + b;
    forall i | 0 <= i < |log| && log[i].Errored?
      ensures i + 1 < |log| && log[i + 1].Skipped?
    {
      if i < |a| {
        assert a[i].Errored?;
      } else {
        assert b[i - |a|].Errored?;
      }
    }
    forall i | 0 <= i < |log| && log[i].Skipped?
      ensures 0 < i && log[i - 1].Errored?
    {
      if i < |a| {
        assert a[i].Skipped?;
      } else {
        assert b[i - |a|].Skipped?;
      }
    }
  }

  lemma AutoStepPairs(w: Walk, oracle: Oracle, calls: nat)
    requires w.Valid() && w.auto
    ensures var one := Perform(w, oracle, calls, Next);
            one.walk.Valid() && one.walk.auto && Paired(one.log)
  {
    hide Remaining, Advance, PendingBlock;
    StepAccounts(w, oracle, calls);
    StepKeepsMode(w, oracle, calls);
  }

  /** With automatic unstalling each failure is reported by exactly one error, directly followed by the
      skipped block it stands for, and no block is skipped without one. */
  lemma {:induction false} AutoRunPairs(w: Walk, oracle: Oracle, calls: nat, n: nat)
    requires w.Valid() && w.auto
    ensures Paired(Run(w, oracle, calls, seq(n, _ => Next)).log)
    decreases n
  {
    var actions := seq(n, _ => Next);
    if n > 0 {
      var one := Perform(w, oracle, calls, Next);
      AutoStepPairs(w, oracle, calls);
      hide Step, Paired, Perform, Events;
      assert actions[1..] == seq(n - 1, _ => Next);
      AutoRunPairs(one.walk, oracle, one.calls, n - 1);
      PairedConcat(one.log, Run(one.walk, oracle, one.calls, actions[1..]).log);
    }
  }

  // ---------------------------------------------------------------------------------------------
  // Blocks are given up only after their own failure

  /** Every skipped block comes directly after an error, or opens the log of a run that began after
      one. */
  ghost predicate SkipsAfterErrors(log: seq<Event>, failed: bool) {
    forall i :: 0 <= i < |log| && log[i].Skipped? ==> EndsInError(log[..i], failed)
  }

  /** The last thing that happened was an error. */
  predicate EndsInError(log: seq<Event>, failed: bool) {
    if log == [] then failed else log[|log| - 1].Errored?
  }

  lemma SkipsConcat(a: seq<Event>, b: seq<Event>, failed: bool)
    requires SkipsAfterErrors(a, failed) && SkipsAfterErrors(b, EndsInError(a, failed))
    ensures SkipsAfterErrors(a + b, failed)
    ensures EndsInError(a + b, failed) == EndsInError(b, EndsInError(a, failed))
  {
    var log := a + b;
    forall i | 0 <= i < |log| && log[i].Skipped?
      ensures EndsInError(log[..i], failed)
    {
      if i < |a| {
        assert log[..i] == a[..i] && a[i].Skipped?;
      } else {
        assert log[..i] == a + b[..i - |a|] && b[i - |a|].Skipped?;
        assert b[..i - |a|] != [] ==> log[..i][|log[..i]| - 1] == b[..i - |a|][|b[..i - |a|]| - 1];
      }
    }
  }

  lemma {:induction false} AdvanceNotStalled(w: Walk)
    requires !w.stalled
    ensures !Advance(w).0.stalled
    decreases |w.stack|
  {
    if w.stack != [] {
      var top := w.stack[|w.stack| - 1];
      if top.iter == [] && top.lostChildren == 0 {
        AdvanceNotStalled(w.(stack := w.stack[..|w.stack| - 1]));
      }
    }
  }

  /** After `next` the walker is stalled exactly when the call failed and did not give up the block. */
  lemma StepStalls(w: Walk, oracle: Oracle, calls: nat)
    requires w.Valid()
    ensures var s := Step(w, oracle, calls); s.walk.stalled <==> s.yielded.Failed? && !w.auto
  {
    StepFailsIff(w, oracle, calls);
    AdvanceNotStalled(w.(stalled := false));
    if w.pending.Some? {
      var f := w.pending.value;
      var g := Reserve(|w.stack|, w.stackCap, 1, oracle, calls);
      AdvanceNotStalled(w.(stack := w.stack + [StackEntry(f.Kids(), f.Lost())], stackCap := g.cap, pending := None, stalled := false));
    }
    hide Advance;
  }

  lemma PerformSkips(w: Walk, oracle: Oracle, calls: nat, action: Action, failed: bool)
    requires w.Valid() && (w.stalled ==> failed)
    ensures var r := Perform(w, oracle, calls, action);
            SkipsAfterErrors(r.log, failed) && (r.walk.stalled ==> EndsInError(r.log, failed))
  {
    match action
    case Next =>
      StepAccounts(w, oracle, calls);
      StepStalls(w, oracle, calls);
      hide Step, Remaining;
    case CallUnstall =>
      UnstallOnlyStalled(w);
    case SetAuto(on) =>
  }

  /** In any mixture of calls under any allocator a block is given up only directly after an error,
      which by `RunJustified` is about the frame emitted last, so after its own failure. */
  lemma {:induction false} RunSkipsAfterErrors(w: Walk, oracle: Oracle, calls: nat, actions: seq<Action>, failed: bool)
    requires w.Valid() && (w.stalled ==> failed)
    ensures SkipsAfterErrors(Run(w, oracle, calls, actions).log, failed)
    decreases |actions|
  {
    if actions != [] {
      hide Perform, SkipsAfterErrors, EndsInError;
      PerformAccounts(w, oracle, calls, actions[0]);
      PerformSkips(w, oracle, calls, actions[0], failed);
      var one := Perform(w, oracle, calls, actions[0]);
      var rest := Run(one.walk, oracle, one.calls, actions[1..]);
      RunSkipsAfterErrors(one.walk, oracle, one.calls, actions[1..], EndsInError(one.log, failed));
      SkipsConcat(one.log, rest.log, failed);
    } else {
      assert Run(w, oracle, calls, actions).log == [];
    }
  }

  // ---------------------------------------------------------------------------------------------
  // Without failures

  /** No visit lies deeper than a stack can be. */
  ghost predicate Shallow(visits: seq<Visit>) {
    forall i :: 0 <= i < |visits| ==> visits[i].depth <= ISIZE_MAX
  }

  lemma WaitingIsShallow(w: Walk)
    requires w.Valid() && w.pending.Some? && Shallow(Remaining(w))
    ensures |w.stack| < ISIZE_MAX
  {
    var block := PendingBlock(w);
    PendingBlockNotEmpty(w);
    ForestHead(w.pending.value.Kids(), |w.stack| + 1);
    assert block[0].depth == |w.stack| + 1;
    assert Remaining(w)[0] == block[0];
  }

  lemma ShallowTail(v: Visit, rest: seq<Visit>)
    requires Shallow([v] + rest)
    ensures Shallow(rest)
  {
    assert forall i :: 0 <= i < |rest| ==> rest[i] == ([v] + rest)[i + 1];
  }

  lemma GrantedStep(w: Walk, oracle: Oracle, calls: nat)
    requires w.Valid() && Shallow(Remaining(w)) && Remaining(w) != [] && oracle(calls).Granted?
    ensures var s := Step(w, oracle, calls);
            && s.walk.Valid() && s.yielded.Visited? && s.calls >= calls
            && Remaining(w) == [s.yielded.visit] + Remaining(s.walk) && Shallow(Remaining(s.walk))
  {
    hide Step, Remaining, Shallow;
    StepAccounts(w, oracle, calls);
    StepFailsIff(w, oracle, calls);
    if w.pending.Some? {
      WaitingIsShallow(w);
    }
    var s := Step(w, oracle, calls);
    if s.yielded.Visited? {
      ShallowTail(s.yielded.visit, Remaining(s.walk));
    }
  }

  function EmittedAll(visits: seq<Visit>): seq<Event> {
    seq(|visits|, i requires 0 <= i < |visits| => Emitted(visits[i]))
  }

  /** With every request granted the calls of `next` yield the traversal, visit by visit. */
  lemma {:induction false} GrantedRunIsTraversal(w: Walk, oracle: Oracle, calls: nat, n: nat)
    requires w.Valid() && Shallow(Remaining(w)) && n <= |Remaining(w)|
    requires forall i :: i >= calls ==> oracle(i).Granted?
    ensures Run(w, oracle, calls, seq(n, _ => Next)).log == EmittedAll(Remaining(w)[..n])
    decreases n
  {
    hide Step, Remaining, Shallow;
    var actions := seq(n, _ => Next);
    if n > 0 {
      GrantedStep(w, oracle, calls);
      var one := Perform(w, oracle, calls, Next);
      assert actions[1..] == seq(n - 1, _ => Next);
      GrantedRunIsTraversal(one.walk, oracle, one.calls, n - 1);
    }
  }
}
