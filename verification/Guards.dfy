/** The test allocator's thread-local failure policy: nested guards that snapshot and restore it. */
module Guards {
  import opened Allocation
  import opened Sequences

  /** Which call to fail, counted from one: none, every one (zero), or the n-th. */
  datatype FailPolicy = FailPolicy(failAllocAt: Option<nat>, failReallocAt: Option<nat>)

  /** The three thread-local cells; also what a guard saves. */
  datatype Cells = Cells(policy: FailPolicy, allocs: nat, reallocs: nat)

  /** The answer to one counted call, and the counter afterwards. */
  function Check(at: Option<nat>, count: nat): (bool, nat) {
    match at
    case None => (false, count)
    case Some(n) => if n == 0 then (true, count) else (count + 1 == n, count + 1)
  }

  /** What a thread does: requests, nested guarded scopes, and panics, which unwind to the outside. */
  datatype Event = Alloc | Realloc | Scope(policy: FailPolicy, body: seq<Event>) | Panic

  /** What the requests of a scope were answered (true means failed), inner scopes kept apart. */
  datatype Answer = AllocAnswer(failed: bool) | ReallocAnswer(failed: bool) | Inner(answers: seq<Answer>)

  datatype Ran = Ran(cells: Cells, answers: seq<Answer>, panicked: bool)

  function ExecOne(c: Cells, e: Event): Ran
    decreases e, 0
  {
    match e
    case Alloc =>
      var (failed, n) := Check(c.policy.failAllocAt, c.allocs);
      Ran(c.(allocs := n), [AllocAnswer(failed)], false)
    case Realloc =>
      var (failed, n) := Check(c.policy.failReallocAt, c.reallocs);
      Ran(c.(reallocs := n), [ReallocAnswer(failed)], false)
    case Panic => Ran(c, [], true)
    case Scope(policy, body) =>
      var inner := Exec(Cells(policy, 0, 0), body);
      Ran(c, [Inner(inner.answers)], inner.panicked)
  }

  function Exec(c: Cells, events: seq<Event>): Ran
    decreases events, 1
  {
    if events == [] then Ran(c, [], false)
    else
      var first := ExecOne(c, events[0]);
      if first.panicked then first
      else
        var rest := Exec(first.cells, events[1..]);
        Ran(rest.cells, first.answers + rest.answers, rest.panicked)
  }

  /** The thread-local state as the program updates it. */
  class TestAllocator {
    var policy: FailPolicy
    var allocs: nat
    var reallocs: nat

    ghost function State(): Cells
      reads this
    {
      Cells(policy, allocs, reallocs)
    }

    constructor ()
      ensures State() == Cells(FailPolicy(None, None), 0, 0)
    {
      policy := FailPolicy(None, None);
      allocs, reallocs := 0, 0;
    }

    /** `FailAllocGuard::install`: the guard is the snapshot it returns. */
    method Install(policy: FailPolicy) returns (snapshot: Cells)
      modifies this
      ensures snapshot == old(State()) && State() == Cells(policy, 0, 0)
    {
      snapshot := Cells(this.policy, allocs, reallocs);
      this.policy := policy;
      allocs, reallocs := 0, 0;
    }

    /** The guard's drop. */
    method Restore(snapshot: Cells)
      modifies this
      ensures State() == snapshot
    {
      policy, allocs, reallocs := snapshot.policy, snapshot.allocs, snapshot.reallocs;
    }

    method CheckShouldFailAlloc() returns (failed: bool)
      modifies this
      ensures Ran(State(), [AllocAnswer(failed)], false) == ExecOne(old(State()), Alloc)
    {
      if policy.failAllocAt.None? {
        return false;
      }
      var at := policy.failAllocAt.value;
      if at == 0 {
        return true;
      }
      allocs := allocs + 1;
      failed := allocs == at;
    }

    method CheckShouldFailRealloc() returns (failed: bool)
      modifies this
      ensures Ran(State(), [ReallocAnswer(failed)], false) == ExecOne(old(State()), Realloc)
    {
      if policy.failReallocAt.None? {
        return false;
      }
      var at := policy.failReallocAt.value;
      if at == 0 {
        return true;
      }
      reallocs := reallocs + 1;
      failed := reallocs == at;
    }

    /** `with_policy`: the body runs under its own policy and counters, and the old ones come back
        whether it returns or panics. */
    method WithPolicy(policy: FailPolicy, body: seq<Event>) returns (answers: seq<Answer>, panicked: bool)
      modifies this
      ensures Ran(State(), [Inner(answers)], panicked) == ExecOne(old(State()), Scope(policy, body))
      decreases body, 2
    {
      var previous := Install(policy);
      answers, panicked := Perform(body);
      Restore(previous);
    }

    method Perform(events: seq<Event>) returns (answers: seq<Answer>, panicked: bool)
      modifies this
      ensures Ran(State(), answers, panicked) == Exec(old(State()), events)
      decreases events, 1
    {
      answers, panicked := [], false;
      var i := 0;
      assert events[0..] == events;
      hide ExecOne;
      while i < |events|
        invariant 0 <= i <= |events|
        invariant var rest := Exec(State(), events[i..]);
                  Ran(rest.cells, answers + rest.answers, rest.panicked) == Exec(old(State()), events)
      {
        assert events[i..][0] == events[i] && events[i..][1..] == events[i + 1..];
        ghost var rest := events[i + 1..];
        var more;
        more, panicked := PerformOne(events[i]);
        ghost var sofar := answers;
        answers := answers + more;
        if panicked {
          return;
        }
        Assoc(sofar, more, Exec(State(), rest).answers);
        i := i + 1;
      }
      assert answers + [] == answers;
    }

    method PerformOne(e: Event) returns (answers: seq<Answer>, panicked: bool)
      modifies this
      ensures Ran(State(), answers, panicked) == ExecOne(old(State()), e)
      decreases e, 0
    {
      match e
      case Alloc =>
        var failed := CheckShouldFailAlloc();
        return [AllocAnswer(failed)], false;
      case Realloc =>
        var failed := CheckShouldFailRealloc();
        return [ReallocAnswer(failed)], false;
      case Panic =>
        return [], true;
      case Scope(policy, body) =>
        var inner;
        inner, panicked := WithPolicy(policy, body);
        return [Inner(inner)], panicked;
    }
  }

  // ---------------------------------------------------------------------------------------------
  // Which requests fail

  /** The answers to a scope's own allocations, in order. */
  function Allocs(answers: seq<Answer>): seq<bool> {
    if answers == [] then []
    else (if answers[0].AllocAnswer? then [answers[0].failed] else []) + Allocs(answers[1..])
  }

  function Reallocs(answers: seq<Answer>): seq<bool> {
    if answers == [] then []
    else (if answers[0].ReallocAnswer? then [answers[0].failed] else []) + Reallocs(answers[1..])
  }

  /** The k-th answer (from zero) after `count` counted calls: failed exactly when the policy says
      every call, or this one. */
  ghost predicate Counted(answers: seq<bool>, at: Option<nat>, count: nat) {
    forall k :: 0 <= k < |answers| ==> (answers[k] <==> at == Some(0) || at == Some(count + k + 1))
  }

  lemma CountedStep(at: Option<nat>, count: nat, rest: seq<bool>)
    requires Counted(rest, at, Check(at, count).1)
    ensures Counted([Check(at, count).0] + rest, at, count)
  {
    var all := [Check(at, count).0] + rest;
    forall k | 0 <= k < |all|
      ensures all[k] <==> at == Some(0) || at == Some(count + k + 1)
    {
      if k > 0 {
        assert all[k] == rest[k - 1];
      }
    }
  }

  lemma AnswersCons(x: Answer, rest: seq<Answer>)
    ensures Allocs([x] + rest) == (if x.AllocAnswer? then [x.failed] else []) + Allocs(rest)
    ensures Reallocs([x] + rest) == (if x.ReallocAnswer? then [x.failed] else []) + Reallocs(rest)
  {
    assert ([x] + rest)[1..] == rest;
  }

  lemma {:induction false} ExecCounts(c: Cells, events: seq<Event>)
    ensures Exec(c, events).cells.policy == c.policy
    ensures Counted(Allocs(Exec(c, events).answers), c.policy.failAllocAt, c.allocs)
    ensures Counted(Reallocs(Exec(c, events).answers), c.policy.failReallocAt, c.reallocs)
    decreases |events|
  {
    if events != [] {
      var first := ExecOne(c, events[0]);
      if !first.panicked {
        var rest := Exec(first.cells, events[1..]);
        ExecCounts(first.cells, events[1..]);
        AnswersCons(first.answers[0], rest.answers);
        hide Allocs, Reallocs, Counted;
        assert first.answers == [first.answers[0]];
        assert [] + Allocs(rest.answers) == Allocs(rest.answers) && [] + Reallocs(rest.answers) == Reallocs(rest.answers);
        if events[0].Alloc? {
          CountedStep(c.policy.failAllocAt, c.allocs, Allocs(rest.answers));
        } else if events[0].Realloc? {
          CountedStep(c.policy.failReallocAt, c.reallocs, Reallocs(rest.answers));
        }
      }
    }
  }

  // ---------------------------------------------------------------------------------------------
  // How far a trace gets

  /** Somewhere in the event, at any depth, there is a panic. */
  predicate Panicking(e: Event)
    decreases e, 0
  {
    e.Panic? || (e.Scope? && AnyPanics(e.body))
  }

  predicate AnyPanics(events: seq<Event>)
    decreases events, 1
  {
    exists i :: 0 <= i < |events| && Panicking(events[i])
  }

  lemma AnyPanicsCons(events: seq<Event>)
    requires events != []
    ensures AnyPanics(events) <==> Panicking(events[0]) || AnyPanics(events[1..])
  {
    hide Panicking;
    if i :| 0 < i < |events| && Panicking(events[i]) {
      assert events[1..][i - 1] == events[i];
    }
  }

  /** How many events are answered: all before the first that panics, and that one too when it is a
      scope, whose inner answers are known. */
  function Answered(events: seq<Event>): nat {
    if events == [] || events[0].Panic? then 0
    else if Panicking(events[0]) then 1
    else 1 + Answered(events[1..])
  }

  /** An answer is of its event's kind; that of a scope lists what its body was answered under the
      scope's own policy and fresh counters. */
  ghost predicate Answers(e: Event, x: Answer) {
    match e
    case Alloc => x.AllocAnswer?
    case Realloc => x.ReallocAnswer?
    case Scope(policy, body) => x == Inner(Exec(Cells(policy, 0, 0), body).answers)
    case Panic => false
  }

  lemma {:induction false} ScopePanics(c: Cells, e: Event)
    ensures ExecOne(c, e).panicked <==> Panicking(e)
    ensures |ExecOne(c, e).answers| == if e.Panic? then 0 else 1
    ensures !e.Panic? ==> Answers(e, ExecOne(c, e).answers[0])
    decreases e, 0
  {
    if e.Scope? {
      ExecReaches(Cells(e.policy, 0, 0), e.body);
    }
  }

  /** A trace panics exactly when there is a panic in it, at any depth, and nothing after that is run:
      every event before has exactly one answer, of its own kind. */
  lemma {:induction false} ExecReaches(c: Cells, events: seq<Event>)
    ensures Exec(c, events).panicked <==> AnyPanics(events)
    ensures |Exec(c, events).answers| == Answered(events) <= |events|
    ensures forall i :: 0 <= i < Answered(events) ==> Answers(events[i], Exec(c, events).answers[i])
    decreases events, 1
  {
    if events != [] {
      var first := ExecOne(c, events[0]);
      ScopePanics(c, events[0]);
      AnyPanicsCons(events);
      if !first.panicked {
        ExecReaches(first.cells, events[1..]);
      }
      hide AnyPanics, Panicking, ExecOne, Answers;
      forall i | 0 <= i < Answered(events)
        ensures Answers(events[i], Exec(c, events).answers[i])
      {
        if i > 0 {
          assert events[i] == events[1..][i - 1];
        }
      }
    }
  }

  /** What a counter shows after some counted requests: nothing is counted without a policy, nor when
      every request is to fail. */
  function CountAfter(at: Option<nat>, count: nat, answers: nat): nat {
    if at == None || at == Some(0) then count else count + answers
  }

  lemma {:induction false} ExecCounters(c: Cells, events: seq<Event>)
    ensures var r := Exec(c, events);
            && r.cells.allocs == CountAfter(c.policy.failAllocAt, c.allocs, |Allocs(r.answers)|)
            && r.cells.reallocs == CountAfter(c.policy.failReallocAt, c.reallocs, |Reallocs(r.answers)|)
    decreases |events|
  {
    if events != [] {
      var first := ExecOne(c, events[0]);
      assert first.answers != [] ==> first.answers == [first.answers[0]] + [];
      if first.answers != [] {
        AnswersCons(first.answers[0], []);
      }
      if !first.panicked {
        var rest := Exec(first.cells, events[1..]);
        ExecCounters(first.cells, events[1..]);
        AnswersCons(first.answers[0], rest.answers);
        assert first.answers == [first.answers[0]];
      }
      hide Allocs, Reallocs;
    }
  }

  /** Closing a guard brings back the exact policy and counters; and while it was innermost, the k-th
      allocation (from one) failed exactly when its policy was "every" or "the k-th", whatever inner
      scopes, reallocations and panics there were. */
  lemma ScopeMeaning(c: Cells, policy: FailPolicy, body: seq<Event>, k: nat)
    ensures var r := ExecOne(c, Scope(policy, body));
            && r.cells == c
            && (r.panicked <==> AnyPanics(body))
            && |r.answers| == 1 && r.answers[0].Inner? && |r.answers[0].answers| == Answered(body)
            && (0 < k <= |Allocs(r.answers[0].answers)| ==>
                  (Allocs(r.answers[0].answers)[k - 1] <==> policy.failAllocAt == Some(0) || policy.failAllocAt == Some(k)))
            && (0 < k <= |Reallocs(r.answers[0].answers)| ==>
                  (Reallocs(r.answers[0].answers)[k - 1] <==> policy.failReallocAt == Some(0) || policy.failReallocAt == Some(k)))
  {
    ExecCounts(Cells(policy, 0, 0), body);
    ExecReaches(Cells(policy, 0, 0), body);
    hide Exec, Counted, Allocs, Reallocs, AnyPanics, Answers;
    CountedAt(Allocs(ExecOne(c, Scope(policy, body)).answers[0].answers), policy.failAllocAt, k);
    CountedAt(Reallocs(ExecOne(c, Scope(policy, body)).answers[0].answers), policy.failReallocAt, k);
  }

  lemma CountedAt(answers: seq<bool>, at: Option<nat>, k: nat)
    requires Counted(answers, at, 0)
    ensures 0 < k <= |answers| ==> (answers[k - 1] <==> at == Some(0) || at == Some(k))
  {
  }
}
