/** Resuming a failed extension, and the extension of a `Vec`, which reserves before it consumes. */
module Recovery {
  import opened Allocation
  import opened Sequences

  /** An optional stranded element and the items not yet consumed. */
  datatype Resumable<T> = Resumable(head: Option<T>, remainder: seq<T>) {
    /** All items still to come, in order. */
    function Items(): seq<T> {
      (if head.Some? then [head.value] else []) + remainder
    }
  }

  function FromRemainder<T>(remainder: seq<T>): Resumable<T> {
    Resumable(None, remainder)
  }

  datatype Extended<T> = Complete | Stuck(rest: Resumable<T>)

  datatype Extension<T> = Extension(vec: Deque<T>, calls: nat, outcome: Extended<T>)

  // ---------------------------------------------------------------------------------------------
  // `try_extend` of a `Vec`

  /** The loop that pushes what the iterator yields. */
  function PushItems<T>(vec: Deque<T>, iter: seq<T>, oracle: Oracle, calls: nat): (e: Extension<T>)
    requires vec.Valid()
    ensures e.vec.Valid()
    decreases |iter|
  {
    if iter == [] then Extension(vec, calls, Complete)
    else
      var g := Reserve(|vec.items|, vec.cap, 1, oracle, calls);
      if g.ok then PushItems(Deque(vec.items + [iter[0]], g.cap), iter[1..], oracle, g.calls)
      else Extension(vec, g.calls, Stuck(Resumable(Some(iter[0]), iter[1..])))
  }

  /** After the stranded element: room for the iterator's lower size bound, then the loop. */
  function ExtendIter<T>(vec: Deque<T>, iter: seq<T>, lower: nat, oracle: Oracle, calls: nat): (e: Extension<T>)
    requires vec.Valid()
    ensures e.vec.Valid()
  {
    var g := if lower > 0 then Reserve(|vec.items|, vec.cap, lower, oracle, calls) else Growth(true, vec.cap, calls);
    if g.ok then PushItems(Deque(vec.items, g.cap), iter, oracle, g.calls)
    else Extension(vec, g.calls, Stuck(FromRemainder(iter)))
  }

  function ExtendVec<T>(vec: Deque<T>, source: Resumable<T>, lower: nat, oracle: Oracle, calls: nat): (e: Extension<T>)
    requires vec.Valid()
    ensures e.vec.Valid()
  {
    if source.head.None? then ExtendIter(vec, source.remainder, lower, oracle, calls)
    else
      var g := Reserve(|vec.items|, vec.cap, 1, oracle, calls);
      if g.ok then ExtendIter(Deque(vec.items + [source.head.value], g.cap), source.remainder, lower, oracle, g.calls)
      else Extension(vec, g.calls, Stuck(source))
  }

  /** What has been pushed and what is handed back make up what there was, in order. */
  ghost predicate Conserved<T>(before: seq<T>, source: Resumable<T>, e: Extension<T>) {
    e.vec.items + (if e.outcome.Stuck? then e.outcome.rest.Items() else []) == before + source.Items()
  }

  lemma {:induction false} PushItemsConserves<T>(vec: Deque<T>, iter: seq<T>, oracle: Oracle, calls: nat)
    requires vec.Valid()
    ensures Conserved(vec.items, FromRemainder(iter), PushItems(vec, iter, oracle, calls))
    decreases |iter|
  {
    assert FromRemainder(iter).Items() == iter;
    if iter == [] {
      assert vec.items + [] == vec.items;
    } else {
      var g := Reserve(|vec.items|, vec.cap, 1, oracle, calls);
      assert iter == [iter[0]] + iter[1..];
      if g.ok {
        PushItemsConserves(Deque(vec.items + [iter[0]], g.cap), iter[1..], oracle, g.calls);
        assert FromRemainder(iter[1..]).Items() == iter[1..];
        Assoc(vec.items, [iter[0]], iter[1..]);
      }
    }
  }

  lemma ExtendIterConserves<T>(vec: Deque<T>, iter: seq<T>, lower: nat, oracle: Oracle, calls: nat)
    requires vec.Valid()
    ensures Conserved(vec.items, FromRemainder(iter), ExtendIter(vec, iter, lower, oracle, calls))
  {
    var g := if lower > 0 then Reserve(|vec.items|, vec.cap, lower, oracle, calls) else Growth(true, vec.cap, calls);
    if g.ok {
      PushItemsConserves(Deque(vec.items, g.cap), iter, oracle, g.calls);
    }
  }

  /** Nothing is lost, repeated or reordered, whatever the allocator does. */
  lemma ExtendConserves<T>(vec: Deque<T>, source: Resumable<T>, lower: nat, oracle: Oracle, calls: nat)
    requires vec.Valid()
    ensures Conserved(vec.items, source, ExtendVec(vec, source, lower, oracle, calls))
  {
    hide ExtendIter;
    var iter := source.remainder;
    assert FromRemainder(iter).Items() == iter;
    if source.head.None? {
      assert source == FromRemainder(iter);
      ExtendIterConserves(vec, iter, lower, oracle, calls);
    } else {
      var g := Reserve(|vec.items|, vec.cap, 1, oracle, calls);
      if g.ok {
        ExtendIterConserves(Deque(vec.items + [source.head.value], g.cap), iter, lower, oracle, g.calls);
        Assoc(vec.items, [source.head.value], iter);
      }
    }
  }

  // ---------------------------------------------------------------------------------------------
  // When an extension completes

  lemma {:induction false} PushItemsCompleteIff<T>(vec: Deque<T>, iter: seq<T>, oracle: Oracle, calls: nat)
    requires vec.Valid() && |vec.items| + |iter| <= ISIZE_MAX
    ensures var e := PushItems(vec, iter, oracle, calls);
            calls <= e.calls && (e.outcome.Complete? <==> Refusals(oracle, calls, e.calls) == 0)
    decreases |iter|
  {
    if iter != [] {
      var g := Reserve(|vec.items|, vec.cap, 1, oracle, calls);
      RequestCounted(|vec.items|, vec.cap, 1, oracle, calls);
      if g.ok {
        PushItemsCompleteIff(Deque(vec.items + [iter[0]], g.cap), iter[1..], oracle, g.calls);
        RefusalsSplit(oracle, calls, g.calls, PushItems(vec, iter, oracle, calls).calls);
      }
    }
  }

  lemma RequestCounted(len: nat, cap: nat, additional: nat, oracle: Oracle, calls: nat)
    requires len <= cap <= ISIZE_MAX && len + additional <= ISIZE_MAX
    ensures var g := Reserve(len, cap, additional, oracle, calls);
            calls <= g.calls && Refusals(oracle, calls, g.calls) == if g.ok then 0 else 1
  {
    assert Refusals(oracle, calls, calls) == 0;
  }

  lemma ExtendIterCompleteIff<T>(vec: Deque<T>, iter: seq<T>, lower: nat, oracle: Oracle, calls: nat)
    requires vec.Valid() && |vec.items| + |iter| <= ISIZE_MAX && |vec.items| + lower <= ISIZE_MAX
    ensures var e := ExtendIter(vec, iter, lower, oracle, calls);
            calls <= e.calls && (e.outcome.Complete? <==> Refusals(oracle, calls, e.calls) == 0)
  {
    hide PushItems, Refusals;
    RequestCounted(|vec.items|, vec.cap, lower, oracle, calls);
    var g := if lower > 0 then Reserve(|vec.items|, vec.cap, lower, oracle, calls) else Growth(true, vec.cap, calls);
    if g.ok {
      PushItemsCompleteIff(Deque(vec.items, g.cap), iter, oracle, g.calls);
      RefusalsSplit(oracle, calls, g.calls, ExtendIter(vec, iter, lower, oracle, calls).calls);
    }
  }

  /** An extension that fits is complete exactly when none of its requests was refused: nothing else
      stops it, and it does not go on after a refusal. */
  lemma ExtendCompleteIff<T>(vec: Deque<T>, source: Resumable<T>, lower: nat, oracle: Oracle, calls: nat)
    requires vec.Valid()
    requires |vec.items| + |source.Items()| <= ISIZE_MAX && |vec.items| + 1 + lower <= ISIZE_MAX
    ensures var e := ExtendVec(vec, source, lower, oracle, calls);
            calls <= e.calls && (e.outcome.Complete? <==> Refusals(oracle, calls, e.calls) == 0)
  {
    hide ExtendIter, Refusals;
    if source.head.None? {
      assert source.Items() == source.remainder;
      ExtendIterCompleteIff(vec, source.remainder, lower, oracle, calls);
    } else {
      var g := Reserve(|vec.items|, vec.cap, 1, oracle, calls);
      RequestCounted(|vec.items|, vec.cap, 1, oracle, calls);
      if g.ok {
        ExtendIterCompleteIff(Deque(vec.items + [source.head.value], g.cap), source.remainder, lower, oracle, g.calls);
        RefusalsSplit(oracle, calls, g.calls, ExtendVec(vec, source, lower, oracle, calls).calls);
      }
    }
  }

  // ---------------------------------------------------------------------------------------------
  // When an element is stranded

  ghost predicate Strands<T>(vec: Deque<T>, source: Resumable<T>, lower: nat, oracle: Oracle) {
    vec.Valid() && var outcome := ExtendVec(vec, source, lower, oracle, 0).outcome;
                   outcome.Stuck? && outcome.rest.head.Some?
  }

  /** Items for which there is room are pushed without a request. */
  lemma {:induction false} PushItemsFills<T>(vec: Deque<T>, iter: seq<T>, k: nat, oracle: Oracle, calls: nat)
    requires vec.Valid() && k <= |iter| && |vec.items| + k <= vec.cap
    ensures PushItems(vec, iter, oracle, calls) == PushItems(Deque(vec.items + iter[..k], vec.cap), iter[k..], oracle, calls)
    decreases k
  {
    if k == 0 {
      assert vec.items + iter[..0] == vec.items && iter[0..] == iter;
    } else {
      var next := Deque(vec.items + [iter[0]], vec.cap);
      PushItemsFills(next, iter[1..], k - 1, oracle, calls);
      assert iter[1..][k - 1..] == iter[k..];
      assert next.items + iter[1..][..k - 1] == vec.items + iter[..k];
    }
  }

  /** With nothing stranded before and a lower bound that covers the iterator, a failed extension has
      consumed nothing: the whole iterator comes back and no element is stranded. */
  lemma ReservedFirst<T>(vec: Deque<T>, iter: seq<T>, lower: nat, oracle: Oracle, calls: nat)
    requires vec.Valid() && lower >= |iter|
    ensures var e := ExtendIter(vec, iter, lower, oracle, calls);
            e.outcome.Stuck? ==> e.outcome.rest == FromRemainder(iter) && e.vec == vec
  {
    var g := if lower > 0 then Reserve(|vec.items|, vec.cap, lower, oracle, calls) else Growth(true, vec.cap, calls);
    if g.ok {
      PushItemsFills(Deque(vec.items, g.cap), iter, |iter|, oracle, g.calls);
    }
  }

  lemma StrandedBeyondBound<T>(vec: Deque<T>, iter: seq<T>, lower: nat, oracle: Oracle, calls: nat)
    requires vec.Valid()
    ensures var e := ExtendIter(vec, iter, lower, oracle, calls);
            e.outcome.Stuck? && e.outcome.rest.head.Some? ==> lower < |iter| && lower <= ISIZE_MAX
  {
    if lower >= |iter| {
      ReservedFirst(vec, iter, lower, oracle, calls);
    }
  }

  lemma ShortBoundStrands<T>(iter: seq<T>, lower: nat)
    requires lower < |iter| && lower <= ISIZE_MAX
    ensures Strands(Deque([], 0), FromRemainder(iter), lower, n => if n == 0 && lower > 0 then Granted(0) else Refused)
  {
    var oracle: Oracle := n => if n == 0 && lower > 0 then Granted(0) else Refused;
    var empty: Deque<T> := Deque([], 0);
    if lower > 0 {
      assert Reserve(0, 0, lower, oracle, 0) == Growth(true, lower, 1);
      PushItemsFills(Deque([], lower), iter, lower, oracle, 1);
      var full := Deque([] + iter[..lower], lower);
      assert !Reserve(lower, lower, 1, oracle, 1).ok;
      assert PushItems(full, iter[lower..], oracle, 1).outcome.rest.head.Some?;
    }
  }

  /** Some vector and some allocator strand an element exactly when the source brings one that was
      stranded before, or the iterator yields more than its lower bound. */
  lemma StrandsIff<T>(source: Resumable<T>, lower: nat)
    ensures (exists vec, oracle :: Strands(vec, source, lower, oracle))
       <==> source.head.Some? || (lower < |source.remainder| && lower <= ISIZE_MAX)
  {
    if source.head.Some? {
      assert Strands(Deque([], 0), source, lower, _ => Refused);
    } else {
      assert source == FromRemainder(source.remainder);
      if lower < |source.remainder| && lower <= ISIZE_MAX {
        ShortBoundStrands(source.remainder, lower);
      }
      forall vec, oracle | Strands(vec, source, lower, oracle)
        ensures lower < |source.remainder| && lower <= ISIZE_MAX
      {
        StrandedBeyondBound(vec, source.remainder, lower, oracle, 0);
      }
    }
  }

  /** A retry with the remainder alone leaves the vector complete exactly when nothing was stranded. */
  lemma VecRemainderAloneIff<T>(vec: Deque<T>, source: Resumable<T>, lower: nat, lower': nat, oracle: Oracle, calls: nat, calls': nat)
    requires vec.Valid()
    requires ExtendVec(vec, source, lower, oracle, calls).outcome.Stuck?
    requires var e := ExtendVec(vec, source, lower, oracle, calls);
             ExtendVec(e.vec, FromRemainder(e.outcome.rest.remainder), lower', oracle, calls').outcome.Complete?
    ensures var e := ExtendVec(vec, source, lower, oracle, calls);
            var rest := e.outcome.rest;
            ExtendVec(e.vec, FromRemainder(rest.remainder), lower', oracle, calls').vec.items == vec.items + source.Items()
            <==> rest.head.None?
  {
    var e := ExtendVec(vec, source, lower, oracle, calls);
    var rest := e.outcome.rest;
    ExtendConserves(vec, source, lower, oracle, calls);
    var last := ExtendVec(e.vec, FromRemainder(rest.remainder), lower', oracle, calls');
    ExtendConserves(e.vec, FromRemainder(rest.remainder), lower', oracle, calls');
    hide ExtendVec;
    assert FromRemainder(rest.remainder).Items() == rest.remainder;
    assert last.vec.items + [] == last.vec.items;
    assert |vec.items + source.Items()| == |e.vec.items| + |rest.Items()|;
    assert rest.head.Some? ==> |rest.Items()| == 1 + |rest.remainder|;
    assert rest.head.None? ==> rest.Items() == rest.remainder;
  }

  /** The documented pattern: extend from an iterator whose lower bound is exact, such as a range, and
      after every failure go on with the remainder alone.  `vecs` and `iters` are what each attempt
      started from.  Nothing is lost. */
  lemma {:induction false} ExactRetriesComplete<T>(vecs: seq<Deque<T>>, iters: seq<seq<T>>, oracles: nat -> Oracle, last: Deque<T>)
    requires |vecs| == |iters| != 0 && forall i :: 0 <= i < |vecs| ==> vecs[i].Valid()
    requires forall i :: 0 <= i < |vecs| - 1 ==> FailsInto(vecs[i], iters[i], oracles(i), vecs[i + 1], iters[i + 1])
    requires var n := |vecs| - 1;
             ExtendVec(vecs[n], FromRemainder(iters[n]), |iters[n]|, oracles(n), 0).outcome.Complete?
             && last == ExtendVec(vecs[n], FromRemainder(iters[n]), |iters[n]|, oracles(n), 0).vec
    ensures last.items == vecs[0].items + iters[0]
    decreases |vecs|
  {
    if |vecs| == 1 {
      ExtendConserves(vecs[0], FromRemainder(iters[0]), |iters[0]|, oracles(0), 0);
      assert FromRemainder(iters[0]).Items() == iters[0];
      assert last.items + [] == last.items;
    } else {
      assert FailsInto(vecs[0], iters[0], oracles(0), vecs[1], iters[1]);
      ReservedFirst(vecs[0], iters[0], |iters[0]|, oracles(0), 0);
      ExactRetriesComplete(vecs[1..], iters[1..], (i: nat) => oracles(i + 1), last);
    }
  }

  /** One failed attempt of that pattern, and what the next one starts from. */
  ghost predicate FailsInto<T>(vec: Deque<T>, iter: seq<T>, oracle: Oracle, vec': Deque<T>, iter': seq<T>) {
    vec.Valid() && var e := ExtendVec(vec, FromRemainder(iter), |iter|, oracle, 0);
                   e.outcome.Stuck? && vec' == e.vec && iter' == e.outcome.rest.remainder
  }

  method TryExtendVec<T>(vec: Deque<T>, source: Resumable<T>, lower: nat, a: Allocator)
    returns (vec': Deque<T>, outcome: Extended<T>)
    requires vec.Valid()
    modifies a`calls
    ensures Extension(vec', a.calls, outcome) == ExtendVec(vec, source, lower, a.reply, old(a.calls))
  {
    hide PushItems;
    vec' := vec;
    var iter := source.remainder;
    if source.head.Some? {
      var ok;
      ok, vec' := TryPushBack(vec', source.head.value, a);
      if !ok {
        return vec', Stuck(source);
      }
    }
    if lower > 0 {
      var ok, cap := a.TryReserve(|vec'.items|, vec'.cap, lower);
      if !ok {
        return vec', Stuck(FromRemainder(iter));
      }
      vec' := Deque(vec'.items, cap);
    }
    vec', outcome := DrainInto(vec', iter, a);
  }

  method DrainInto<T>(vec: Deque<T>, items: seq<T>, a: Allocator) returns (vec': Deque<T>, outcome: Extended<T>)
    requires vec.Valid()
    modifies a`calls
    ensures Extension(vec', a.calls, outcome) == PushItems(vec, items, a.reply, old(a.calls))
  {
    vec' := vec;
    var iter := items;
    while iter != []
      invariant vec'.Valid()
      invariant PushItems(vec', iter, a.reply, a.calls) == PushItems(vec, items, a.reply, old(a.calls))
      decreases |iter|
    {
      var item := iter[0];
      var ok;
      ok, vec' := TryPushBack(vec', item, a);
      iter := iter[1..];
      if !ok {
        return vec', Stuck(Resumable(Some(item), iter));
      }
    }
    outcome := Complete;
  }
}
