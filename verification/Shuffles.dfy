/** The scrambled operation sequences of the benchmark harness. */
module Shuffles {
  import opened Sequences

  const PERM_SIZE: nat := 10
  const NUM_OPS: nat := 5
  const COPIES: nat := PERM_SIZE / NUM_OPS
  const U64_MAX: nat := 0xFFFF_FFFF_FFFF_FFFF

  // ---------------------------------------------------------------------------------------------
  // The generator

  function Seeded(seed: bv64): bv64 {
    var state := seed + 0x9E37_79B9_7F4A_7C15;
    if state == 0 then 0x2545_F491_4F6C_DD1D else state
  }

  function Next(state: bv64): bv64 {
    var a := state ^ (state << 13);
    var b := a ^ (a >> 7);
    b ^ (b << 17)
  }

  lemma OnlyZeroShiftsToItself(x: bv64)
    ensures x == x << 13 ==> x == 0
    ensures x == x >> 7 ==> x == 0
    ensures x == x << 17 ==> x == 0
  {
  }

  lemma XorZero(x: bv64, y: bv64)
    ensures x ^ y == 0 <==> x == y
  {
  }

  /** Only zero leads to zero. */
  lemma NextZero(x: bv64)
    ensures Next(x) == 0 <==> x == 0
  {
    var a := x ^ (x << 13);
    var b := a ^ (a >> 7);
    XorZero(x, x << 13);
    XorZero(a, a >> 7);
    XorZero(b, b << 17);
    OnlyZeroShiftsToItself(x);
    OnlyZeroShiftsToItself(a);
    OnlyZeroShiftsToItself(b);
  }

  /** The first outputs of the xorshift generator with these three shifts, started at one. */
  lemma KnownOutputs()
    ensures Seeded(1) == 0x9E37_79B9_7F4A_7C16
    ensures Seeded(0x61C8_8646_80B5_83EB) == 0x2545_F491_4F6C_DD1D
    ensures Next(1) == 1082269761
    ensures Next(1082269761) == 1152992998833853505
    ensures Next(1152992998833853505) == 11177516664432764457
  {
  }

  function State(seed: bv64, steps: nat): bv64 {
    if steps == 0 then Seeded(seed) else Next(State(seed, steps - 1))
  }

  /** The state is never zero, whatever the seed. */
  lemma {:induction false} StateNeverZero(seed: bv64, steps: nat)
    ensures State(seed, steps) != 0
    decreases steps
  {
    if steps > 0 {
      StateNeverZero(seed, steps - 1);
      NextZero(State(seed, steps - 1));
    }
  }

  // ---------------------------------------------------------------------------------------------
  // The shuffle

  function Repeated(op: nat, n: nat): seq<nat> {
    seq(n, i => op)
  }

  /** Each of the first `ops` operations, `COPIES` times over. */
  function Canonical(ops: nat): (s: seq<nat>)
    ensures |s| == ops * COPIES
  {
    if ops == 0 then [] else Canonical(ops - 1) + Repeated(ops - 1, COPIES)
  }

  function Swapped(s: seq<nat>, i: nat, j: nat): seq<nat>
    requires i < |s| && j < |s|
  {
    s[i := s[j]][j := s[i]]
  }

  function Remainder(x: nat, n: nat): (k: nat)
    requires n > 0
    ensures k < n
  {
    x % n
  }

  function Pick(state: bv64, n: nat): (k: nat)
    requires n > 0
    ensures k < n
  {
    hide Remainder;
    Remainder(state as nat, n)
  }

  lemma RemainderMeaning(x: nat, n: nat)
    requires n > 0
    ensures LeftOver(Remainder(x, n), x, n)
  {
    assert x / n * n + Remainder(x, n) == x;
  }

  /** Dividing `x` by `n` leaves `r` over. */
  ghost predicate LeftOver(r: nat, x: nat, n: nat) {
    r < n && exists q: nat :: q * n + r == x
  }

  lemma PickMeaning(state: bv64, n: nat)
    requires n > 0
    ensures LeftOver(Pick(state, n), state as nat, n)
  {
    hide Remainder, LeftOver;
    RemainderMeaning(state as nat, n);
  }

  /** The swaps at positions `i`, `i - 1`, down to 1, with the generator in the given state. */
  function Shuffled(s: seq<nat>, i: nat, state: bv64): (r: seq<nat>)
    requires i < |s|
    decreases i
  {
    if i == 0 then s else Shuffled(Swapped(s, i, Pick(Next(state), i + 1)), i - 1, Next(state))
  }

  function Scramble(seed: bv64): seq<nat> {
    Shuffled(Canonical(NUM_OPS), NUM_OPS * COPIES - 1, Seeded(seed))
  }

  lemma SwappedSame(s: seq<nat>, i: nat, j: nat)
    requires i < |s| && j < |s|
    ensures multiset(Swapped(s, i, j)) == multiset(s)
  {
  }

  lemma {:induction false} ShuffledSame(s: seq<nat>, i: nat, state: bv64)
    requires i < |s|
    ensures |Shuffled(s, i, state)| == |s|
    ensures multiset(Shuffled(s, i, state)) == multiset(s)
    decreases i
  {
    if i > 0 {
      var j := Pick(Next(state), i + 1);
      SwappedSame(s, i, j);
      ShuffledSame(Swapped(s, i, j), i - 1, Next(state));
    }
  }

  lemma {:induction false} RepeatedCount(op: nat, n: nat, x: nat)
    ensures multiset(Repeated(op, n))[x] == if x == op then n else 0
    decreases n
  {
    if n > 0 {
      RepeatedCount(op, n - 1, x);
      assert Repeated(op, n) == Repeated(op, n - 1) + [op];
    }
  }

  lemma {:induction false} CanonicalCount(ops: nat, x: nat)
    ensures multiset(Canonical(ops))[x] == if x < ops then COPIES else 0
    decreases ops
  {
    if ops > 0 {
      CanonicalCount(ops - 1, x);
      RepeatedCount(ops - 1, COPIES, x);
    }
  }

  /** For every seed each of the five operations appears exactly twice, and nothing else does. */
  lemma ScrambleIsBalanced(seed: bv64, x: nat)
    ensures |Scramble(seed)| == PERM_SIZE
    ensures multiset(Scramble(seed))[x] == if x < NUM_OPS then COPIES else 0
  {
    hide Canonical, Seeded, Shuffled;
    ShuffledSame(Canonical(NUM_OPS), NUM_OPS * COPIES - 1, Seeded(seed));
    CanonicalCount(NUM_OPS, x);
  }

  // ---------------------------------------------------------------------------------------------
  // Each choice of swaps gives an ordering of its own, and every ordering arises

  /** The swap chosen for position `i` is `picks[i - 1]`. */
  ghost predicate Choices(picks: seq<nat>) {
    forall k :: 0 <= k < |picks| ==> picks[k] <= k + 1
  }

  /** The shuffle with its choices made explicit. */
  ghost function ShuffledBy(s: seq<nat>, picks: seq<nat>): (r: seq<nat>)
    requires |picks| < |s| && Choices(picks)
    ensures |r| == |s|
    decreases |picks|
  {
    if picks == [] then s
    else
      var i := |picks|;
      ShuffledBy(Swapped(s, i, picks[i - 1]), picks[..i - 1])
  }

  ghost function Picks(state: bv64, i: nat): (picks: seq<nat>)
    ensures |picks| == i && Choices(picks)
    decreases i
  {
    if i == 0 then [] else Picks(Next(state), i - 1) + [Pick(Next(state), i + 1)]
  }

  /** The generator's shuffle is the one with the generator's choices. */
  lemma {:induction false} ShuffledByPicks(s: seq<nat>, i: nat, state: bv64)
    requires i < |s|
    ensures Shuffled(s, i, state) == ShuffledBy(s, Picks(state, i))
    decreases i
  {
    if i > 0 {
      hide Next, Pick, Picks, Swapped;
      var j := Pick(Next(state), i + 1);
      ShuffledByPicks(Swapped(s, i, j), i - 1, Next(state));
      PicksStep(state, i);
    } else {
      NoChoices(s);
    }
  }

  lemma PicksStep(state: bv64, i: nat)
    requires i > 0
    ensures Picks(state, i)[i - 1] == Pick(Next(state), i + 1)
    ensures Picks(state, i)[..i - 1] == Picks(Next(state), i - 1)
  {
    hide Next, Pick;
  }

  lemma {:induction false} ShuffledRest(s: seq<nat>, picks: seq<nat>, k: nat)
    requires |picks| < |s| && Choices(picks) && |picks| < k < |s|
    ensures ShuffledBy(s, picks)[k] == s[k]
    decreases |picks|
  {
    if picks != [] {
      var i := |picks|;
      ShuffledRest(Swapped(s, i, picks[i - 1]), picks[..i - 1], k);
    }
  }

  lemma ShuffledTop(s: seq<nat>, picks: seq<nat>)
    requires |picks| < |s| && Choices(picks) && picks != []
    ensures ShuffledBy(s, picks)[|picks|] == s[picks[|picks| - 1]]
  {
    var i := |picks|;
    ShuffledRest(Swapped(s, i, picks[i - 1]), picks[..i - 1], i);
  }

  lemma SwappedDistinct(s: seq<nat>, i: nat, j: nat)
    requires i < |s| && j < |s| && NoRepeats(s)
    ensures NoRepeats(Swapped(s, i, j))
  {
  }

  /** Different choices give different orderings. */
  lemma {:induction false} ChoicesDiffer(s: seq<nat>, p: seq<nat>, q: seq<nat>)
    requires |p| == |q| < |s| && Choices(p) && Choices(q) && NoRepeats(s)
    requires ShuffledBy(s, p) == ShuffledBy(s, q)
    ensures p == q
    decreases |p|
  {
    if p != [] {
      var i := |p|;
      ShuffledTop(s, p);
      ShuffledTop(s, q);
      assert p[i - 1] == q[i - 1];
      SwappedDistinct(s, i, p[i - 1]);
      ChoicesDiffer(Swapped(s, i, p[i - 1]), p[..i - 1], q[..i - 1]);
      assert p == p[..i - 1] + [p[i - 1]] && q == q[..i - 1] + [q[i - 1]];
    }
  }

  lemma FoundInFront(s: seq<nat>, t: seq<nat>, i: nat)
    requires |s| == |t| && i < |s| && multiset(s) == multiset(t) && s[i + 1..] == t[i + 1..]
    ensures exists j :: 0 <= j <= i && s[j] == t[i]
  {
    var front, front' := s[..i + 1], t[..i + 1];
    assert s == front + s[i + 1..] && t == front' + t[i + 1..];
    assert multiset(front) == multiset(s) - multiset(s[i + 1..]);
    assert multiset(front') == multiset(t) - multiset(t[i + 1..]);
    assert front'[i] == t[i] && multiset(front')[t[i]] > 0;
    assert t[i] in multiset(front);
    var j :| 0 <= j < |front| && front[j] == t[i];
    assert s[j] == t[i];
  }

  /** Every ordering of the elements arises from some choices. */
  lemma {:induction false} ChoicesReach(s: seq<nat>, t: seq<nat>, i: nat) returns (picks: seq<nat>)
    requires |s| == |t| && i < |s| && multiset(s) == multiset(t) && s[i + 1..] == t[i + 1..]
    ensures |picks| == i && Choices(picks) && ShuffledBy(s, picks) == t
    decreases i
  {
    hide Swapped, Choices, ShuffledBy;
    if i == 0 {
      OnlyOneLeft(s, t);
      picks := [];
      NoChoices(s);
    } else {
      var j := PlaceOf(s, t, i);
      var next := Swapped(s, i, j);
      SwappedSame(s, i, j);
      SwappedInto(s, t, i, j);
      var front := ChoicesReach(next, t, i - 1);
      picks := front + [j];
      ChoicesMore(s, front, j);
    }
  }

  lemma PlaceOf(s: seq<nat>, t: seq<nat>, i: nat) returns (j: nat)
    requires |s| == |t| && i < |s| && multiset(s) == multiset(t) && s[i + 1..] == t[i + 1..]
    ensures j <= i && s[j] == t[i]
  {
    FoundInFront(s, t, i);
    j :| 0 <= j <= i && s[j] == t[i];
  }

  lemma OnlyOneLeft(s: seq<nat>, t: seq<nat>)
    requires |s| == |t| > 0 && multiset(s) == multiset(t) && s[1..] == t[1..]
    ensures s == t
  {
    FoundInFront(s, t, 0);
    assert s == [s[0]] + s[1..] && t == [t[0]] + t[1..];
  }

  lemma NoChoices(s: seq<nat>)
    requires s != []
    ensures Choices([]) && ShuffledBy(s, []) == s
  {
  }

  lemma SwappedInto(s: seq<nat>, t: seq<nat>, i: nat, j: nat)
    requires |s| == |t| && j <= i < |s| && s[j] == t[i] && s[i + 1..] == t[i + 1..]
    ensures Swapped(s, i, j)[i..] == t[i..]
  {
    assert t[i..] == [t[i]] + t[i + 1..];
    assert Swapped(s, i, j)[i + 1..] == s[i + 1..];
  }

  lemma ChoicesMore(s: seq<nat>, front: seq<nat>, j: nat)
    requires |front| + 1 < |s| && Choices(front) && j <= |front| + 1
    ensures Choices(front + [j])
    ensures ShuffledBy(s, front + [j]) == ShuffledBy(Swapped(s, |front| + 1, j), front)
  {
    assert (front + [j])[..|front|] == front;
  }

  method WorkflowPermutation(seed: bv64) returns (order: array<nat>)
    ensures fresh(order) && order[..] == Scramble(seed)
  {
    hide Canonical, Seeded, Next, Pick;
    var canonical := Canonical(NUM_OPS);
    order := new nat[|canonical|](i requires 0 <= i < |canonical| => canonical[i]);
    assert order[..] == canonical;
    var state := Seeded(seed);
    var i := order.Length - 1;
    while i > 0
      invariant 0 <= i < order.Length == |canonical|
      invariant Shuffled(order[..], i, state) == Scramble(seed)
      decreases i
    {
      ghost var before := order[..];
      state := Next(state);
      var j := Pick(state, i + 1);
      order[i], order[j] := order[j], order[i];
      assert order[..] == Swapped(before, i, j);
      i := i - 1;
    }
  }

  // ---------------------------------------------------------------------------------------------
  // Distinct scrambles

  function SeedAt(round: nat): bv64 {
    if round == 0 then 1 else SeedAt(round - 1) + 1
  }

  /** What has been kept after some rounds: no sequence twice, and exactly the scrambles of the seeds
      drawn so far. */
  ghost predicate Drawn(kept: seq<seq<nat>>, rounds: nat) {
    && NoRepeats(kept)
    && (forall p :: p in kept ==> exists r :: 0 <= r < rounds && p == Scramble(SeedAt(r)))
    && (forall r :: 0 <= r < rounds ==> Scramble(SeedAt(r)) in kept)
  }

  /** Sequences are kept in the order in which they were first drawn. */
  ghost predicate DrawnInOrder(kept: seq<seq<nat>>, rounds: nat) {
    forall i, j :: 0 <= i < j < |kept| ==> Sooner(kept[i], kept[j], rounds)
  }

  ghost predicate Sooner(p: seq<nat>, q: seq<nat>, rounds: nat) {
    exists r :: 0 <= r < rounds && DrawnBefore(p, q, r)
  }

  /** In round `r` the first is drawn, and the second has not been drawn yet. */
  ghost predicate DrawnBefore(p: seq<nat>, q: seq<nat>, r: nat) {
    p == Scramble(SeedAt(r)) && forall k :: 0 <= k <= r ==> Scramble(SeedAt(k)) != q
  }

  lemma NewestLast(kept: seq<seq<nat>>, rounds: nat, i: nat)
    requires Drawn(kept, rounds) && i < |kept| && Scramble(SeedAt(rounds)) !in kept
    ensures Sooner(kept[i], Scramble(SeedAt(rounds)), rounds)
  {
    hide Scramble, SeedAt;
    assert kept[i] in kept;
    var r :| 0 <= r < rounds && kept[i] == Scramble(SeedAt(r));
    assert DrawnBefore(kept[i], Scramble(SeedAt(rounds)), r);
  }

  lemma SoonerStill(p: seq<nat>, q: seq<nat>, rounds: nat)
    requires Sooner(p, q, rounds)
    ensures Sooner(p, q, rounds + 1)
  {
    hide DrawnBefore;
  }

  lemma OrderedMore(kept: seq<seq<nat>>, rounds: nat)
    requires Drawn(kept, rounds) && DrawnInOrder(kept, rounds)
    ensures var p := Scramble(SeedAt(rounds)); DrawnInOrder(if p in kept then kept else kept + [p], rounds + 1)
  {
    hide Scramble, SeedAt, Drawn, Sooner;
    var p := Scramble(SeedAt(rounds));
    var more := if p in kept then kept else kept + [p];
    forall i, j | 0 <= i < j < |more|
      ensures Sooner(more[i], more[j], rounds + 1)
    {
      if j == |kept| {
        NewestLast(kept, rounds, i);
      }
      SoonerStill(more[i], more[j], rounds);
    }
  }

  lemma NoneDrawn()
    ensures Drawn([], 0) && DrawnInOrder([], 0) && SeedAt(0) == 1
  {
  }

  lemma DrawnMore(kept: seq<seq<nat>>, rounds: nat)
    requires Drawn(kept, rounds)
    ensures SeedAt(rounds + 1) == SeedAt(rounds) + 1
    ensures var p := Scramble(SeedAt(rounds)); Drawn(if p in kept then kept else kept + [p], rounds + 1)
  {
    hide Scramble;
  }

  function SaturatingMul(a: nat, b: nat): nat {
    if a * b <= U64_MAX then a * b else U64_MAX
  }

  function Factorial(n: nat): nat {
    if n == 0 then 1 else n * Factorial(n - 1)
  }

  method SaturatingFactorial(n: nat) returns (f: nat)
    requires Factorial(n) <= U64_MAX
    ensures f == Factorial(n)
  {
    f := 1;
    var k := 2;
    while k <= n
      invariant 2 <= k && (k <= n + 1 || k == 2)
      invariant f == Factorial(k - 1)
    {
      FactorialGrows(k, n);
      f := SaturatingMul(f, k);
      k := k + 1;
    }
  }

  lemma {:induction false} FactorialGrows(k: nat, n: nat)
    requires k <= n
    ensures 0 < Factorial(k) <= Factorial(n)
    decreases n
  {
    if k < n {
      FactorialGrows(k, n - 1);
      assert Factorial(n - 1) <= n * Factorial(n - 1);
    } else if 0 < n {
      FactorialGrows(n - 1, n - 1);
    }
  }

  lemma SmallFactorials()
    ensures Factorial(PERM_SIZE) == 3628800 && Factorial(COPIES) == 2
  {
    assert Factorial(5) == 120;
    assert Factorial(8) == 8 * (7 * (6 * Factorial(5)));
    assert Factorial(10) == 10 * (9 * Factorial(8));
  }

  /** `workflow_permutation_count`: the multinomial coefficient, computed without saturating. */
  method WorkflowPermutationCount() returns (count: nat)
    ensures count == 113400
  {
    SmallFactorials();
    var numerator := SaturatingFactorial(PERM_SIZE);
    var f := SaturatingFactorial(COPIES);
    var denominator := f * f * f * f * f;
    count := numerator / denominator;
  }

  // ---------------------------------------------------------------------------------------------
  // How many orderings there are

  function Total(counts: seq<nat>): nat {
    if counts == [] then 0 else counts[0] + Total(counts[1..])
  }

  /** One copy of operation `i` less. */
  function Less(counts: seq<nat>, i: nat): seq<nat>
    requires i < |counts| && counts[i] > 0
  {
    counts[i := counts[i] - 1]
  }

  lemma {:induction false} TotalLess(counts: seq<nat>, i: nat)
    requires i < |counts| && counts[i] > 0
    ensures Total(Less(counts, i)) == Total(counts) - 1
    decreases |counts|
  {
    if i == 0 {
      assert Less(counts, 0)[1..] == counts[1..];
    } else {
      TotalLess(counts[1..], i - 1);
      assert Less(counts, i)[1..] == Less(counts[1..], i - 1);
    }
  }

  ghost function Prefixed(x: nat, tails: set<seq<nat>>): set<seq<nat>> {
    set t | t in tails :: [x] + t
  }

  /** All sequences with the given number of copies of each operation. */
  ghost function Orderings(counts: seq<nat>): set<seq<nat>>
    decreases Total(counts), |counts| + 1
  {
    if Total(counts) == 0 then {[]} else OrderingsFrom(counts, 0)
  }

  /** Those that begin with operation `i` or a later one. */
  ghost function OrderingsFrom(counts: seq<nat>, i: nat): set<seq<nat>>
    requires i <= |counts|
    decreases Total(counts), |counts| - i
  {
    if i == |counts| then {}
    else if counts[i] == 0 then OrderingsFrom(counts, i + 1)
    else
      TotalLess(counts, i);
      Prefixed(i, Orderings(Less(counts, i))) + OrderingsFrom(counts, i + 1)
  }

  ghost predicate HasCounts(s: seq<nat>, counts: seq<nat>) {
    forall x: nat :: multiset(s)[x] == if x < |counts| then counts[x] else 0
  }

  lemma {:induction false} NoCopies(counts: seq<nat>)
    ensures Total(counts) == 0 <==> forall i :: 0 <= i < |counts| ==> counts[i] == 0
    decreases |counts|
  {
    if counts != [] {
      NoCopies(counts[1..]);
      if forall i :: 0 <= i < |counts| ==> counts[i] == 0 {
        assert forall i :: 0 <= i < |counts[1..]| ==> counts[1..][i] == 0;
      }
      if Total(counts) == 0 {
        forall i | 0 <= i < |counts|
          ensures counts[i] == 0
        {
          assert i > 0 ==> counts[1..][i - 1] == 0;
        }
      }
    }
  }

  lemma HeadCount(s: seq<nat>, counts: seq<nat>)
    requires s != []
    ensures HasCounts(s, counts) <==> s[0] < |counts| && counts[s[0]] > 0 && HasCounts(s[1..], Less(counts, s[0]))
  {
    assert s == [s[0]] + s[1..];
    assert multiset(s) == multiset{s[0]} + multiset(s[1..]);
    if HasCounts(s, counts) {
      assert multiset(s)[s[0]] > 0;
      forall x: nat
        ensures multiset(s[1..])[x] == if x < |counts| then Less(counts, s[0])[x] else 0
      {
        assert multiset(s)[x] == if x < |counts| then counts[x] else 0;
      }
    }
    if s[0] < |counts| && counts[s[0]] > 0 && HasCounts(s[1..], Less(counts, s[0])) {
      forall x: nat
        ensures multiset(s)[x] == if x < |counts| then counts[x] else 0
      {
        assert multiset(s[1..])[x] == if x < |counts| then Less(counts, s[0])[x] else 0;
      }
    }
  }

  lemma {:induction false} OrderingsMembers(counts: seq<nat>, s: seq<nat>)
    ensures s in Orderings(counts) <==> HasCounts(s, counts)
    decreases Total(counts), |counts| + 1
  {
    NoCopies(counts);
    if Total(counts) == 0 {
      if s == [] {
        assert multiset(s) == multiset{};
      } else {
        assert multiset(s)[s[0]] > 0;
      }
    } else {
      OrderingsFromMembers(counts, 0, s);
      NoEmptyOrdering(counts);
    }
  }

  lemma NoEmptyOrdering(counts: seq<nat>)
    ensures HasCounts([], counts) ==> forall i :: 0 <= i < |counts| ==> counts[i] == 0
  {
    var none: seq<nat> := [];
    assert forall x: nat :: multiset(none)[x] == 0;
  }

  lemma {:induction false} OrderingsFromMembers(counts: seq<nat>, i: nat, s: seq<nat>)
    requires i <= |counts|
    ensures s in OrderingsFrom(counts, i) <==> s != [] && s[0] >= i && HasCounts(s, counts)
    decreases Total(counts), |counts| - i
  {
    if s != [] {
      HeadCount(s, counts);
    }
    if i < |counts| {
      OrderingsFromMembers(counts, i + 1, s);
      if counts[i] > 0 {
        TotalLess(counts, i);
        if s != [] {
          OrderingsMembers(Less(counts, i), s[1..]);
        }
        PrefixedMembers(i, Orderings(Less(counts, i)), s);
      }
    }
    hide HasCounts, Orderings, Prefixed;
  }

  lemma PrefixedMembers(x: nat, tails: set<seq<nat>>, s: seq<nat>)
    ensures s in Prefixed(x, tails) <==> s != [] && s[0] == x && s[1..] in tails
  {
    if s != [] && s[0] == x && s[1..] in tails {
      assert s == [x] + s[1..];
    }
  }

  lemma {:induction false} PrefixedSize(x: nat, tails: set<seq<nat>>)
    ensures |Prefixed(x, tails)| == |tails|
    decreases tails
  {
    if tails != {} {
      var t :| t in tails;
      var rest := tails - {t};
      PrefixedSize(x, rest);
      assert Prefixed(x, tails) == Prefixed(x, rest) + {[x] + t};
      PrefixedMembers(x, rest, [x] + t);
      assert ([x] + t)[1..] == t;
    }
  }

  /** The product of the factorials. */
  function Factorials(counts: seq<nat>): nat {
    if counts == [] then 1 else Factorial(counts[0]) * Factorials(counts[1..])
  }

  lemma {:induction false} FactorialsLess(counts: seq<nat>, i: nat)
    requires i < |counts| && counts[i] > 0
    ensures Factorials(counts) == counts[i] * Factorials(Less(counts, i))
    decreases |counts|
  {
    var rest := counts[1..];
    if i == 0 {
      assert Less(counts, 0)[1..] == rest;
      MulAssoc(counts[0], Factorial(counts[0] - 1), Factorials(rest));
    } else {
      FactorialsLess(rest, i - 1);
      assert Less(counts, i)[1..] == Less(rest, i - 1);
      MulSwap(Factorial(counts[0]), counts[i], Factorials(Less(rest, i - 1)));
    }
  }

  lemma MulAssoc(a: nat, b: nat, c: nat)
    ensures (a * b) * c == a * (b * c)
  {
  }

  lemma MulSwap(a: nat, b: nat, c: nat)
    ensures a * (b * c) == b * (a * c)
  {
  }

  lemma MulAdd(a: nat, b: nat, c: nat)
    ensures (a + b) * c == a * c + b * c
  {
  }

  /** The multinomial law. */
  lemma {:induction false} OrderingsSize(counts: seq<nat>)
    ensures |Orderings(counts)| * Factorials(counts) == Factorial(Total(counts))
    decreases Total(counts), |counts| + 1
  {
    if Total(counts) == 0 {
      NoCopies(counts);
      FactorialsOfNone(counts);
    } else {
      hide Orderings, Factorials;
      OrderingsFromSize(counts, 0);
      assert counts[0..] == counts;
      OrderingsSome(counts);
    }
  }

  lemma OrderingsSome(counts: seq<nat>)
    requires Total(counts) > 0
    ensures Orderings(counts) == OrderingsFrom(counts, 0)
  {
  }

  lemma {:induction false} FactorialsOfNone(counts: seq<nat>)
    requires forall i :: 0 <= i < |counts| ==> counts[i] == 0
    ensures Factorials(counts) == 1
    decreases |counts|
  {
    if counts != [] {
      FactorialsOfNone(counts[1..]);
    }
  }

  lemma {:induction false} OrderingsFromSize(counts: seq<nat>, i: nat)
    requires i <= |counts| && Total(counts) > 0
    ensures |OrderingsFrom(counts, i)| * Factorials(counts) == Total(counts[i..]) * Factorial(Total(counts) - 1)
    decreases Total(counts), |counts| - i
  {
    hide Orderings, Factorials, Factorial, Prefixed;
    if i < |counts| {
      OrderingsFromSize(counts, i + 1);
      TotalFrom(counts, i);
      if counts[i] > 0 {
        TotalLess(counts, i);
        OrderingsSize(Less(counts, i));
        hide OrderingsFrom, Total, Less;
        OneOperation(counts, i);
      }
    }
  }

  lemma TotalFrom(counts: seq<nat>, i: nat)
    requires i < |counts|
    ensures Total(counts[i..]) == counts[i] + Total(counts[i + 1..])
  {
    assert counts[i..][1..] == counts[i + 1..];
  }

  lemma OneOperation(counts: seq<nat>, i: nat)
    requires i < |counts| && counts[i] > 0 && Total(counts) > 0
    requires |Orderings(Less(counts, i))| * Factorials(Less(counts, i)) == Factorial(Total(counts) - 1)
    requires |OrderingsFrom(counts, i + 1)| * Factorials(counts) == Total(counts[i + 1..]) * Factorial(Total(counts) - 1)
    ensures |OrderingsFrom(counts, i)| * Factorials(counts)
         == (counts[i] + Total(counts[i + 1..])) * Factorial(Total(counts) - 1)
  {
    hide Orderings, Factorials, Factorial, OrderingsFrom, Prefixed, Less, Total;
    var here, later := Prefixed(i, Orderings(Less(counts, i))), OrderingsFrom(counts, i + 1);
    PrefixedSize(i, Orderings(Less(counts, i)));
    FactorialsLess(counts, i);
    Apart(counts, i);
    Combined(|here|, |later|, counts[i], Factorials(Less(counts, i)), Factorials(counts), Total(counts[i + 1..]),
             Factorial(Total(counts) - 1));
  }

  lemma Combined(here: nat, later: nat, n: nat, less: nat, all: nat, rest: nat, f: nat)
    requires here * less == f && all == n * less && later * all == rest * f
    ensures (here + later) * all == (n + rest) * f
  {
    MulSwap(here, n, less);
    MulAdd(here, later, all);
    MulAdd(n, rest, f);
  }

  /** Sequences with different first operations are different. */
  lemma Apart(counts: seq<nat>, i: nat)
    requires i < |counts| && counts[i] > 0
    ensures var here, later := Prefixed(i, Orderings(Less(counts, i))), OrderingsFrom(counts, i + 1);
            OrderingsFrom(counts, i) == here + later && |here + later| == |here| + |later|
  {
    var here, later := Prefixed(i, Orderings(Less(counts, i))), OrderingsFrom(counts, i + 1);
    forall s | s in here
      ensures s !in later
    {
      PrefixedMembers(i, Orderings(Less(counts, i)), s);
      OrderingsFromMembers(counts, i + 1, s);
    }
    hide Prefixed, Orderings;
    assert here !! later;
  }

  /** Two copies of each operation. */
  function Balanced(ops: nat): seq<nat> {
    seq(ops, i => COPIES)
  }

  function PowerOfTwo(n: nat): nat {
    if n == 0 then 1 else 2 * PowerOfTwo(n - 1)
  }

  lemma {:induction false} BalancedTotal(ops: nat)
    ensures Total(Balanced(ops)) == ops * COPIES && Factorials(Balanced(ops)) == PowerOfTwo(ops)
    decreases ops
  {
    if ops > 0 {
      BalancedTotal(ops - 1);
      assert Balanced(ops)[1..] == Balanced(ops - 1);
      SmallFactorials();
    }
  }

  lemma ThirtyTwo()
    ensures PowerOfTwo(5) == 32
  {
    assert PowerOfTwo(3) == 8;
  }

  /** The computed count is the number of sequences in which each operation appears exactly twice. */
  lemma OrderingsCounted(s: seq<nat>)
    ensures |Orderings(Balanced(NUM_OPS))| == 113400
    ensures s in Orderings(Balanced(NUM_OPS)) <==> forall x: nat :: multiset(s)[x] == if x < NUM_OPS then COPIES else 0
  {
    hide Orderings, Factorials, Factorial, Total, PowerOfTwo;
    OrderingsMembers(Balanced(NUM_OPS), s);
    OrderingsSize(Balanced(NUM_OPS));
    BalancedTotal(NUM_OPS);
    SmallFactorials();
    ThirtyTwo();
  }

  /** So no run of the loop can keep more sequences than that. */
  lemma DrawnWithin(kept: seq<seq<nat>>, rounds: nat)
    requires Drawn(kept, rounds)
    ensures |kept| <= 113400
  {
    hide Orderings, Scramble;
    var all := Orderings(Balanced(NUM_OPS));
    forall p: seq<nat> | p in kept
      ensures p in all
    {
      var r :| 0 <= r < rounds && p == Scramble(SeedAt(r));
      forall x: nat
        ensures multiset(p)[x] == if x < NUM_OPS then COPIES else 0
      {
        ScrambleIsBalanced(SeedAt(r), x);
      }
      OrderingsCounted(p);
    }
    OrderingsCounted([]);
    DistinctWithin(kept, all);
  }

  lemma {:induction false} DistinctWithin<T>(s: seq<T>, all: set<T>)
    requires NoRepeats(s) && forall x :: x in s ==> x in all
    ensures |s| <= |all|
    decreases |s|
  {
    if s != [] {
      DistinctWithin(s[1..], all - {s[0]});
    }
  }

  /** The redraw loop, stopped after at most `limit` rounds.  Asking for more sequences than there are
      orderings panics before the loop; otherwise, when it has enough, it returns exactly `count`
      different sequences. */
  method GenerateWorkflowPerms(count: nat, limit: nat) returns (panicked: bool, kept: seq<seq<nat>>, rounds: nat)
    ensures panicked <==> count > 113400
    ensures Drawn(kept, rounds) && |kept| <= count && rounds <= limit
    ensures panicked || |kept| == count || rounds == limit
    ensures DrawnInOrder(kept, rounds)
    ensures kept != [] && |kept| == count ==> 0 < rounds && kept[count - 1] == Scramble(SeedAt(rounds - 1))
  {
    hide Drawn, Scramble, SeedAt, DrawnInOrder;
    NoneDrawn();
    kept, rounds := [], 0;
    var total := WorkflowPermutationCount();
    panicked := total < count;
    if panicked {
      return;
    }
    var used := {};
    var seed: bv64 := 1;
    while |kept| < count && rounds < limit
      invariant rounds <= limit && |kept| <= count
      invariant seed == SeedAt(rounds)
      invariant forall p :: p in used <==> p in kept
      invariant Drawn(kept, rounds) && DrawnInOrder(kept, rounds)
      invariant kept != [] && |kept| == count ==> 0 < rounds && kept[count - 1] == Scramble(SeedAt(rounds - 1))
      decreases limit - rounds
    {
      var order := WorkflowPermutation(seed);
      var p := order[..];
      DrawnMore(kept, rounds);
      OrderedMore(kept, rounds);
      if p !in used {
        used := used + {p};
        kept := kept + [p];
      }
      seed := seed + 1;
      rounds := rounds + 1;
    }
  }
}
