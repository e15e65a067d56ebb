/** The frequency counter of the benchmark harness, against the sorted list of its samples. */
module Counters {
  import opened Allocation

  /** A distinct duration, in nanoseconds, and how many samples had it. */
  datatype Bin = Bin(duration: nat, count: nat)

  const NANOS_LIMIT: nat := 0x1_0000_0000_0000_0000

  /** The bins as an ordered map iterates them. */
  ghost predicate Ascending(bins: seq<Bin>) {
    && (forall i, j :: 0 <= i < j < |bins| ==> bins[i].duration < bins[j].duration)
    && forall i :: 0 <= i < |bins| ==> bins[i].count > 0
  }

  ghost predicate Sorted(s: seq<nat>) {
    forall i, j :: 0 <= i < j < |s| ==> s[i] <= s[j]
  }

  function Copies(d: nat, n: nat): (s: seq<nat>)
    ensures |s| == n && forall i :: 0 <= i < n ==> s[i] == d
  {
    seq(n, i => d)
  }

  /** Every sample laid out individually. */
  function Samples(bins: seq<Bin>): seq<nat> {
    if bins == [] then [] else Copies(bins[0].duration, bins[0].count) + Samples(bins[1..])
  }

  function Added(bins: seq<Bin>, d: nat): seq<Bin> {
    if bins == [] || d < bins[0].duration then [Bin(d, 1)] + bins
    else if d == bins[0].duration then [Bin(d, bins[0].count + 1)] + bins[1..]
    else [bins[0]] + Added(bins[1..], d)
  }

  function AddedAll(samples: seq<nat>): seq<Bin> {
    if samples == [] then [] else Added(AddedAll(samples[..|samples| - 1]), samples[|samples| - 1])
  }

  lemma CopiesOneMore(d: nat, n: nat)
    ensures multiset(Copies(d, n + 1)) == multiset(Copies(d, n)) + multiset{d}
  {
    assert Copies(d, n + 1) == Copies(d, n) + [d];
  }

  lemma SamplesCons(b: Bin, rest: seq<Bin>)
    ensures Samples([b] + rest) == Copies(b.duration, b.count) + Samples(rest)
  {
    assert ([b] + rest)[1..] == rest;
  }

  lemma AscendingCons(b: Bin, rest: seq<Bin>)
    requires Ascending(rest) && b.count > 0 && (rest != [] ==> b.duration < rest[0].duration)
    ensures Ascending([b] + rest)
  {
  }

  lemma {:induction false} AddedAscending(bins: seq<Bin>, d: nat)
    requires Ascending(bins)
    ensures Ascending(Added(bins, d))
    ensures Added(bins, d) != []
    ensures Added(bins, d)[0].duration == if bins == [] then d else Min(d, bins[0].duration)
    decreases |bins|
  {
    if bins == [] || d < bins[0].duration {
      AscendingCons(Bin(d, 1), bins);
    } else {
      var rest := bins[1..];
      assert rest != [] ==> bins[0].duration < rest[0].duration;
      if d == bins[0].duration {
        AscendingCons(Bin(d, bins[0].count + 1), rest);
      } else {
        AddedAscending(rest, d);
        AscendingCons(bins[0], Added(rest, d));
      }
    }
  }

  /** Recording a sample adds exactly that sample. */
  lemma {:induction false} AddedSamples(bins: seq<Bin>, d: nat)
    ensures multiset(Samples(Added(bins, d))) == multiset(Samples(bins)) + multiset{d}
    decreases |bins|
  {
    if bins == [] || d < bins[0].duration {
      SamplesCons(Bin(d, 1), bins);
      assert Copies(d, 1) == [d];
    } else {
      var rest := bins[1..];
      SamplesCons(bins[0], rest);
      assert bins == [bins[0]] + rest;
      if d == bins[0].duration {
        SamplesCons(Bin(d, bins[0].count + 1), rest);
        CopiesOneMore(d, bins[0].count);
      } else {
        AddedSamples(rest, d);
        SamplesCons(bins[0], Added(rest, d));
      }
      hide Samples, Copies;
    }
  }

  lemma {:induction false} SamplesSorted(bins: seq<Bin>)
    requires Ascending(bins)
    ensures Sorted(Samples(bins))
    ensures forall x :: x in Samples(bins) ==> bins != [] && bins[0].duration <= x
    decreases |bins|
  {
    if bins != [] {
      SamplesSorted(bins[1..]);
      var front, rest := Copies(bins[0].duration, bins[0].count), Samples(bins[1..]);
      forall i, j | 0 <= i < j < |front + rest|
        ensures (front + rest)[i] <= (front + rest)[j]
      {
        if i < |front| <= j {
          assert rest[j - |front|] in rest;
        }
      }
    }
  }

  lemma SameHead(a: seq<nat>, b: seq<nat>)
    requires a != [] && b != [] && Sorted(a) && Sorted(b) && multiset(a) == multiset(b)
    ensures a[0] == b[0]
  {
    assert a[0] in multiset(b) && b[0] in multiset(a);
    assert a[0] in b && b[0] in a;
  }

  /** A sorted list is determined by its elements. */
  lemma {:induction false} SortedUnique(a: seq<nat>, b: seq<nat>)
    requires Sorted(a) && Sorted(b) && multiset(a) == multiset(b)
    ensures a == b
    decreases |a|
  {
    assert |a| == |multiset(a)| == |multiset(b)| == |b|;
    if a != [] {
      SameHead(a, b);
      assert a == [a[0]] + a[1..] && b == [b[0]] + b[1..];
      assert multiset(a[1..]) == multiset(a) - multiset{a[0]};
      assert multiset(b[1..]) == multiset(b) - multiset{b[0]};
      SortedUnique(a[1..], b[1..]);
    }
  }

  lemma {:induction false} AddedAllMeaning(samples: seq<nat>)
    ensures Ascending(AddedAll(samples))
    ensures multiset(Samples(AddedAll(samples))) == multiset(samples)
    decreases |samples|
  {
    if samples != [] {
      var front := samples[..|samples| - 1];
      AddedAllMeaning(front);
      AddedAscending(AddedAll(front), samples[|samples| - 1]);
      AddedSamples(AddedAll(front), samples[|samples| - 1]);
      assert samples == front + [samples[|samples| - 1]];
    }
  }

  /** After any run of recordings the counter lays out the sorted list of everything recorded. */
  lemma CounterIsTheSortedList(samples: seq<nat>, sorted: seq<nat>)
    requires Sorted(sorted) && multiset(sorted) == multiset(samples)
    ensures Samples(AddedAll(samples)) == sorted
  {
    AddedAllMeaning(samples);
    SamplesSorted(AddedAll(samples));
    SortedUnique(Samples(AddedAll(samples)), sorted);
  }

  // ---------------------------------------------------------------------------------------------
  // Statistics

  function Sum(s: seq<nat>): nat {
    if s == [] then 0 else s[0] + Sum(s[1..])
  }

  lemma {:induction false} SumConcat(a: seq<nat>, b: seq<nat>)
    ensures Sum(a + b) == Sum(a) + Sum(b)
    decreases |a|
  {
    if a == [] {
      assert a + b == b;
    } else {
      SumConcat(a[1..], b);
      assert (a + b)[1..] == a[1..] + b;
    }
  }

  lemma {:induction false} SumCopies(d: nat, n: nat)
    ensures Sum(Copies(d, n)) == d * n
    decreases n
  {
    if n > 0 {
      SumCopies(d, n - 1);
      assert Copies(d, n)[1..] == Copies(d, n - 1);
      Distribute(d, n);
    }
  }

  lemma Distribute(x: nat, n: nat)
    requires n > 0
    ensures x * n == x + x * (n - 1)
  {
  }

  lemma Scale(a: nat, b: nat, n: nat)
    requires a <= b
    ensures a * n <= b * n
  {
  }

  lemma {:induction false} SumBounds(s: seq<nat>, lo: nat, hi: nat)
    requires forall i :: 0 <= i < |s| ==> lo <= s[i] <= hi
    ensures lo * |s| <= Sum(s) <= hi * |s|
    decreases |s|
  {
    if s != [] {
      SumBounds(s[1..], lo, hi);
      Distribute(lo, |s|);
      Distribute(hi, |s|);
    }
  }

  lemma Cancel(a: nat, b: nat, n: nat)
    requires a * n < b * n
    ensures a < b
  {
    if a >= b {
      Scale(b, a, n);
    }
  }

  lemma OneMore(q: nat, n: nat)
    ensures (q + 1) * n == q * n + n
  {
  }

  lemma DivisionBounds(sum: nat, n: nat)
    requires n > 0
    ensures sum / n * n <= sum < sum / n * n + n
  {
  }

  lemma QuotientBounds(sum: nat, n: nat, lo: nat, hi: nat)
    requires n > 0 && lo * n <= sum <= hi * n
    ensures lo <= sum / n <= hi
  {
    var q := sum / n;
    DivisionBounds(sum, n);
    OneMore(q, n);
    OneMore(hi, n);
    Cancel(lo, q + 1, n);
    Cancel(q, hi + 1, n);
  }

  /** The mean, rounded down to a nanosecond. */
  function TrueMean(s: seq<nat>): nat
    requires s != []
  {
    Sum(s) / |s|
  }

  /** The middle sample, or the mean of the two middle ones. */
  function TrueMedian(s: seq<nat>): nat
    requires s != []
  {
    if |s| % 2 == 0 then (s[|s| / 2 - 1] + s[|s| / 2]) / 2 else s[|s| / 2]
  }

  /** What `mean` returns: the quotient cut down to 64 bits. */
  function ReportedMean(s: seq<nat>): nat
    requires s != []
  {
    TrueMean(s) % NANOS_LIMIT
  }

  /** What `median` returns: a single middle sample is not converted. */
  function ReportedMedian(s: seq<nat>): nat
    requires s != []
  {
    if |s| % 2 == 0 then TrueMedian(s) % NANOS_LIMIT else TrueMedian(s)
  }

  lemma TrueMeanBetween(s: seq<nat>)
    requires Sorted(s) && s != []
    ensures s[0] <= TrueMean(s) <= s[|s| - 1]
  {
    SumBounds(s, s[0], s[|s| - 1]);
    QuotientBounds(Sum(s), |s|, s[0], s[|s| - 1]);
  }

  lemma TrueMedianBetween(s: seq<nat>)
    requires Sorted(s) && s != []
    ensures s[0] <= TrueMedian(s) <= s[|s| - 1]
  {
    var m := |s| / 2;
    assert s[0] <= s[m] <= s[|s| - 1];
    if |s| % 2 == 0 {
      assert s[0] <= s[m - 1] <= s[m];
    }
  }

  /** The mean is the exact quotient rounded down. */
  lemma MeanMeaning(s: seq<nat>)
    requires s != []
    ensures TrueMean(s) * |s| <= Sum(s) < (TrueMean(s) + 1) * |s|
  {
    DivisionBounds(Sum(s), |s|);
    OneMore(TrueMean(s), |s|);
  }

  /** The median is half the sum of the two middle samples rounded down; of an odd number of samples the
      middle one is both.  Half the samples are no greater and half no less. */
  lemma MedianMeaning(s: seq<nat>)
    requires Sorted(s) && s != []
    ensures var middle := s[(|s| - 1) / 2] + s[|s| / 2]; 2 * TrueMedian(s) <= middle < 2 * TrueMedian(s) + 2
    ensures forall k :: 0 <= k < |s| / 2 ==> s[k] <= TrueMedian(s)
    ensures forall k :: |s| / 2 <= k < |s| ==> TrueMedian(s) <= s[k]
  {
    var m := |s| / 2;
    if |s| % 2 == 0 {
      assert (|s| - 1) / 2 == m - 1 && s[m - 1] <= s[m];
    } else {
      assert (|s| - 1) / 2 == m;
    }
    forall k | 0 <= k < |s|
      ensures k < m ==> s[k] <= TrueMedian(s)
      ensures k >= m ==> TrueMedian(s) <= s[k]
    {
      assert k < m ==> s[k] <= s[m - 1] <= s[m];
      assert k >= m ==> s[m] <= s[k];
    }
  }

  lemma CutDown(x: nat)
    ensures x % NANOS_LIMIT <= x && x % NANOS_LIMIT < NANOS_LIMIT
    ensures x % NANOS_LIMIT == x <==> x < NANOS_LIMIT
  {
  }

  /** The reported mean is the mean exactly when that fits into 64 bits; so is the reported median,
      which for an odd number of samples is always exact. */
  lemma ReportedExactIff(s: seq<nat>)
    requires s != []
    ensures ReportedMean(s) == TrueMean(s) <==> TrueMean(s) < NANOS_LIMIT
    ensures ReportedMedian(s) == TrueMedian(s) <==> |s| % 2 == 1 || TrueMedian(s) < NANOS_LIMIT
  {
    CutDown(TrueMean(s));
    CutDown(TrueMedian(s));
  }

  /** What is reported never exceeds the greatest sample, and is at least the least one when the
      greatest fits into 64 bits; a mean below the least sample occurs only when it was cut down. */
  lemma ReportedBetween(s: seq<nat>)
    requires Sorted(s) && s != []
    ensures ReportedMean(s) <= s[|s| - 1] && ReportedMedian(s) <= s[|s| - 1]
    ensures s[|s| - 1] < NANOS_LIMIT ==> s[0] <= ReportedMean(s) && s[0] <= ReportedMedian(s)
    ensures s[0] >= NANOS_LIMIT ==> ReportedMean(s) < s[0] && (|s| % 2 == 0 ==> ReportedMedian(s) < s[0])
  {
    TrueMeanBetween(s);
    TrueMedianBetween(s);
    CutDown(TrueMean(s));
    CutDown(TrueMedian(s));
    hide TrueMean, TrueMedian;
  }

  /** One sample of 2^64 nanoseconds: the reported mean is zero. */
  lemma LongSampleCutDown()
    ensures ReportedMean([NANOS_LIMIT]) == 0 && ReportedMedian([NANOS_LIMIT]) == NANOS_LIMIT
  {
    assert Sum([NANOS_LIMIT]) == NANOS_LIMIT + Sum([NANOS_LIMIT][1..]);
  }

  class BatchCounter {
    var bins: seq<Bin>

    ghost predicate Valid()
      reads this
    {
      Ascending(bins)
    }

    constructor ()
      ensures Valid() && bins == AddedAll([])
    {
      bins := [];
    }

    method Add(d: nat)
      requires Valid()
      modifies this
      ensures Valid()
      ensures bins == Added(old(bins), d)
      ensures multiset(Samples(bins)) == multiset(Samples(old(bins))) + multiset{d}
    {
      AddedAscending(bins, d);
      AddedSamples(bins, d);
      bins := Added(bins, d);
    }

    method Total() returns (n: nat)
      ensures n == |Samples(bins)|
    {
      n := 0;
      for i := 0 to |bins|
        invariant n + |Samples(bins[i..])| == |Samples(bins)|
      {
        assert bins[i..][1..] == bins[i + 1..];
        n := n + bins[i].count;
      }
    }

    method Least() returns (d: Option<nat>)
      requires Valid()
      ensures d == if Samples(bins) == [] then None else Some(Samples(bins)[0])
    {
      d := if bins == [] then None else Some(bins[0].duration);
    }

    method Greatest() returns (d: Option<nat>)
      requires Valid()
      ensures d == if Samples(bins) == [] then None else Some(Samples(bins)[|Samples(bins)| - 1])
    {
      d := if bins == [] then None else Some(bins[|bins| - 1].duration);
      if bins != [] {
        LastSample(bins);
      }
    }

    /** The sample of a given rank, in the order of the sorted list. */
    method AtRank(rank: nat) returns (d: Option<nat>)
      ensures d == if rank < |Samples(bins)| then Some(Samples(bins)[rank]) else None
    {
      var seen: nat := 0;
      for i := 0 to |bins|
        invariant seen <= rank
        invariant seen + |Samples(bins[i..])| == |Samples(bins)|
        invariant Samples(bins)[seen..] == Samples(bins[i..])
      {
        ghost var s, rest := Samples(bins), Samples(bins[i + 1..]);
        assert bins[i..][1..] == bins[i + 1..];
        assert s[seen..] == Copies(bins[i].duration, bins[i].count) + rest;
        if seen <= rank && rank < seen + bins[i].count {
          assert s[rank] == s[seen..][rank - seen];
          return Some(bins[i].duration);
        }
        assert s[seen + bins[i].count..] == s[seen..][bins[i].count..] == rest;
        seen := seen + bins[i].count;
      }
      d := None;
    }

    /** The middle sample, or the mean of the two middle ones. */
    method Median() returns (d: Option<nat>)
      ensures d == if Samples(bins) == [] then None else Some(ReportedMedian(Samples(bins)))
    {
      var total := Total();
      if total == 0 {
        return None;
      }
      if total % 2 == 0 {
        var lo := AtRank(total / 2 - 1);
        var hi := AtRank(total / 2);
        d := Some((lo.value + hi.value) / 2 % NANOS_LIMIT);
      } else {
        d := AtRank(total / 2);
      }
    }

    method Mean() returns (d: Option<nat>)
      ensures d == if Samples(bins) == [] then None else Some(ReportedMean(Samples(bins)))
    {
      var total := Total();
      if total == 0 {
        return None;
      }
      var sum := 0;
      for i := 0 to |bins|
        invariant sum + Sum(Samples(bins[i..])) == Sum(Samples(bins))
      {
        assert bins[i..][1..] == bins[i + 1..];
        SumConcat(Copies(bins[i].duration, bins[i].count), Samples(bins[i + 1..]));
        SumCopies(bins[i].duration, bins[i].count);
        sum := sum + bins[i].duration * bins[i].count;
      }
      d := Some(sum / total % NANOS_LIMIT);
    }
  }

  lemma {:induction false} LastSample(bins: seq<Bin>)
    requires Ascending(bins) && bins != []
    ensures Samples(bins) != [] && Samples(bins)[|Samples(bins)| - 1] == bins[|bins| - 1].duration
    decreases |bins|
  {
    if |bins| > 1 {
      LastSample(bins[1..]);
    } else {
      assert Samples(bins) == Copies(bins[0].duration, bins[0].count) + Samples([]);
    }
  }
}
