/** The sharded map as an object: fallible insertion, resumable extension and shrinking in place. */
module DashMaps {
  import opened Allocation
  import opened Recovery
  import opened Shards

  function InsertAll<K(==), V>(m: map<K, V>, pairs: seq<(K, V)>): map<K, V>
    decreases |pairs|
  {
    if pairs == [] then m else InsertAll(m[pairs[0].0 := pairs[0].1], pairs[1..])
  }

  lemma {:induction false} InsertAllConcat<K, V>(m: map<K, V>, a: seq<(K, V)>, b: seq<(K, V)>)
    ensures InsertAll(m, a + b) == InsertAll(InsertAll(m, a), b)
    decreases |a|
  {
    if a == [] {
      assert a + b == b;
    } else {
      InsertAllConcat(m[a[0].0 := a[0].1], a[1..], b);
      assert (a + b)[1..] == a[1..] + b;
    }
  }

  lemma InsertAllSnoc<K, V>(m: map<K, V>, a: seq<(K, V)>, p: (K, V))
    ensures InsertAll(m, a + [p]) == InsertAll(m, a)[p.0 := p.1]
  {
    InsertAllConcat(m, a, [p]);
    assert [p][1..] == [];
  }

  lemma InsertAllTake<K, V>(m: map<K, V>, a: seq<(K, V)>, n: nat)
    requires n < |a|
    ensures InsertAll(m, a[..n + 1]) == InsertAll(m, a[..n])[a[n].0 := a[n].1]
  {
    InsertAllSnoc(m, a[..n], a[n]);
    assert a[..n + 1] == a[..n] + [a[n]];
  }

  /** One attempt to extend: a prefix of the items went in, and what is handed back is the rest. */
  ghost predicate Attempt<K, V>(before: map<K, V>, source: Resumable<(K, V)>, after: map<K, V>, r: Extended<(K, V)>) {
    match r
    case Complete => after == InsertAll(before, source.Items())
    case Stuck(rest) =>
      && rest.head.Some?
      && |rest.Items()| <= |source.Items()|
      && var n := |source.Items()| - |rest.Items()|;
         source.Items()[n..] == rest.Items() && after == InsertAll(before, source.Items()[..n])
  }

  lemma InsertAllNone<K, V>(m: map<K, V>, a: seq<(K, V)>)
    ensures InsertAll(m, a[..0]) == m
  {
  }

  lemma CompleteAfter<K, V>(before: map<K, V>, source: Resumable<(K, V)>, after: map<K, V>, n: nat)
    requires n == |source.Items()| && after == InsertAll(before, source.Items()[..n])
    ensures Attempt(before, source, after, Complete)
  {
    assert source.Items()[..n] == source.Items();
  }

  lemma StuckAfter<K, V>(before: map<K, V>, source: Resumable<(K, V)>, after: map<K, V>, n: nat, pair: (K, V), iter: seq<(K, V)>)
    requires n < |source.Items()| && source.Items()[n] == pair && source.Items()[n + 1..] == iter
    requires after == InsertAll(before, source.Items()[..n])
    ensures Attempt(before, source, after, Stuck(Resumable(Some(pair), iter)))
  {
    assert source.Items()[n..] == [pair] + iter;
  }

  /** Retrying with whatever was handed back, as often as it takes, ends with the map that inserting
      every item of the original source in order would have produced. */
  lemma {:induction false} RetriesInsertAll<K, V>(maps: seq<map<K, V>>, sources: seq<Resumable<(K, V)>>)
    requires |maps| == |sources| + 1 && sources != []
    requires forall i :: 0 <= i < |sources| - 1 ==> Attempt(maps[i], sources[i], maps[i + 1], Stuck(sources[i + 1]))
    requires Attempt(maps[|sources| - 1], sources[|sources| - 1], maps[|sources|], Complete)
    ensures maps[|sources|] == InsertAll(maps[0], sources[0].Items())
    decreases |sources|
  {
    if |sources| > 1 {
      RetriesInsertAll(maps[1..], sources[1..]);
      var items := sources[0].Items();
      var n := |items| - |sources[1].Items()|;
      assert Attempt(maps[0], sources[0], maps[1], Stuck(sources[1]));
      InsertAllConcat(maps[0], items[..n], items[n..]);
      assert items == items[..n] + items[n..];
    }
  }

  /** Each item is reserved for on its own, so a failed attempt strands an item: retrying with the
      remainder alone, which is what `into_remainder` leaves, skips exactly that one. */
  lemma RemainderAloneSkipsOne<K, V>(before: map<K, V>, source: Resumable<(K, V)>, mid: map<K, V>,
                                     rest: Resumable<(K, V)>, after: map<K, V>)
    requires Attempt(before, source, mid, Stuck(rest))
    requires Attempt(mid, FromRemainder(rest.remainder), after, Complete)
    ensures var items, n := source.Items(), |source.Items()| - |rest.Items()|;
            items[n] == rest.head.value && after == InsertAll(before, items[..n] + items[n + 1..])
  {
    var items, n := source.Items(), |source.Items()| - |rest.Items()|;
    assert rest.Items() == [rest.head.value] + rest.remainder;
    assert items[n] == items[n..][0] && items[n + 1..] == items[n..][1..] == rest.remainder;
    assert FromRemainder(rest.remainder).Items() == [] + rest.remainder == rest.remainder;
    InsertAllConcat(before, items[..n], items[n + 1..]);
  }

  ghost predicate HasKey<K, V>(pairs: seq<(K, V)>, key: K) {
    exists i :: 0 <= i < |pairs| && pairs[i].0 == key
  }

  lemma HasKeyTail<K, V>(pairs: seq<(K, V)>, key: K)
    requires pairs != []
    ensures HasKey(pairs, key) <==> pairs[0].0 == key || HasKey(pairs[1..], key)
  {
    if pairs[0].0 != key && HasKey(pairs, key) {
      var i :| 0 <= i < |pairs| && pairs[i].0 == key;
      assert pairs[1..][i - 1].0 == key;
    }
  }

  lemma {:induction false} UntouchedKey<K, V>(m: map<K, V>, pairs: seq<(K, V)>, key: K)
    requires !HasKey(pairs, key)
    ensures key in InsertAll(m, pairs) <==> key in m
    ensures key in m ==> InsertAll(m, pairs)[key] == m[key]
    decreases |pairs|
  {
    if pairs != [] {
      HasKeyTail(pairs, key);
      UntouchedKey(m[pairs[0].0 := pairs[0].1], pairs[1..], key);
    }
  }

  lemma {:induction false} OverwrittenKey<K, V>(m: map<K, V>, pairs: seq<(K, V)>, key: K, value: V)
    requires HasKey(pairs, key)
    ensures InsertAll(m[key := value], pairs) == InsertAll(m, pairs)
    decreases |pairs|
  {
    var first, rest := pairs[0], pairs[1..];
    HasKeyTail(pairs, key);
    if first.0 == key {
      assert m[key := value][first.0 := first.1] == m[first.0 := first.1];
    } else {
      OverwrittenKey(m[first.0 := first.1], rest, key, value);
      assert m[key := value][first.0 := first.1] == m[first.0 := first.1][key := value];
    }
  }

  /** Leaving out a first pair makes no difference exactly when its key comes again or the map already
      holds it. */
  lemma FirstPairMatters<K, V>(m: map<K, V>, pair: (K, V), rest: seq<(K, V)>)
    ensures InsertAll(m, rest) == InsertAll(m[pair.0 := pair.1], rest)
       <==> HasKey(rest, pair.0) || (pair.0 in m && m[pair.0] == pair.1)
  {
    if HasKey(rest, pair.0) {
      OverwrittenKey(m, rest, pair.0, pair.1);
    } else {
      UntouchedKey(m, rest, pair.0);
      UntouchedKey(m[pair.0 := pair.1], rest, pair.0);
      if pair.0 in m && m[pair.0] == pair.1 {
        assert m[pair.0 := pair.1] == m;
      }
    }
  }

  /** Such a retry nevertheless ends with the full map exactly when the stranded key comes again in the
      remainder, or the map already held the stranded pair. */
  lemma RemainderAloneSufficesIff<K, V>(before: map<K, V>, source: Resumable<(K, V)>, mid: map<K, V>,
                                        rest: Resumable<(K, V)>, after: map<K, V>)
    requires Attempt(before, source, mid, Stuck(rest))
    requires Attempt(mid, FromRemainder(rest.remainder), after, Complete)
    ensures var pair := rest.head.value;
            after == InsertAll(before, source.Items())
            <==> HasKey(rest.remainder, pair.0) || (pair.0 in mid && mid[pair.0] == pair.1)
  {
    var pair := rest.head.value;
    StrandedParts(before, source, mid, rest);
    RemainderParts(mid, rest.remainder, after);
    hide Attempt, InsertAll, HasKey;
    FirstPairMatters(mid, pair, rest.remainder);
    InsertAllFirst(mid, pair, rest.remainder);
  }

  lemma StrandedParts<K, V>(before: map<K, V>, source: Resumable<(K, V)>, mid: map<K, V>, rest: Resumable<(K, V)>)
    requires Attempt(before, source, mid, Stuck(rest))
    ensures InsertAll(before, source.Items()) == InsertAll(mid, [rest.head.value] + rest.remainder)
  {
    hide InsertAll;
    var items, n := source.Items(), |source.Items()| - |rest.Items()|;
    assert items == items[..n] + items[n..];
    InsertAllConcat(before, items[..n], items[n..]);
  }

  lemma RemainderParts<K, V>(mid: map<K, V>, remainder: seq<(K, V)>, after: map<K, V>)
    requires Attempt(mid, FromRemainder(remainder), after, Complete)
    ensures after == InsertAll(mid, remainder)
  {
    hide InsertAll;
    assert [] + remainder == remainder;
  }

  lemma InsertAllFirst<K, V>(m: map<K, V>, pair: (K, V), rest: seq<(K, V)>)
    ensures InsertAll(m, [pair] + rest) == InsertAll(m[pair.0 := pair.1], rest)
  {
    assert ([pair] + rest)[1..] == rest;
  }

  /** Two items and an allocator that refuses the first: the retry completes without it. */
  lemma RemainderAloneInput(items: seq<(nat, nat)>, rest: Resumable<(nat, nat)>)
    requires items == [(1, 10), (2, 20)] && rest == Resumable(Some((1, 10)), [(2, 20)])
    ensures Attempt(map[], FromRemainder(items), map[], Stuck(rest))
    ensures Attempt(map[], FromRemainder(rest.remainder), map[2 := 20], Complete)
    ensures map[2 := 20] != InsertAll(map[], items)
  {
    var source := FromRemainder(items);
    assert source.Items() == [] + items == items;
    assert rest.Items() == [(1, 10)] + [(2, 20)] == items[0..];
    InsertAllNone<nat, nat>(map[], items);
    assert items == [(1, 10)] + [(2, 20)];
    InsertAllFirst(map[], (1, 10), [(2, 20)]);
    InsertAllFirst(map[], (2, 20), []);
    InsertAllFirst(map[1 := 10], (2, 20), []);
    assert [(2, 20)] == [(2, 20)] + [];
    assert FromRemainder(rest.remainder).Items() == [] + rest.remainder == [(2, 20)];
    assert 1 in InsertAll(map[], items);
  }

  // ---------------------------------------------------------------------------------------------
  // All entries of a sharded map

  function AllEntries<K, V>(shards: seq<Table<K, V>>): seq<(K, V)> {
    if shards == [] then [] else AllEntries(shards[..|shards| - 1]) + shards[|shards| - 1].entries
  }

  lemma {:induction false} InsertAllIsUnion<K, V>(m: map<K, V>, entries: seq<(K, V)>)
    requires DistinctKeys(entries)
    ensures InsertAll(m, entries) == m + AsMap(entries)
    decreases |entries|
  {
    if entries != [] {
      var first, rest := entries[0], entries[1..];
      InsertAllIsUnion(m[first.0 := first.1], rest);
      AsMapLookup(rest, first.0);
      assert m[first.0 := first.1] + AsMap(rest) == m + AsMap(rest)[first.0 := first.1];
    }
  }

  /** Inserting all entries of a well-routed map into an empty one gives the map again. */
  lemma {:induction false} AllEntriesRebuild<K, V>(route: K -> nat, shards: seq<Table<K, V>>)
    requires WellRouted(route, shards)
    ensures InsertAll(map[], AllEntries(shards)) == Contents(shards)
    decreases |shards|
  {
    if shards != [] {
      var n := |shards| - 1;
      AllEntriesRebuild(route, shards[..n]);
      assert ShardOk(route, shards[n], n);
      InsertAllConcat(map[], AllEntries(shards[..n]), shards[n].entries);
      InsertAllIsUnion(Contents(shards[..n]), shards[n].entries);
    }
  }

  lemma {:induction false} EmptyShards<K, V>(shards: seq<Table<K, V>>)
    requires forall i :: 0 <= i < |shards| ==> shards[i].entries == []
    ensures Contents(shards) == map[]
    decreases |shards|
  {
    if shards != [] {
      EmptyShards(shards[..|shards| - 1]);
    }
  }

  /** One attempt to extend from a slice: a prefix went in and the rest of the slice comes back. */
  ghost predicate SliceAttempt<K, V>(before: map<K, V>, other: seq<(K, V)>, after: map<K, V>, rest: seq<(K, V)>) {
    && |rest| <= |other|
    && var i := |other| - |rest|;
       rest == other[i..] && after == InsertAll(before, other[..i])
  }

  /** Retrying with the rest of the slice, as often as it takes, ends with the map that inserting the
      whole slice in order would have produced. */
  lemma {:induction false} SliceRetriesInsertAll<K, V>(maps: seq<map<K, V>>, slices: seq<seq<(K, V)>>)
    requires |maps| == |slices| != 0 && slices[|slices| - 1] == []
    requires forall i :: 0 <= i < |slices| - 1 ==> SliceAttempt(maps[i], slices[i], maps[i + 1], slices[i + 1])
    ensures maps[|maps| - 1] == InsertAll(maps[0], slices[0])
    decreases |slices|
  {
    if |slices| > 1 {
      assert SliceAttempt(maps[0], slices[0], maps[1], slices[1]);
      SliceRetriesInsertAll(maps[1..], slices[1..]);
      var i := |slices[0]| - |slices[1]|;
      InsertAllConcat(maps[0], slices[0][..i], slices[0][i..]);
      assert slices[0] == slices[0][..i] + slices[0][i..];
    }
  }

  datatype Insertion<K, V> = Inserted(replaced: Option<V>) | GaveBack(key: K, value: V)

  datatype UniqueInsertion<K, V> = Added | ReserveFailed(key: K, value: V) | AlreadyExists(key: K, value: V)

  datatype SliceError = CloneFailed | OutOfMemory

  datatype ExtendedFromSlice<T> = AllCopied | StuckAt(rest: seq<T>, error: SliceError)

  /** Some table cannot hold `additional` more entries, whatever the allocator says. */
  ghost predicate Crowded<K, V>(shards: seq<Table<K, V>>, additional: nat) {
    exists j :: 0 <= j < |shards| && |shards[j].entries| + additional > ISIZE_MAX
  }

  /** The first `k` tables have been replaced: same entries, capacity asked for exactly their number in
      one of the requests from `from` on and before `to`; the others are as they were. */
  ghost predicate Rebuilt<K, V>(before: seq<Table<K, V>>, after: seq<Table<K, V>>, oracle: Oracle, from: nat, to: nat, k: nat) {
    && k <= |before| == |after|
    && (forall j :: 0 <= j < k ==> RebuiltTable(before[j], after[j], oracle, from, to))
    && (forall j :: k <= j < |before| ==> after[j] == before[j])
  }

  ghost predicate RebuiltTable<K, V>(before: Table<K, V>, after: Table<K, V>, oracle: Oracle, from: nat, to: nat) {
    && multiset(after.entries) == multiset(before.entries)
    && exists c :: from <= c <= to && Fresh(after.cap, |before.entries|, oracle, c, to)
  }

  ghost predicate Fresh(cap: nat, count: nat, oracle: Oracle, c: nat, to: nat) {
    Reserve(0, 0, count, oracle, c).ok && Reserve(0, 0, count, oracle, c).cap == cap && Reserve(0, 0, count, oracle, c).calls <= to
  }

  /** No table but `i` has changed, and that one has not given up room. */
  ghost predicate OthersSame<K, V>(before: seq<Table<K, V>>, after: seq<Table<K, V>>, i: nat) {
    && i < |before| == |after|
    && (forall j :: 0 <= j < |before| && j != i ==> after[j] == before[j])
    && before[i].cap <= after[i].cap
  }

  /** A table and whether dropping it drops its entries; a table of `ManuallyDrop` entries does not. */
  datatype Holder<K, V> = Holder(table: Table<K, V>, drops: bool)

  /** The entries that are dropped, and how often, when two holders go away. */
  ghost function Dropped<K, V>(a: Holder<K, V>, b: Holder<K, V>): multiset<(K, V)> {
    (if a.drops then multiset(a.table.entries) else multiset{}) + (if b.drops then multiset(b.table.entries) else multiset{})
  }

  class DashMap<K(==, !new), V(==)> {
    const route: K -> nat
    var shards: seq<Table<K, V>>

    ghost predicate Valid()
      reads this
    {
      (forall k :: route(k) < |shards|) && WellRouted(route, shards)
    }

    ghost function Map(): map<K, V>
      reads this
    {
      Contents(shards)
    }

    /** `with_hasher`: no shard owns memory yet. */
    constructor (route: K -> nat, shardCount: nat)
      requires forall k :: route(k) < shardCount
      ensures Valid() && Map() == map[]
      ensures this.route == route && |shards| == shardCount
      ensures forall i :: 0 <= i < |shards| ==> shards[i] == Table([], 0)
    {
      this.route := route;
      shards := seq(shardCount, _ => Table([], 0));
      new;
      EmptyShards(shards);
    }

    /** `try_reserve_shards`: every shard gets the room, or the loop stops at the first refusal; the
        map itself never changes. */
    method TryReserveShards(additional: nat, a: Allocator) returns (ok: bool)
      requires Valid()
      modifies this, a`calls
      ensures Valid() && Map() == old(Map()) && |shards| == old(|shards|)
      ensures forall j :: 0 <= j < |shards| ==> shards[j].entries == old(shards)[j].entries
      ensures ok ==> forall j :: 0 <= j < |shards| ==> |shards[j].entries| + additional <= shards[j].cap
      ensures forall j :: 0 <= j < |shards| ==> old(shards)[j].cap <= shards[j].cap
      ensures a.calls >= old(a.calls)
      ensures !ok ==> SomeRefused(a.reply, old(a.calls), a.calls) || Crowded(shards, additional)
    {
      hide Contents;
      var i := 0;
      while i < |shards|
        invariant 0 <= i <= |shards| == |old(shards)| && Valid() && Map() == old(Map())
        invariant forall j :: 0 <= j < |shards| ==> shards[j].entries == old(shards)[j].entries
        invariant forall j :: 0 <= j < i ==> |shards[j].entries| + additional <= shards[j].cap
        invariant forall j :: 0 <= j < |shards| ==> old(shards)[j].cap <= shards[j].cap
        invariant a.calls >= old(a.calls)
      {
        assert ShardOk(route, shards[i], i);
        var cap;
        ok, cap := a.TryReserve(|shards[i].entries|, shards[i].cap, additional);
        if !ok {
          return;
        }
        ReplaceShard(route, shards, i, shards[i].(cap := cap));
        shards := shards[i := shards[i].(cap := cap)];
        i := i + 1;
      }
      ok := true;
    }

    /** `try_collect_with_hasher`: `hint` is the size the iterator announced. */
    static method TryCollectWithHasher(items: seq<(K, V)>, hint: nat, route: K -> nat, shardCount: nat, a: Allocator)
      returns (ok: bool, out: DashMap<K, V>)
      requires forall k :: route(k) < shardCount
      modifies a`calls
      ensures fresh(out) && out.Valid()
      ensures ok ==> out.Map() == InsertAll(map[], items)
      ensures ok ==> forall j :: 0 <= j < |out.shards| ==> hint <= out.shards[j].cap
      ensures !ok ==> SomeRefused(a.reply, old(a.calls), a.calls) || hint > ISIZE_MAX || Crowded(out.shards, 1)
    {
      out := new DashMap(route, shardCount);
      ok := true;
      if hint > 0 {
        ok := out.TryReserveShards(hint, a);
        if !ok {
          return;
        }
      }
      var i := 0;
      InsertAllNone(out.Map(), items);
      while i < |items|
        invariant 0 <= i <= |items| && out.Valid() && fresh(out) && ok && a.calls >= old(a.calls)
        invariant out.Map() == InsertAll(map[], items[..i])
        invariant forall j :: 0 <= j < |out.shards| ==> hint <= out.shards[j].cap
      {
        var one := out.TryInsertGiveBack(items[i].0, items[i].1, a);
        if one.GaveBack? {
          return false, out;
        }
        InsertAllTake(map[], items, i);
        i := i + 1;
      }
      assert items[..i] == items;
    }

    /** `try_clone`: `clones(k)` says whether the k-th clone, of a key or of a value, succeeds.  A copy
        that is returned is the same map, whatever shards it is spread over. */
    method TryClone(clones: nat -> bool, route': K -> nat, shardCount: nat, a: Allocator)
      returns (ok: bool, out: DashMap<K, V>)
      requires Valid() && forall k :: route'(k) < shardCount
      modifies a`calls
      ensures fresh(out) && out.Valid()
      ensures ok ==> out.Map() == Map() && forall k :: 0 <= k < 2 * |AllEntries(shards)| ==> clones(k)
      ensures !ok ==> SomeRefused(a.reply, old(a.calls), a.calls) || Crowded(out.shards, 1)
                      || exists k :: 0 <= k < 2 * |AllEntries(shards)| && !clones(k)
    {
      hide InsertAll, Contents, AllEntries;
      out := new DashMap(route', shardCount);
      ghost var items := AllEntries(shards);
      ghost var seen := 0;
      var cloned := 0;
      AllEntriesRebuild(route, shards);
      InsertAllNone(out.Map(), items);
      var rest := AllEntries(shards);
      while rest != []
        invariant 0 <= seen <= |items| && items[seen..] == rest && cloned == 2 * seen
        invariant out.Valid() && fresh(out) && a.calls >= old(a.calls)
        invariant out.Map() == InsertAll(map[], items[..seen])
        invariant forall k :: 0 <= k < cloned ==> clones(k)
        decreases |rest|
      {
        var (key, value) := rest[0];
        var entry, shard, slot := out.TryEntry(key, a);
        if !entry || !clones(cloned) || !clones(cloned + 1) {
          return false, out;
        }
        cloned := cloned + 2;
        out.Write(key, value, shard, slot);
        InsertAllTake(map[], items, seen);
        rest, seen := rest[1..], seen + 1;
      }
      assert items[..seen] == items;
      ok := true;
    }

    /** Reserve one slot in the key's shard and look the key up; on failure nothing has changed. */
    method TryEntry(key: K, a: Allocator) returns (ok: bool, shard: nat, slot: nat)
      requires Valid()
      modifies this, a`calls
      ensures Valid() && Map() == old(Map()) && |shards| == old(|shards|)
      ensures shard == route(key)
      ensures var g := Reserve(|old(shards)[shard].entries|, old(shards)[shard].cap, 1, a.reply, old(a.calls));
              ok == g.ok && a.calls == g.calls
      ensures !ok ==> shards == old(shards)
      ensures OthersSame(old(shards), shards, shard) && shards[shard].entries == old(shards)[shard].entries
      ensures ok ==> |shards[shard].entries| < shards[shard].cap
                     && slot == Find(shards[shard].entries, key)
    {
      shard, slot := route(key), 0;
      assert ShardOk(route, shards[shard], shard);
      var table := shards[shard];
      var cap;
      ok, cap := a.TryReserve(|table.entries|, table.cap, 1);
      if ok {
        ReplaceShard(route, shards, shard, table.(cap := cap));
        shards := shards[shard := table.(cap := cap)];
        slot := Find(table.entries, key);
      }
    }

    /** The insertion itself: an occupied slot gets the new value, a vacant one a new entry.  There is
        always room, so nothing is allocated. */
    method Write(key: K, value: V, shard: nat, slot: nat)
      requires Valid() && shard == route(key) && slot == Find(shards[shard].entries, key)
      requires |shards[shard].entries| < shards[shard].cap
      modifies this
      ensures Valid() && Map() == old(Map())[key := value]
      ensures OthersSame(old(shards), shards, shard) && shards[shard].cap == old(shards)[shard].cap
    {
      var table := shards[shard];
      assert ShardOk(route, table, shard);
      var entries := if slot < |table.entries| then table.entries[slot := (table.entries[slot].0, value)]
                     else table.entries + [(key, value)];
      InsertInShard(route, shards, key, value, table.(entries := entries));
      shards := shards[shard := table.(entries := entries)];
    }

    method TryInsertGiveBack(key: K, value: V, a: Allocator) returns (r: Insertion<K, V>)
      requires Valid()
      modifies this, a`calls
      ensures Valid()
      ensures var t := old(shards)[route(key)];
              var g := Reserve(|t.entries|, t.cap, 1, a.reply, old(a.calls));
              r.Inserted? == g.ok && a.calls == g.calls
      ensures r.Inserted? ==> Map() == old(Map())[key := value]
                              && r.replaced == if key in old(Map()) then Some(old(Map())[key]) else None
      ensures r.GaveBack? ==> Map() == old(Map()) && shards == old(shards) && r == GaveBack(key, value)
      ensures OthersSame(old(shards), shards, route(key))
    {
      var ok, shard, slot := TryEntry(key, a);
      if !ok {
        return GaveBack(key, value);
      }
      ContentsLookup(route, shards, key);
      AsMapLookup(shards[shard].entries, key);
      r := Inserted(if slot < |shards[shard].entries| then Some(shards[shard].entries[slot].1) else None);
      Write(key, value, shard, slot);
    }

    method TryInsertUnique(key: K, value: V, a: Allocator) returns (r: UniqueInsertion<K, V>)
      requires Valid()
      modifies this, a`calls
      ensures Valid()
      ensures var t := old(shards)[route(key)];
              var g := Reserve(|t.entries|, t.cap, 1, a.reply, old(a.calls));
              r.ReserveFailed? == !g.ok && a.calls == g.calls
      ensures r.Added? ==> key !in old(Map()) && Map() == old(Map())[key := value]
      ensures r.AlreadyExists? ==> key in old(Map()) && Map() == old(Map()) && r == AlreadyExists(key, value)
      ensures r.ReserveFailed? ==> Map() == old(Map()) && shards == old(shards) && r == ReserveFailed(key, value)
      ensures OthersSame(old(shards), shards, route(key))
    {
      var ok, shard, slot := TryEntry(key, a);
      if !ok {
        return ReserveFailed(key, value);
      }
      ContentsLookup(route, shards, key);
      AsMapLookup(shards[shard].entries, key);
      if slot < |shards[shard].entries| {
        return AlreadyExists(key, value);
      }
      Write(key, value, shard, slot);
      r := Added;
    }

    /** `TryExtend::try_extend`: consumes the source item by item; the first item that cannot be
        inserted comes back as the head of a resumable. */
    method TryExtend(source: Resumable<(K, V)>, a: Allocator) returns (r: Extended<(K, V)>)
      requires Valid()
      modifies this, a`calls
      ensures Valid() && Attempt(old(Map()), source, Map(), r)
      ensures r.Stuck? ==> SomeRefused(a.reply, old(a.calls), a.calls) || Crowded(shards, 1)
      ensures a.calls >= old(a.calls) && (r.Complete? ==> Refusals(a.reply, old(a.calls), a.calls) == 0)
    {
      hide InsertAll, Contents, Attempt;
      ghost var items := source.Items();
      var iter := source.remainder;
      ghost var done := 0;
      InsertAllNone(Map(), items);
      if source.head.Some? {
        var pair := source.head.value;
        var one := TryInsertGiveBack(pair.0, pair.1, a);
        if one.GaveBack? {
          StuckAfter(old(Map()), source, Map(), 0, pair, iter);
          return Stuck(Resumable(Some((one.key, one.value)), iter));
        }
        InsertAllTake(old(Map()), items, 0);
        assert Refusals(a.reply, a.calls, a.calls) == 0;
        done := 1;
      }
      while iter != []
        invariant Valid() && 0 <= done <= |items| && items[done..] == iter && a.calls >= old(a.calls)
        invariant Map() == InsertAll(old(Map()), items[..done])
        invariant Refusals(a.reply, old(a.calls), a.calls) == 0
        decreases |iter|
      {
        var pair := iter[0];
        iter := iter[1..];
        var one := TryInsertGiveBack(pair.0, pair.1, a);
        if one.GaveBack? {
          StuckAfter(old(Map()), source, Map(), done, pair, iter);
          return Stuck(Resumable(Some((one.key, one.value)), iter));
        }
        InsertAllTake(old(Map()), items, done);
        done := done + 1;
      }
      CompleteAfter(old(Map()), source, Map(), done);
      r := Complete;
    }

    /** `TryExtendFromSlice::try_extend_from_slice`: `keyClones(i)` and `valueClones(i)` say whether
        cloning the i-th key and value succeeds. */
    method TryExtendFromSlice(other: seq<(K, V)>, keyClones: nat -> bool, valueClones: nat -> bool, a: Allocator)
      returns (r: ExtendedFromSlice<(K, V)>)
      requires Valid()
      modifies this, a`calls
      ensures Valid()
      ensures SliceAttempt(old(Map()), other, Map(), if r.AllCopied? then [] else r.rest)
      ensures r.StuckAt? ==>
                r.rest != []
                && var i := |other| - |r.rest|; (r.error.CloneFailed? <==> !(keyClones(i) && valueClones(i)))
      ensures r.StuckAt? && r.error.OutOfMemory? ==> SomeRefused(a.reply, old(a.calls), a.calls) || Crowded(shards, 1)
      ensures forall k :: 0 <= k < |other| - (if r.AllCopied? then 0 else |r.rest|) ==> keyClones(k) && valueClones(k)
    {
      var i := 0;
      while i < |other|
        invariant 0 <= i <= |other| && Valid() && a.calls >= old(a.calls)
        invariant Map() == InsertAll(old(Map()), other[..i])
        invariant forall k :: 0 <= k < i ==> keyClones(k) && valueClones(k)
      {
        if !keyClones(i) || !valueClones(i) {
          return StuckAt(other[i..], CloneFailed);
        }
        var one := TryInsertGiveBack(other[i].0, other[i].1, a);
        if one.GaveBack? {
          return StuckAt(other[i..], OutOfMemory);
        }
        InsertAllTake(old(Map()), other, i);
        i := i + 1;
      }
      assert other[..i] == other;
      r := AllCopied;
    }

    /** `try_shrink_to_fit`: every shard's entries move to a fresh table.  Only a refused request stops
        the loop, between shards. */
    method TryShrinkToFit(a: Allocator) returns (ok: bool)
      requires Valid()
      modifies this, a`calls
      ensures Valid() && Map() == old(Map())
      ensures old(a.calls) <= a.calls
      ensures ok ==> Rebuilt(old(shards), shards, a.reply, old(a.calls), a.calls, |old(shards)|)
      ensures !ok ==> (exists k :: 0 <= k < |old(shards)| && Rebuilt(old(shards), shards, a.reply, old(a.calls), a.calls, k))
                      && old(a.calls) < a.calls && a.reply(a.calls - 1).Refused?
    {
      var i := 0;
      while i < |shards|
        invariant 0 <= i <= |shards| == |old(shards)| && Valid() && Map() == old(Map())
        invariant old(a.calls) <= a.calls
        invariant Rebuilt(old(shards), shards, a.reply, old(a.calls), a.calls, i)
      {
        ghost var asked := a.calls;
        assert ShardOk(route, shards[i], i);
        var count := |shards[i].entries|;
        var cap;
        ok, cap := a.TryReserve(0, 0, count);
        RebuiltStill(old(shards), shards, a.reply, old(a.calls), asked, a.calls, i);
        if !ok {
          return;
        }
        assert Fresh(cap, count, a.reply, asked, a.calls);
        var slot, _ := RebuildShard(Holder(shards[i], true), cap);
        ReplaceShard(route, shards, i, slot.table);
        shards := shards[i := slot.table];
        i := i + 1;
      }
      ok := true;
    }

    /** One shard, its lock held: the entries move to a table that does not drop them while the old one
        still does; then the two change roles.  At every point each entry would be dropped once. */
    static method RebuildShard(shard: Holder<K, V>, cap: nat) returns (slot: Holder<K, V>, dehydrated: Holder<K, V>)
      requires shard.drops && |shard.table.entries| <= cap <= ISIZE_MAX
      ensures slot == Holder(Table(shard.table.entries, cap), true)
      ensures dehydrated == Holder(shard.table, false)
      ensures Dropped(slot, dehydrated) == multiset(shard.table.entries)
    {
      var entries := shard.table.entries;
      var made := Holder(Table([], cap), false);
      var copyOk := true;
      var i := 0;
      while i < |entries| && copyOk
        invariant 0 <= i <= |entries| && copyOk
        invariant made == Holder(Table(entries[..i], cap), false)
        invariant Dropped(shard, made) == multiset(entries)
      {
        if |made.table.entries| < made.table.cap {
          assert entries[..i + 1] == entries[..i] + [entries[i]];
          made := made.(table := made.table.(entries := made.table.entries + [entries[i]]));
          i := i + 1;
        } else {
          copyOk := false;
        }
      }
      assert entries[..i] == entries;
      slot, dehydrated := made.(drops := true), shard.(drops := false);
    }
  }

  /** Later requests do not matter. */
  lemma RebuiltStill<K, V>(before: seq<Table<K, V>>, after: seq<Table<K, V>>, oracle: Oracle, from: nat, to: nat, to': nat, k: nat)
    requires Rebuilt(before, after, oracle, from, to, k) && to <= to'
    ensures Rebuilt(before, after, oracle, from, to', k)
  {
    forall j | 0 <= j < k
      ensures RebuiltTable(before[j], after[j], oracle, from, to')
    {
      assert RebuiltTable(before[j], after[j], oracle, from, to);
      var c :| from <= c <= to && Fresh(after[j].cap, |before[j].entries|, oracle, c, to);
      assert Fresh(after[j].cap, |before[j].entries|, oracle, c, to');
    }
  }
}
