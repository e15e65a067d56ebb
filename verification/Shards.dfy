/** The tables of a sharded map: routing, lookup, and the one map they stand for. */
module Shards {
  import opened Allocation

  /** A hash table: its entries in iteration order and the number it can hold without growing. */
  datatype Table<K, V> = Table(entries: seq<(K, V)>, cap: nat) {
    ghost predicate Fits() {
      |entries| <= cap <= ISIZE_MAX
    }
  }

  /** Where the key sits, or the length when it is absent. */
  function Find<K(==), V>(entries: seq<(K, V)>, key: K): (i: nat)
    ensures i <= |entries|
    ensures i < |entries| ==> entries[i].0 == key
    ensures forall j :: 0 <= j < i ==> entries[j].0 != key
  {
    if entries == [] then 0
    else if entries[0].0 == key then 0
    else 1 + Find(entries[1..], key)
  }

  function AsMap<K(==), V>(entries: seq<(K, V)>): (m: map<K, V>) {
    if entries == [] then map[] else AsMap(entries[1..])[entries[0].0 := entries[0].1]
  }

  ghost predicate DistinctKeys<K, V>(entries: seq<(K, V)>) {
    forall i, j :: 0 <= i < j < |entries| ==> entries[i].0 != entries[j].0
  }

  /** The entry update of a map insertion: replace the value in place, or append. */
  function Put<K(==), V>(entries: seq<(K, V)>, key: K, value: V): seq<(K, V)> {
    var i := Find(entries, key);
    if i < |entries| then entries[i := (entries[i].0, value)] else entries + [(key, value)]
  }

  lemma {:induction false} AsMapLookup<K, V>(entries: seq<(K, V)>, key: K)
    ensures key in AsMap(entries) <==> Find(entries, key) < |entries|
    ensures key in AsMap(entries) ==> AsMap(entries)[key] == entries[Find(entries, key)].1
  {
    if entries != [] {
      AsMapLookup(entries[1..], key);
    }
  }

  lemma FindUnique<K, V>(entries: seq<(K, V)>, i: nat)
    requires DistinctKeys(entries) && i < |entries|
    ensures Find(entries, entries[i].0) == i
  {
  }

  lemma PutEntries<K, V>(entries: seq<(K, V)>, key: K, value: V)
    requires DistinctKeys(entries)
    ensures DistinctKeys(Put(entries, key, value))
    ensures forall i :: 0 <= i < |Put(entries, key, value)| ==>
              Put(entries, key, value)[i].0 == key || Put(entries, key, value)[i] in entries
  {
  }

  lemma PutFind<K, V>(entries: seq<(K, V)>, key: K, value: V, other: K)
    requires DistinctKeys(entries)
    ensures var put := Put(entries, key, value);
            if other == key then Find(put, other) < |put| && put[Find(put, other)].1 == value
            else (Find(put, other) < |put| <==> Find(entries, other) < |entries|)
                 && (Find(put, other) < |put| ==> put[Find(put, other)] == entries[Find(entries, other)])
  {
    var put := Put(entries, key, value);
    var i := Find(entries, key);
    PutEntries(entries, key, value);
    if other == key {
      assert put[i] == (key, value);
      FindUnique(put, i);
    } else {
      var j := Find(entries, other);
      if j < |entries| {
        assert put[j] == entries[j];
        FindUnique(put, j);
      }
    }
  }

  lemma PutIsInsert<K(!new), V>(entries: seq<(K, V)>, key: K, value: V)
    requires DistinctKeys(entries)
    ensures AsMap(Put(entries, key, value)) == AsMap(entries)[key := value]
  {
    var put := Put(entries, key, value);
    forall other
      ensures other in AsMap(put) <==> other in AsMap(entries)[key := value]
      ensures other in AsMap(put) ==> AsMap(put)[other] == AsMap(entries)[key := value][other]
    {
      AsMapLookup(put, other);
      AsMapLookup(entries, other);
      PutFind(entries, key, value, other);
    }
  }

  // ---------------------------------------------------------------------------------------------
  // The whole map

  /** Every key sits in the shard its hash selects, once, and no table is over its capacity. */
  ghost predicate WellRouted<K, V>(route: K -> nat, shards: seq<Table<K, V>>) {
    forall i :: 0 <= i < |shards| ==> ShardOk(route, shards[i], i)
  }

  ghost predicate ShardOk<K, V>(route: K -> nat, table: Table<K, V>, i: nat) {
    && table.Fits()
    && DistinctKeys(table.entries)
    && forall j :: 0 <= j < |table.entries| ==> route(table.entries[j].0) == i
  }

  function Contents<K(==), V>(shards: seq<Table<K, V>>): map<K, V> {
    if shards == [] then map[] else Contents(shards[..|shards| - 1]) + AsMap(shards[|shards| - 1].entries)
  }

  lemma {:induction false} ContentsLookup<K, V>(route: K -> nat, shards: seq<Table<K, V>>, key: K)
    requires WellRouted(route, shards)
    ensures key in Contents(shards) <==> route(key) < |shards| && key in AsMap(shards[route(key)].entries)
    ensures key in Contents(shards) ==> Contents(shards)[key] == AsMap(shards[route(key)].entries)[key]
    decreases |shards|
  {
    if shards != [] {
      var n := |shards| - 1;
      ContentsLookup(route, shards[..n], key);
      AsMapLookup(shards[n].entries, key);
      assert ShardOk(route, shards[n], n);
    }
  }

  /** Two well-routed maps agree when each shard stands for the same part. */
  lemma SameContents<K(!new), V>(route: K -> nat, shards: seq<Table<K, V>>, shards': seq<Table<K, V>>)
    requires WellRouted(route, shards) && WellRouted(route, shards') && |shards| == |shards'|
    requires forall i :: 0 <= i < |shards| ==> AsMap(shards[i].entries) == AsMap(shards'[i].entries)
    ensures Contents(shards) == Contents(shards')
  {
    forall key
      ensures key in Contents(shards) <==> key in Contents(shards')
      ensures key in Contents(shards) ==> Contents(shards)[key] == Contents(shards')[key]
    {
      ContentsLookup(route, shards, key);
      ContentsLookup(route, shards', key);
    }
  }

  /** Inserting in the key's own shard inserts in the map. */
  lemma InsertInShard<K(!new), V>(route: K -> nat, shards: seq<Table<K, V>>, key: K, value: V, table: Table<K, V>)
    requires WellRouted(route, shards) && route(key) < |shards|
    requires table.entries == Put(shards[route(key)].entries, key, value) && table.Fits()
    ensures WellRouted(route, shards[route(key) := table])
    ensures Contents(shards[route(key) := table]) == Contents(shards)[key := value]
  {
    var i := route(key);
    var shards' := shards[i := table];
    assert ShardOk(route, shards[i], i);
    PutEntries(shards[i].entries, key, value);
    assert ShardOk(route, table, i);
    forall j | 0 <= j < |shards'|
      ensures ShardOk(route, shards'[j], j)
    {
      assert ShardOk(route, shards[j], j);
    }
    PutIsInsert(shards[i].entries, key, value);
    hide Put, AsMap, Contents, ShardOk;
    forall k
      ensures k in Contents(shards') <==> k in Contents(shards)[key := value]
      ensures k in Contents(shards') ==> Contents(shards')[k] == Contents(shards)[key := value][k]
    {
      ContentsLookup(route, shards, k);
      ContentsLookup(route, shards', k);
    }
  }

  lemma {:induction false} DistinctOnce<K, V>(entries: seq<(K, V)>, x: (K, V))
    requires DistinctKeys(entries)
    ensures multiset(entries)[x] <= 1
    decreases |entries|
  {
    if entries != [] {
      assert entries == [entries[0]] + entries[1..];
      DistinctOnce(entries[1..], x);
      if entries[0] == x {
        assert x !in entries[1..];
      }
    }
  }

  lemma TwiceInMultiset<T>(s: seq<T>, i: nat, j: nat)
    requires i < j < |s| && s[i] == s[j]
    ensures multiset(s)[s[i]] >= 2
  {
    assert s == s[..i] + [s[i]] + s[i + 1..j] + [s[j]] + s[j + 1..];
  }

  lemma SameMembers<T>(a: seq<T>, b: seq<T>)
    requires multiset(a) == multiset(b)
    ensures |a| == |b|
    ensures forall x :: x in a <==> x in b
  {
    assert |a| == |multiset(a)| && |b| == |multiset(b)|;
    forall x
      ensures x in a <==> x in b
    {
      assert x in a <==> x in multiset(a);
      assert x in b <==> x in multiset(b);
    }
  }

  lemma ReorderedDistinct<K, V>(a: seq<(K, V)>, b: seq<(K, V)>, i: nat, j: nat)
    requires DistinctKeys(a) && multiset(a) == multiset(b) && i < j < |b|
    ensures b[i].0 != b[j].0
  {
    if b[i].0 == b[j].0 {
      SameMembers(a, b);
      assert b[i] in a && b[j] in a;
      assert b[i] == b[j];
      TwiceInMultiset(b, i, j);
      DistinctOnce(a, b[i]);
    }
  }

  lemma ReorderedLookup<K, V>(a: seq<(K, V)>, b: seq<(K, V)>, key: K)
    requires DistinctKeys(a) && DistinctKeys(b) && forall x :: x in a <==> x in b
    ensures key in AsMap(b) <==> key in AsMap(a)
    ensures key in AsMap(b) ==> AsMap(b)[key] == AsMap(a)[key]
  {
    AsMapLookup(a, key);
    AsMapLookup(b, key);
    if key in AsMap(a) {
      assert a[Find(a, key)] in b;
    }
    if key in AsMap(b) {
      assert b[Find(b, key)] in a;
    }
  }

  /** The order in which a table lists its entries does not matter. */
  lemma Reordered<K(!new), V>(a: seq<(K, V)>, b: seq<(K, V)>)
    requires DistinctKeys(a) && multiset(a) == multiset(b)
    ensures DistinctKeys(b) && AsMap(b) == AsMap(a)
  {
    forall i, j | 0 <= i < j < |b|
      ensures b[i].0 != b[j].0
    {
      ReorderedDistinct(a, b, i, j);
    }
    SameMembers(a, b);
    hide AsMap;
    forall key
      ensures key in AsMap(b) <==> key in AsMap(a)
      ensures key in AsMap(b) ==> AsMap(b)[key] == AsMap(a)[key]
    {
      ReorderedLookup(a, b, key);
    }
  }

  /** Replacing a shard's table by one that lists the same entries changes nothing. */
  lemma ReplaceShard<K(!new), V>(route: K -> nat, shards: seq<Table<K, V>>, i: nat, table: Table<K, V>)
    requires WellRouted(route, shards) && i < |shards|
    requires multiset(table.entries) == multiset(shards[i].entries) && table.Fits()
    ensures WellRouted(route, shards[i := table])
    ensures Contents(shards[i := table]) == Contents(shards)
  {
    assert ShardOk(route, shards[i], i);
    Reordered(shards[i].entries, table.entries);
    SameMembers(shards[i].entries, table.entries);
    forall j | 0 <= j < |table.entries|
      ensures route(table.entries[j].0) == i
    {
      assert table.entries[j] in shards[i].entries;
    }
    assert ShardOk(route, table, i);
    var shards' := shards[i := table];
    forall j | 0 <= j < |shards'|
      ensures ShardOk(route, shards'[j], j)
    {
      assert ShardOk(route, shards[j], j);
    }
    SameContents(route, shards, shards');
  }
}
