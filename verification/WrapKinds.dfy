/** Wrapper kinds, their merge, and the slot tables it builds. */
module WrapKinds {

  datatype WrapKind = Debug | Display | LowerHex | UpperHex | LowerExp | UpperExp | Measure | Multi

  function Merge(a: WrapKind, b: WrapKind): WrapKind {
    if a == b then a
    else if a.Measure? then b
    else if b.Measure? then a
    else Multi
  }

  /** The flat order: `Measure` at the bottom, `Multi` at the top, the format traits in between. */
  predicate AtMost(a: WrapKind, b: WrapKind) {
    a == b || a.Measure? || b.Multi?
  }

  /** Merging is the least upper bound in that order. */
  lemma MergeIsJoin(a: WrapKind, b: WrapKind, c: WrapKind)
    ensures AtMost(Merge(a, b), c) <==> AtMost(a, c) && AtMost(b, c)
  {
  }

  /** What a placeholder refers to: an argument by position, by name, or simply the next one. */
  datatype Slot = Index(n: nat) | Name(id: string) | NextArg

  datatype Use = Use(slot: Slot, kind: WrapKind)

  datatype Analysis = Analysis(positional: map<nat, WrapKind>, named: map<string, WrapKind>, autoKinds: seq<WrapKind>)

  function MergeInto<K>(m: map<K, WrapKind>, key: K, kind: WrapKind): map<K, WrapKind> {
    m[key := if key in m then Merge(m[key], kind) else kind]
  }

  function Record(a: Analysis, u: Use): Analysis {
    match u.slot
    case Index(n) => a.(positional := MergeInto(a.positional, n, u.kind))
    case Name(id) => a.(named := MergeInto(a.named, id, u.kind))
    case NextArg => a.(autoKinds := a.autoKinds + [u.kind])
  }

  function RecordAll(a: Analysis, uses: seq<Use>): Analysis
    decreases |uses|
  {
    if uses == [] then a else RecordAll(Record(a, uses[0]), uses[1..])
  }

  lemma {:induction false} RecordAllConcat(a: Analysis, us: seq<Use>, vs: seq<Use>)
    ensures RecordAll(a, us + vs) == RecordAll(RecordAll(a, us), vs)
    decreases |us|
  {
    if us == [] {
      assert us + vs == vs;
    } else {
      RecordAllConcat(Record(a, us[0]), us[1..], vs);
      assert (us + vs)[1..] == us[1..] + vs;
    }
  }

  // ---------------------------------------------------------------------------------------------
  // What a table holds after a run of uses

  function Kinds(uses: seq<Use>, slot: Slot): set<WrapKind> {
    set u | u in uses && u.slot == slot :: u.kind
  }

  ghost predicate Bounds(c: WrapKind, kinds: set<WrapKind>) {
    forall x :: x in kinds ==> AtMost(x, c)
  }

  /** `k` is the least kind that every one of `kinds` is at most. */
  ghost predicate IsJoinOf(k: WrapKind, kinds: set<WrapKind>) {
    forall c :: AtMost(k, c) <==> Bounds(c, kinds)
  }

  /** A table entry is missing when there was no use, and otherwise is the join of all uses. */
  ghost predicate Holds(entry: Entry, kinds: set<WrapKind>) {
    match entry
    case Missing => kinds == {}
    case Holding(k) => kinds != {} && IsJoinOf(k, kinds)
  }

  datatype Entry = Missing | Holding(kind: WrapKind)

  function Lookup<K>(m: map<K, WrapKind>, key: K): Entry {
    if key in m then Holding(m[key]) else Missing
  }

  function EntryOf(a: Analysis, slot: Slot): Entry {
    match slot
    case Index(n) => Lookup(a.positional, n)
    case Name(id) => Lookup(a.named, id)
    case NextArg => Missing
  }

  lemma JoinExtends(k: WrapKind, kinds: set<WrapKind>, x: WrapKind)
    requires IsJoinOf(k, kinds)
    ensures IsJoinOf(Merge(k, x), kinds + {x})
  {
    forall c
      ensures AtMost(Merge(k, x), c) <==> Bounds(c, kinds + {x})
    {
      MergeIsJoin(k, x, c);
      assert x in kinds + {x};
    }
  }

  lemma JoinOfOne(x: WrapKind)
    ensures IsJoinOf(x, {x})
  {
  }

  lemma RecordExtends(a: Analysis, u: Use, slot: Slot, kinds: set<WrapKind>)
    requires !slot.NextArg? && Holds(EntryOf(a, slot), kinds)
    ensures Holds(EntryOf(Record(a, u), slot), if u.slot == slot then kinds + {u.kind} else kinds)
  {
    if u.slot == slot {
      match EntryOf(a, slot)
      case Missing =>
        JoinOfOne(u.kind);
        assert kinds + {u.kind} == {u.kind};
      case Holding(k) =>
        JoinExtends(k, kinds, u.kind);
        assert u.kind in kinds + {u.kind};
    }
  }

  lemma {:induction false} RecordAllJoins(a: Analysis, uses: seq<Use>, slot: Slot, kinds: set<WrapKind>)
    requires !slot.NextArg? && Holds(EntryOf(a, slot), kinds)
    ensures Holds(EntryOf(RecordAll(a, uses), slot), kinds + Kinds(uses, slot))
    decreases |uses|
  {
    if uses == [] {
      assert kinds + Kinds(uses, slot) == kinds;
    } else {
      var u := uses[0];
      var kinds' := if u.slot == slot then kinds + {u.kind} else kinds;
      RecordExtends(a, u, slot, kinds);
      RecordAllJoins(Record(a, u), uses[1..], slot, kinds');
      assert kinds' + Kinds(uses[1..], slot) == kinds + Kinds(uses, slot);
    }
  }

  const NOTHING := Analysis(map[], map[], [])

  /** Every indexed or named slot holds exactly the join of all its uses, and is absent when unused. */
  lemma SlotHoldsJoin(uses: seq<Use>, slot: Slot)
    requires !slot.NextArg?
    ensures Holds(EntryOf(RecordAll(NOTHING, uses), slot), Kinds(uses, slot))
  {
    RecordAllJoins(NOTHING, uses, slot, {});
    assert {} + Kinds(uses, slot) == Kinds(uses, slot);
  }

  function AutoKinds(uses: seq<Use>): seq<WrapKind> {
    if uses == [] then [] else (if uses[0].slot.NextArg? then [uses[0].kind] else []) + AutoKinds(uses[1..])
  }

  lemma {:induction false} AutoKindsInOrder(a: Analysis, uses: seq<Use>)
    ensures RecordAll(a, uses).autoKinds == a.autoKinds + AutoKinds(uses)
    decreases |uses|
  {
    if uses != [] {
      AutoKindsInOrder(Record(a, uses[0]), uses[1..]);
    }
  }

  /** Two sets of kinds with the same join. */
  ghost predicate SameJoin(ks: set<WrapKind>, ls: set<WrapKind>) {
    (ks == {} <==> ls == {}) && forall c :: Bounds(c, ks) <==> Bounds(c, ls)
  }

  /** Two runs of uses that no analysis can tell apart. */
  ghost predicate Agree(us: seq<Use>, vs: seq<Use>) {
    && AutoKinds(us) == AutoKinds(vs)
    && forall slot: Slot :: !slot.NextArg? ==> SameJoin(Kinds(us, slot), Kinds(vs, slot))
  }

  lemma HoldsUnique(e: Entry, e': Entry, ks: set<WrapKind>, ls: set<WrapKind>)
    requires Holds(e, ks) && Holds(e', ls) && SameJoin(ks, ls)
    ensures e == e'
  {
    if e.Holding? {
      assert AtMost(e.kind, e.kind) && AtMost(e'.kind, e'.kind);
      assert Bounds(e.kind, ks) && Bounds(e'.kind, ls);
      assert AtMost(e.kind, e'.kind) && AtMost(e'.kind, e.kind);
    }
  }

  lemma HoldsSame(e: Entry, ks: set<WrapKind>, ls: set<WrapKind>)
    requires Holds(e, ks) && Holds(e, ls)
    ensures SameJoin(ks, ls)
  {
    if e.Holding? {
      forall c
        ensures Bounds(c, ks) <==> Bounds(c, ls)
      {
        assert AtMost(e.kind, c) <==> Bounds(c, ks);
        assert AtMost(e.kind, c) <==> Bounds(c, ls);
      }
    }
  }

  /** Whatever an entry holds is the join of some kinds. */
  function Held(e: Entry): set<WrapKind> {
    match e
    case Missing => {}
    case Holding(k) => {k}
  }

  lemma SameJoinAdd(held: set<WrapKind>, ks: set<WrapKind>, ls: set<WrapKind>)
    requires SameJoin(ks, ls)
    ensures SameJoin(held + ks, held + ls)
  {
    forall c
      ensures Bounds(c, held + ks) <==> Bounds(c, held + ls)
    {
      assert Bounds(c, held + ks) <==> Bounds(c, held) && Bounds(c, ks);
      assert Bounds(c, held + ls) <==> Bounds(c, held) && Bounds(c, ls);
    }
  }

  lemma AgreeingUses(a: Analysis, us: seq<Use>, vs: seq<Use>)
    requires Agree(us, vs)
    ensures RecordAll(a, us) == RecordAll(a, vs)
  {
    var x, y := RecordAll(a, us), RecordAll(a, vs);
    forall slot: Slot | !slot.NextArg?
      ensures EntryOf(x, slot) == EntryOf(y, slot)
    {
      var held := Held(EntryOf(a, slot));
      if EntryOf(a, slot).Holding? {
        JoinOfOne(EntryOf(a, slot).kind);
      }
      RecordAllJoins(a, us, slot, held);
      RecordAllJoins(a, vs, slot, held);
      SameJoinAdd(held, Kinds(us, slot), Kinds(vs, slot));
      HoldsUnique(EntryOf(x, slot), EntryOf(y, slot), held + Kinds(us, slot), held + Kinds(vs, slot));
    }
    SameEntries(x, y);
    AutoKindsInOrder(a, us);
    AutoKindsInOrder(a, vs);
  }

  lemma SameEntries(x: Analysis, y: Analysis)
    requires forall slot: Slot :: !slot.NextArg? ==> EntryOf(x, slot) == EntryOf(y, slot)
    ensures x.positional == y.positional && x.named == y.named
  {
    assert forall n: nat :: EntryOf(x, Index(n)) == Lookup(x.positional, n) && EntryOf(y, Index(n)) == Lookup(y.positional, n);
    assert forall id: string :: EntryOf(x, Name(id)) == Lookup(x.named, id) && EntryOf(y, Name(id)) == Lookup(y.named, id);
    SameTable(x.positional, y.positional);
    SameTable(x.named, y.named);
  }

  lemma SameTablesAgree(us: seq<Use>, vs: seq<Use>)
    requires RecordAll(NOTHING, us) == RecordAll(NOTHING, vs)
    ensures Agree(us, vs)
  {
    AutoKindsInOrder(NOTHING, us);
    AutoKindsInOrder(NOTHING, vs);
    hide SameJoin, AutoKinds, Kinds;
    forall slot: Slot | !slot.NextArg?
      ensures SameJoin(Kinds(us, slot), Kinds(vs, slot))
    {
      SlotHoldsJoin(us, slot);
      SlotHoldsJoin(vs, slot);
      HoldsSame(EntryOf(RecordAll(NOTHING, us), slot), Kinds(us, slot), Kinds(vs, slot));
    }
    assert NOTHING.autoKinds + AutoKinds(us) == AutoKinds(us);
    assert NOTHING.autoKinds + AutoKinds(vs) == AutoKinds(vs);
  }

  ghost predicate SameFrom(a: Analysis, us: seq<Use>, vs: seq<Use>) {
    RecordAll(a, us) == RecordAll(a, vs)
  }

  /** Two runs of uses have the same effect on every analysis exactly when their automatic kinds are
      the same and, slot by slot, their kinds have the same join. */
  lemma SameEffectIff(us: seq<Use>, vs: seq<Use>)
    ensures (forall a :: SameFrom(a, us, vs)) <==> Agree(us, vs)
  {
    hide Agree;
    if Agree(us, vs) {
      forall a
        ensures SameFrom(a, us, vs)
      {
        AgreeingUses(a, us, vs);
      }
    }
    if SameFrom(NOTHING, us, vs) {
      SameTablesAgree(us, vs);
    }
  }

  /** The slot tables depend only on which uses occur, not on their order or number. */
  lemma TablesIgnoreOrder(us: seq<Use>, vs: seq<Use>)
    requires forall u :: u in us <==> u in vs
    ensures RecordAll(NOTHING, us).positional == RecordAll(NOTHING, vs).positional
    ensures RecordAll(NOTHING, us).named == RecordAll(NOTHING, vs).named
  {
    var a, b := RecordAll(NOTHING, us), RecordAll(NOTHING, vs);
    forall slot: Slot | !slot.NextArg?
      ensures EntryOf(a, slot) == EntryOf(b, slot)
    {
      SlotHoldsJoin(us, slot);
      SlotHoldsJoin(vs, slot);
      assert Kinds(us, slot) == Kinds(vs, slot);
      HoldsUnique(EntryOf(a, slot), EntryOf(b, slot), Kinds(us, slot), Kinds(vs, slot));
    }
    SameEntries(a, b);
  }

  lemma SameTable<K(!new)>(m: map<K, WrapKind>, m': map<K, WrapKind>)
    requires forall k :: Lookup(m, k) == Lookup(m', k)
    ensures m == m'
  {
    forall k
      ensures (k in m <==> k in m') && (k in m ==> m[k] == m'[k])
    {
      assert Lookup(m, k) == Lookup(m', k);
    }
  }
}
