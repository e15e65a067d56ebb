/** The sharded map under any interleaving of threads: each operation takes its shard's lock,
    reserves a slot, locates the key, and commits, one step at a time. */
module Concurrent {
  import opened Allocation
  import opened Shards

  datatype Op<K, V> =
    | Insert(key: K, value: V, blocking: bool)
    | InsertUnique(key: K, value: V, blocking: bool)
    | Shrink

  /** Every failure of an insertion gives its inputs back. */
  datatype Outcome<K, V> =
    | Inserted(replaced: Option<V>)
    | AlreadyExists(key: K, value: V)
    | ReserveFailed(key: K, value: V)
    | WouldBlock(key: K, value: V)
    | Shrunk
    | ShrinkFailed

  datatype Lock = Free | Shared(readers: nat) | Exclusive(owner: nat)

  datatype Phase<K, V> =
    | Idle
    | Waiting(op: Op<K, V>, shard: nat)
    | Holding(op: Op<K, V>, shard: nat)
    | Reserved(op: Op<K, V>, shard: nat)
    | Located(op: Op<K, V>, shard: nat, slot: nat)
    | Finished(op: Op<K, V>, outcome: Outcome<K, V>)

  datatype Commit<K, V> = Commit(thread: nat, op: Op<K, V>, outcome: Outcome<K, V>)

  /** `since` is history: how long the log was when a thread began its current operation. */
  datatype State<K, V> = State(
    shards: seq<Table<K, V>>,
    locks: seq<Lock>,
    threads: map<nat, Phase<K, V>>,
    log: seq<Commit<K, V>>,
    since: map<nat, nat>)

  /** One step of one thread, or of a reader elsewhere in the program. */
  datatype Event<K, V> =
    | Begin(t: nat, op: Op<K, V>)
    | Acquire(t: nat)
    | ReserveSlot(t: nat, reply: Reply)
    | Locate(t: nat)
    | CommitEntry(t: nat)
    | Rebuild(t: nat, reply: Reply, order: seq<(K, V)>)
    | Return(t: nat)
    | ReaderEnters(i: nat)
    | ReaderLeaves(i: nat)

  function PhaseOf<K, V>(s: State<K, V>, t: nat): Phase<K, V> {
    if t in s.threads then s.threads[t] else Idle
  }

  function Goto<K, V>(s: State<K, V>, t: nat, p: Phase<K, V>): State<K, V> {
    s.(threads := s.threads[t := p])
  }

  function Unlocked<K, V>(s: State<K, V>, i: nat): State<K, V>
    requires i < |s.locks|
  {
    s.(locks := s.locks[i := Free])
  }

  /** Growth of a table when the allocator gives one answer. */
  function Grow<K, V>(table: Table<K, V>, additional: nat, reply: Reply): Growth
    requires table.Fits()
  {
    Reserve(|table.entries|, table.cap, additional, _ => reply, 0)
  }

  // ---------------------------------------------------------------------------------------------
  // The steps

  function BeginStep<K, V>(route: K -> nat, s: State<K, V>, t: nat, op: Op<K, V>): Option<State<K, V>> {
    if PhaseOf(s, t).Idle? then
      Some(Goto(s.(since := s.since[t := |s.log|]), t, Waiting(op, if op.Shrink? then 0 else route(op.key))))
    else None
  }

  function AcquireStep<K, V>(s: State<K, V>, t: nat): Option<State<K, V>> {
    match PhaseOf(s, t)
    case Waiting(op, i) =>
      if i >= |s.locks| then None
      else if s.locks[i].Free? then
        Some(Goto(s.(locks := s.locks[i := Exclusive(t)]), t, Holding(op, i)))
      else if !op.Shrink? && !op.blocking then
        Some(Goto(s, t, Finished(op, WouldBlock(op.key, op.value))))
      else None
    case _ => None
  }

  function ReserveStep<K, V>(s: State<K, V>, t: nat, reply: Reply): Option<State<K, V>> {
    match PhaseOf(s, t)
    case Holding(op, i) =>
      if op.Shrink? || i >= |s.shards| || i >= |s.locks| || !(|s.shards[i].entries| <= s.shards[i].cap <= ISIZE_MAX) then None
      else
        var g := Grow(s.shards[i], 1, reply);
        if g.ok then Some(Goto(s.(shards := s.shards[i := s.shards[i].(cap := g.cap)]), t, Reserved(op, i)))
        else Some(Goto(Unlocked(s, i), t, Finished(op, ReserveFailed(op.key, op.value))))
    case _ => None
  }

  function LocateStep<K(==), V>(s: State<K, V>, t: nat): Option<State<K, V>> {
    match PhaseOf(s, t)
    case Reserved(op, i) =>
      if op.Shrink? || i >= |s.shards| then None
      else Some(Goto(s, t, Located(op, i, Find(s.shards[i].entries, op.key))))
    case _ => None
  }

  /** What the entry found in the locate step does to its table. */
  function EntryUpdate<K, V>(table: Table<K, V>, op: Op<K, V>, slot: nat): (Table<K, V>, Outcome<K, V>)
    requires !op.Shrink?
  {
    if slot < |table.entries| then
      if op.InsertUnique? then (table, AlreadyExists(op.key, op.value))
      else
        (table.(entries := table.entries[slot := (table.entries[slot].0, op.value)]),
         Inserted(Some(table.entries[slot].1)))
    else
      (table.(entries := table.entries + [(op.key, op.value)]), Inserted(None))
  }

  function CommitStep<K, V>(s: State<K, V>, t: nat): Option<State<K, V>> {
    match PhaseOf(s, t)
    case Located(op, i, slot) =>
      if op.Shrink? || i >= |s.shards| || i >= |s.locks| then None
      else
        var (table, outcome) := EntryUpdate(s.shards[i], op, slot);
        Some(Goto(Unlocked(s, i), t, Finished(op, outcome)).(shards := s.shards[i := table], log := s.log + [Commit(t, op, outcome)]))
    case _ => None
  }

  /** One shard of `try_shrink_to_fit`: a new table with room for all entries, filled in the order
      in which the old one lists them. */
  function RebuildStep<K(==), V(==)>(s: State<K, V>, t: nat, reply: Reply, order: seq<(K, V)>): Option<State<K, V>> {
    match PhaseOf(s, t)
    case Holding(op, i) =>
      if !op.Shrink? || i >= |s.shards| || i >= |s.locks| || multiset(order) != multiset(s.shards[i].entries) then None
      else
        var g := Reserve(0, 0, |s.shards[i].entries|, _ => reply, 0);
        if !g.ok then Some(Goto(Unlocked(s, i), t, Finished(op, ShrinkFailed)))
        else
          var next := if i + 1 < |s.shards| then Waiting(op, i + 1) else Finished(op, Shrunk);
          Some(Goto(Unlocked(s, i), t, next).(shards := s.shards[i := Table(order, g.cap)]))
    case _ => None
  }

  function ReaderStep<K, V>(s: State<K, V>, i: nat, enters: bool): Option<State<K, V>> {
    if i >= |s.locks| then None
    else
      match s.locks[i]
      case Exclusive(_) => None
      case Free => if enters then Some(s.(locks := s.locks[i := Shared(1)])) else None
      case Shared(n) =>
        if enters then Some(s.(locks := s.locks[i := Shared(n + 1)]))
        else Some(s.(locks := s.locks[i := if n <= 1 then Free else Shared(n - 1)]))
  }

  /** The state after an event, or nothing when the event cannot happen. */
  function Step<K(==), V(==)>(route: K -> nat, s: State<K, V>, e: Event<K, V>): Option<State<K, V>> {
    match e
    case Begin(t, op) => BeginStep(route, s, t, op)
    case Acquire(t) => AcquireStep(s, t)
    case ReserveSlot(t, reply) => ReserveStep(s, t, reply)
    case Locate(t) => LocateStep(s, t)
    case CommitEntry(t) => CommitStep(s, t)
    case Rebuild(t, reply, order) => RebuildStep(s, t, reply, order)
    case Return(t) => if PhaseOf(s, t).Finished? then Some(Goto(s, t, Idle)) else None
    case ReaderEnters(i) => ReaderStep(s, i, true)
    case ReaderLeaves(i) => ReaderStep(s, i, false)
  }

  // ---------------------------------------------------------------------------------------------
  // The sequential map

  /** What an operation does to a plain map. */
  function Sequential<K(==), V>(m: map<K, V>, op: Op<K, V>): (map<K, V>, Outcome<K, V>) {
    match op
    case Insert(k, v, _) => (m[k := v], Inserted(if k in m then Some(m[k]) else None))
    case InsertUnique(k, v, _) => if k in m then (m, AlreadyExists(k, v)) else (m[k := v], Inserted(None))
    case Shrink => (m, Shrunk)
  }

  function Replay<K(==), V>(m: map<K, V>, log: seq<Commit<K, V>>): map<K, V> {
    if log == [] then m else Sequential(Replay(m, log[..|log| - 1]), log[|log| - 1].op).0
  }

  /** Every logged outcome is the one the plain map would have given at that point. */
  ghost predicate Explained<K, V>(m: map<K, V>, log: seq<Commit<K, V>>) {
    log == []
    || (var n := |log| - 1;
        Explained(m, log[..n]) && log[n].outcome == Sequential(Replay(m, log[..n]), log[n].op).1)
  }

  // ---------------------------------------------------------------------------------------------
  // The invariant

  /** Failures return what was passed in. */
  ghost predicate GivesBack<K, V>(op: Op<K, V>, outcome: Outcome<K, V>) {
    match outcome
    case Inserted(_) => !op.Shrink?
    case AlreadyExists(k, v) => !op.Shrink? && k == op.key && v == op.value
    case ReserveFailed(k, v) => !op.Shrink? && k == op.key && v == op.value
    case WouldBlock(k, v) => !op.Shrink? && k == op.key && v == op.value && !op.blocking
    case Shrunk => op.Shrink?
    case ShrinkFailed => op.Shrink?
  }

  function LockHeld<K, V>(p: Phase<K, V>): Option<nat> {
    match p
    case Holding(_, i) => Some(i)
    case Reserved(_, i) => Some(i)
    case Located(_, i, _) => Some(i)
    case _ => None
  }

  ghost predicate PhaseOk<K, V>(route: K -> nat, s: State<K, V>, p: Phase<K, V>) {
    match p
    case Idle => true
    case Waiting(op, i) => i < |s.shards| && (!op.Shrink? ==> i == route(op.key))
    case Holding(op, i) => i < |s.shards| && (!op.Shrink? ==> i == route(op.key))
    case Reserved(op, i) =>
      i < |s.shards| && !op.Shrink? && i == route(op.key) && |s.shards[i].entries| < s.shards[i].cap
    case Located(op, i, slot) =>
      && i < |s.shards| && !op.Shrink? && i == route(op.key) && |s.shards[i].entries| < s.shards[i].cap
      && slot == Find(s.shards[i].entries, op.key)
    case Finished(op, outcome) => GivesBack(op, outcome)
  }

  ghost predicate LocksOk<K, V>(s: State<K, V>) {
    && |s.locks| == |s.shards|
    && (forall t :: LockHeld(PhaseOf(s, t)).Some? ==>
          var i := LockHeld(PhaseOf(s, t)).value; i < |s.locks| && s.locks[i] == Exclusive(t))
    && (forall i :: 0 <= i < |s.locks| && s.locks[i].Exclusive? ==> LockHeld(PhaseOf(s, s.locks[i].owner)) == Some(i))
  }

  /** The outcomes that claim something about the map's contents. */
  predicate Told<K, V>(p: Phase<K, V>) {
    p.Finished? && (p.outcome.Inserted? || p.outcome.AlreadyExists?)
  }

  /** A thread's own commits, in order. */
  function OwnCommits<K, V>(log: seq<Commit<K, V>>, t: nat): seq<Commit<K, V>> {
    if log == [] then []
    else OwnCommits(log[..|log| - 1], t) + (if log[|log| - 1].thread == t then [log[|log| - 1]] else [])
  }

  /** Since a thread began its operation it has committed that operation once, if it has been told about
      the map, and nothing otherwise. */
  ghost predicate Answered<K, V>(s: State<K, V>, t: nat) {
    var p := PhaseOf(s, t);
    p.Idle?
    || (t in s.since && s.since[t] <= |s.log|
        && OwnCommits(s.log[s.since[t]..], t) == if Told(p) then [Commit(t, p.op, p.outcome)] else [])
  }

  /** Whatever a thread is told about the map is matched by its own commit. */
  ghost predicate Reported<K, V>(s: State<K, V>) {
    forall t :: Answered(s, t)
  }

  ghost predicate Inv<K(!new), V>(route: K -> nat, s: State<K, V>) {
    && s.shards != []
    && (forall k :: route(k) < |s.shards|)
    && WellRouted(route, s.shards)
    && LocksOk(s)
    && Reported(s)
    && forall t :: PhaseOk(route, s, PhaseOf(s, t))
  }

  // ---------------------------------------------------------------------------------------------
  // What one step may do

  function Readers(lock: Lock): nat {
    if lock.Shared? then lock.readers else 0
  }

  /** All tables but one are as they were. */
  ghost predicate OnlyTable<K, V>(s: State<K, V>, s': State<K, V>, i: nat) {
    |s'.shards| == |s.shards| && forall j :: 0 <= j < |s.shards| && j != i ==> s'.shards[j] == s.shards[j]
  }

  /** Only thread `t` moves, within its operation. */
  ghost predicate OnlyThread<K, V>(s: State<K, V>, s': State<K, V>, t: nat) {
    && (forall u :: u != t ==> PhaseOf(s', u) == PhaseOf(s, u))
    && !PhaseOf(s, t).Idle? && !PhaseOf(s', t).Idle?
    && PhaseOf(s', t).op == PhaseOf(s, t).op
  }

  /** The thread's lock is freed; the others stay. */
  ghost predicate Releases<K, V>(s: State<K, V>, s': State<K, V>, i: nat) {
    i < |s.locks| && s'.locks == s.locks[i := Free]
  }

  ghost predicate Begins<K, V>(s: State<K, V>, s': State<K, V>, t: nat, op: Op<K, V>) {
    && s'.shards == s.shards && s'.locks == s.locks
    && (forall u :: u != t ==> PhaseOf(s', u) == PhaseOf(s, u))
    && PhaseOf(s, t).Idle? && PhaseOf(s', t).Waiting? && PhaseOf(s', t).op == op
    && (op.Shrink? ==> PhaseOf(s', t).shard == 0)
  }

  ghost predicate Returns<K, V>(s: State<K, V>, s': State<K, V>, t: nat) {
    && s'.shards == s.shards && s'.locks == s.locks
    && (forall u :: u != t ==> PhaseOf(s', u) == PhaseOf(s, u))
    && PhaseOf(s, t).Finished? && PhaseOf(s', t).Idle?
  }

  /** A free lock is taken; only one that is not free turns an operation away. */
  ghost predicate Acquires<K, V>(s: State<K, V>, s': State<K, V>, t: nat) {
    && OnlyThread(s, s', t) && s'.shards == s.shards && PhaseOf(s, t).Waiting?
    && var i := PhaseOf(s, t).shard;
      && i < |s.locks|
      && if s.locks[i].Free? then
           PhaseOf(s', t) == Holding(PhaseOf(s, t).op, i) && s'.locks == s.locks[i := Exclusive(t)]
         else
           PhaseOf(s', t).Finished? && PhaseOf(s', t).outcome.WouldBlock? && s'.locks == s.locks
  }

  /** Reserving fails only without room and without more memory; otherwise only the capacity grows. */
  ghost predicate Reserves<K, V>(s: State<K, V>, s': State<K, V>, t: nat, reply: Reply) {
    && OnlyThread(s, s', t) && PhaseOf(s, t).Holding?
    && var i := PhaseOf(s, t).shard;
      && i < |s.shards| && OnlyTable(s, s', i)
      && var table := s.shards[i];
        if |table.entries| == table.cap && (table.cap == ISIZE_MAX || reply.Refused?) then
          && PhaseOf(s', t).Finished? && PhaseOf(s', t).outcome.ReserveFailed?
          && s'.shards == s.shards && Releases(s, s', i)
        else
          && PhaseOf(s', t) == Reserved(PhaseOf(s, t).op, i) && s'.locks == s.locks
          && s'.shards[i].entries == table.entries && s'.shards[i].cap >= table.cap
          && (|table.entries| < table.cap ==> s'.shards[i].cap == table.cap)
  }

  ghost predicate Locates<K, V>(s: State<K, V>, s': State<K, V>, t: nat) {
    && OnlyThread(s, s', t) && s'.shards == s.shards && s'.locks == s.locks
    && PhaseOf(s, t).Reserved? && PhaseOf(s', t).Located? && PhaseOf(s', t).shard == PhaseOf(s, t).shard
  }

  ghost predicate Commits<K, V>(s: State<K, V>, s': State<K, V>, t: nat) {
    && OnlyThread(s, s', t) && PhaseOf(s, t).Located? && PhaseOf(s', t).Finished?
    && var i := PhaseOf(s, t).shard;
       i < |s.shards| && OnlyTable(s, s', i) && s'.shards[i].cap == s.shards[i].cap && Releases(s, s', i)
  }

  /** Shrinking goes from shard to shard; it stops early only at a refusal, and a rebuilt table asks for
      exactly the entries it has. */
  ghost predicate Rebuilds<K, V>(s: State<K, V>, s': State<K, V>, t: nat, reply: Reply) {
    && OnlyThread(s, s', t) && PhaseOf(s, t).Holding? && PhaseOf(s, t).op.Shrink?
    && var i := PhaseOf(s, t).shard;
      && i < |s.shards| && OnlyTable(s, s', i) && Releases(s, s', i)
      && var n := |s.shards[i].entries|;
        if n > 0 && (n > ISIZE_MAX || reply.Refused?) then
          s'.shards == s.shards && PhaseOf(s', t).Finished? && PhaseOf(s', t).outcome.ShrinkFailed?
        else
          && multiset(s'.shards[i].entries) == multiset(s.shards[i].entries)
          && s'.shards[i].cap == (if n == 0 then 0 else Min(n + reply.slack, ISIZE_MAX))
          && if i + 1 < |s.shards| then PhaseOf(s', t) == Waiting(PhaseOf(s, t).op, i + 1)
             else PhaseOf(s', t).Finished? && PhaseOf(s', t).outcome.Shrunk?
  }

  ghost predicate Reads<K, V>(s: State<K, V>, s': State<K, V>, i: nat, enters: bool) {
    && s'.threads == s.threads && s'.shards == s.shards
    && i < |s.locks| && !s.locks[i].Exclusive? && |s'.locks| == |s.locks|
    && (forall j :: 0 <= j < |s.locks| && j != i ==> s'.locks[j] == s.locks[j])
    && !s'.locks[i].Exclusive?
    && (enters ==> Readers(s'.locks[i]) == Readers(s.locks[i]) + 1)
    && (!enters ==> s.locks[i].Shared? && Readers(s'.locks[i]) == if Readers(s.locks[i]) == 0 then 0 else Readers(s.locks[i]) - 1)
  }

  ghost predicate Follows<K, V>(s: State<K, V>, s': State<K, V>, e: Event<K, V>) {
    match e
    case Begin(t, op) => Begins(s, s', t, op)
    case Acquire(t) => Acquires(s, s', t)
    case ReserveSlot(t, reply) => Reserves(s, s', t, reply)
    case Locate(t) => Locates(s, s', t)
    case CommitEntry(t) => Commits(s, s', t)
    case Rebuild(t, reply, _) => Rebuilds(s, s', t, reply)
    case Return(t) => Returns(s, s', t)
    case ReaderEnters(i) => Reads(s, s', i, true)
    case ReaderLeaves(i) => Reads(s, s', i, false)
  }

  /** A step either leaves the map and the log alone and tells no thread anything new about the map, or
      is the commit of one operation that the plain map would have answered the same way, and tells
      that operation's thread.  Either way it does no more than its event calls for. */
  ghost predicate Refines<K, V>(s: State<K, V>, s': State<K, V>, e: Event<K, V>) {
    && Follows(s, s', e)
    && if e.CommitEntry? then
         && |s'.log| == |s.log| + 1 && s'.log[..|s.log|] == s.log
         && var c := s'.log[|s.log|];
           && c.thread == e.t
           && PhaseOf(s', e.t) == Finished(c.op, c.outcome)
           && (forall t :: t != e.t ==> PhaseOf(s', t) == PhaseOf(s, t))
           && (Contents(s'.shards), c.outcome) == Sequential(Contents(s.shards), c.op)
       else
         && s'.log == s.log && Contents(s'.shards) == Contents(s.shards)
         && forall t :: Told(PhaseOf(s', t)) ==> PhaseOf(s', t) == PhaseOf(s, t)
  }

  // ---------------------------------------------------------------------------------------------
  // Every step keeps the invariant

  /** Changing one thread's phase, and possibly the lock it holds, disturbs no other thread. */
  lemma LocksKept<K, V>(s: State<K, V>, s': State<K, V>, t: nat)
    requires LocksOk(s) && |s'.locks| == |s'.shards| == |s.shards|
    requires forall u :: u != t ==> PhaseOf(s', u) == PhaseOf(s, u)
    requires var before := LockHeld(PhaseOf(s, t));
             var after := LockHeld(PhaseOf(s', t));
             || (s'.locks == s.locks && after == before)
             || (before.Some? && after.None? && s'.locks == s.locks[before.value := Free])
             || (before.None? && after.Some? && after.value < |s.locks| && s.locks[after.value].Free?
                 && s'.locks == s.locks[after.value := Exclusive(t)])
    ensures LocksOk(s')
  {
    forall u | LockHeld(PhaseOf(s', u)).Some?
      ensures var i := LockHeld(PhaseOf(s', u)).value; i < |s'.locks| && s'.locks[i] == Exclusive(u)
    {
      if u != t {
        assert LockHeld(PhaseOf(s, u)).Some?;
      }
    }
    forall i | 0 <= i < |s'.locks| && s'.locks[i].Exclusive?
      ensures LockHeld(PhaseOf(s', s'.locks[i].owner)) == Some(i)
    {
      if s'.locks[i] == s.locks[i] {
        assert s.locks[i].Exclusive?;
      }
    }
  }

  /** A step that neither commits nor tells a thread anything about the map. */
  lemma ReportedKept<K, V>(s: State<K, V>, s': State<K, V>, t: nat)
    requires Reported(s) && s'.log == s.log && s'.since == s.since
    requires forall u :: u != t ==> PhaseOf(s', u) == PhaseOf(s, u)
    requires !PhaseOf(s, t).Idle? && !Told(PhaseOf(s, t)) && !Told(PhaseOf(s', t))
    ensures Reported(s')
  {
    hide OwnCommits;
    forall u
      ensures Answered(s', u)
    {
      assert Answered(s, u);
    }
  }

  lemma ReportedBegins<K, V>(s: State<K, V>, s': State<K, V>, t: nat)
    requires Reported(s) && s'.log == s.log && s'.since == s.since[t := |s.log|]
    requires forall u :: u != t ==> PhaseOf(s', u) == PhaseOf(s, u)
    requires PhaseOf(s', t).Waiting?
    ensures Reported(s')
  {
    assert s.log[|s.log|..] == [];
    assert OwnCommits(s.log[|s.log|..], t) == [];
    hide OwnCommits;
    forall u
      ensures Answered(s', u)
    {
      assert Answered(s, u);
    }
  }

  lemma ReportedReturns<K, V>(s: State<K, V>, s': State<K, V>, t: nat)
    requires Reported(s) && s'.log == s.log && s'.since == s.since
    requires forall u :: u != t ==> PhaseOf(s', u) == PhaseOf(s, u)
    requires PhaseOf(s', t).Idle? || PhaseOf(s', t) == PhaseOf(s, t)
    ensures Reported(s')
  {
    hide OwnCommits;
    forall u
      ensures Answered(s', u)
    {
      assert Answered(s, u);
    }
  }

  lemma OwnCommitsMore<K, V>(log: seq<Commit<K, V>>, from: nat, c: Commit<K, V>, u: nat)
    requires from <= |log|
    ensures OwnCommits((log + [c])[from..], u) == OwnCommits(log[from..], u) + (if c.thread == u then [c] else [])
  {
    var late := (log + [c])[from..];
    assert late[..|late| - 1] == log[from..] && late[|late| - 1] == c;
  }

  lemma ReportedCommits<K, V>(s: State<K, V>, s': State<K, V>, t: nat)
    requires Reported(s) && !PhaseOf(s, t).Idle? && !Told(PhaseOf(s, t)) && Told(PhaseOf(s', t))
    requires s'.log == s.log + [Commit(t, PhaseOf(s', t).op, PhaseOf(s', t).outcome)] && s'.since == s.since
    requires forall u :: u != t ==> PhaseOf(s', u) == PhaseOf(s, u)
    ensures Reported(s')
  {
    hide OwnCommits;
    forall u
      ensures Answered(s', u)
    {
      assert Answered(s, u);
      if !PhaseOf(s, u).Idle? {
        OwnCommitsMore(s.log, s.since[u], s'.log[|s.log|], u);
      }
    }
  }

  /** A thread that holds another shard is not affected by a change of this one. */
  lemma OthersKept<K(!new), V>(route: K -> nat, s: State<K, V>, s': State<K, V>, t: nat, i: nat)
    requires Inv(route, s) && i < |s.shards| && |s'.shards| == |s.shards|
    requires LockHeld(PhaseOf(s, t)) == Some(i)
    requires forall j :: 0 <= j < |s.shards| && j != i ==> s'.shards[j] == s.shards[j]
    requires forall u :: u != t ==> PhaseOf(s', u) == PhaseOf(s, u)
    ensures forall u :: u != t ==> PhaseOk(route, s', PhaseOf(s', u))
  {
    forall u | u != t
      ensures PhaseOk(route, s', PhaseOf(s', u))
    {
      assert PhaseOk(route, s, PhaseOf(s, u));
      if LockHeld(PhaseOf(s, u)) == Some(i) {
        assert false;
      }
    }
  }

  lemma SameShardsKept<K(!new), V>(route: K -> nat, s: State<K, V>, s': State<K, V>, t: nat)
    requires Inv(route, s) && s'.shards == s.shards
    requires forall u :: u != t ==> PhaseOf(s', u) == PhaseOf(s, u)
    requires PhaseOk(route, s', PhaseOf(s', t))
    ensures forall u :: PhaseOk(route, s', PhaseOf(s', u))
  {
    forall u
      ensures PhaseOk(route, s', PhaseOf(s', u))
    {
      assert PhaseOk(route, s, PhaseOf(s, u));
    }
  }

  lemma BeginKeeps<K(!new), V>(route: K -> nat, s: State<K, V>, t: nat, op: Op<K, V>)
    requires Inv(route, s) && BeginStep(route, s, t, op).Some?
    ensures Inv(route, BeginStep(route, s, t, op).value)
    ensures Begins(s, BeginStep(route, s, t, op).value, t, op)
  {
    var s' := BeginStep(route, s, t, op).value;
    SameShardsKept(route, s, s', t);
    LocksKept(s, s', t);
    ReportedBegins(s, s', t);
  }

  lemma ReturnKeeps<K(!new), V>(route: K -> nat, s: State<K, V>, t: nat)
    requires Inv(route, s) && PhaseOf(s, t).Finished?
    ensures Inv(route, Goto(s, t, Idle))
    ensures Returns(s, Goto(s, t, Idle), t)
  {
    var s' := Goto(s, t, Idle);
    SameShardsKept(route, s, s', t);
    LocksKept(s, s', t);
    ReportedReturns(s, s', t);
  }

  lemma AcquireKeeps<K(!new), V>(route: K -> nat, s: State<K, V>, t: nat)
    requires Inv(route, s) && AcquireStep(s, t).Some?
    ensures Inv(route, AcquireStep(s, t).value)
    ensures Acquires(s, AcquireStep(s, t).value, t)
  {
    var s' := AcquireStep(s, t).value;
    assert PhaseOk(route, s, PhaseOf(s, t));
    SameShardsKept(route, s, s', t);
    LocksKept(s, s', t);
    ReportedKept(s, s', t);
  }

  lemma LocateKeeps<K(!new), V>(route: K -> nat, s: State<K, V>, t: nat)
    requires Inv(route, s) && LocateStep(s, t).Some?
    ensures Inv(route, LocateStep(s, t).value)
    ensures Locates(s, LocateStep(s, t).value, t)
  {
    var s' := LocateStep(s, t).value;
    assert PhaseOk(route, s, PhaseOf(s, t));
    SameShardsKept(route, s, s', t);
    LocksKept(s, s', t);
    ReportedKept(s, s', t);
  }

  lemma ReaderKeeps<K(!new), V>(route: K -> nat, s: State<K, V>, i: nat, enters: bool)
    requires Inv(route, s) && ReaderStep(s, i, enters).Some?
    ensures Inv(route, ReaderStep(s, i, enters).value)
    ensures Reads(s, ReaderStep(s, i, enters).value, i, enters)
  {
    var s' := ReaderStep(s, i, enters).value;
    forall t
      ensures PhaseOf(s', t) == PhaseOf(s, t) && PhaseOk(route, s', PhaseOf(s', t))
    {
      assert PhaseOk(route, s, PhaseOf(s, t));
    }
    ReportedReturns(s, s', 0);
    forall j | 0 <= j < |s'.locks| && s'.locks[j].Exclusive?
      ensures LockHeld(PhaseOf(s', s'.locks[j].owner)) == Some(j)
    {
      assert s'.locks[j] == s.locks[j];
    }
  }

  /** The reserve step may enlarge a table, never change what it holds. */
  lemma ReserveKeeps<K(!new), V>(route: K -> nat, s: State<K, V>, t: nat, reply: Reply)
    requires Inv(route, s) && ReserveStep(s, t, reply).Some?
    ensures Inv(route, ReserveStep(s, t, reply).value)
    ensures Contents(ReserveStep(s, t, reply).value.shards) == Contents(s.shards)
    ensures Reserves(s, ReserveStep(s, t, reply).value, t, reply)
  {
    hide Contents, AsMap;
    var s' := ReserveStep(s, t, reply).value;
    var op, i := PhaseOf(s, t).op, PhaseOf(s, t).shard;
    assert PhaseOk(route, s, PhaseOf(s, t));
    var g := Grow(s.shards[i], 1, reply);
    if g.ok {
      ReplaceShard(route, s.shards, i, s.shards[i].(cap := g.cap));
      OthersKept(route, s, s', t, i);
      LocksKept(s, s', t);
      ReportedKept(s, s', t);
    } else {
      SameShardsKept(route, s, s', t);
      LocksKept(s, s', t);
      ReportedKept(s, s', t);
    }
  }

  /** Rebuilding a shard keeps the abstract map, whether the new table can be allocated or not. */
  lemma RebuildKeeps<K(!new), V>(route: K -> nat, s: State<K, V>, t: nat, reply: Reply, order: seq<(K, V)>)
    requires Inv(route, s) && RebuildStep(s, t, reply, order).Some?
    ensures Inv(route, RebuildStep(s, t, reply, order).value)
    ensures Contents(RebuildStep(s, t, reply, order).value.shards) == Contents(s.shards)
    ensures RebuildStep(s, t, reply, order).value.log == s.log
    ensures var s' := RebuildStep(s, t, reply, order).value;
            forall u :: Told(PhaseOf(s', u)) ==> PhaseOf(s', u) == PhaseOf(s, u)
    ensures Rebuilds(s, RebuildStep(s, t, reply, order).value, t, reply)
  {
    hide Contents, AsMap;
    var s' := RebuildStep(s, t, reply, order).value;
    var i := PhaseOf(s, t).shard;
    assert PhaseOk(route, s, PhaseOf(s, t));
    var g := Reserve(0, 0, |s.shards[i].entries|, _ => reply, 0);
    if g.ok {
      SameMembers(order, s.shards[i].entries);
      ReplaceShard(route, s.shards, i, Table(order, g.cap));
      OthersKept(route, s, s', t, i);
      LocksKept(s, s', t);
      ReportedKept(s, s', t);
    } else {
      SameShardsKept(route, s, s', t);
      LocksKept(s, s', t);
      ReportedKept(s, s', t);
    }
  }

  /** The slot found earlier is still the key's slot, and there is room: the commit does to the map
      exactly what the plain operation does. */
  lemma CommitMeans<K(!new), V>(route: K -> nat, shards: seq<Table<K, V>>, op: Op<K, V>)
    requires WellRouted(route, shards) && !op.Shrink?
    requires var i := route(op.key); i < |shards| && |shards[i].entries| < shards[i].cap
    ensures var i := route(op.key);
            var (table, outcome) := EntryUpdate(shards[i], op, Find(shards[i].entries, op.key));
            && WellRouted(route, shards[i := table])
            && (Contents(shards[i := table]), outcome) == Sequential(Contents(shards), op)
            && table.cap == shards[i].cap
  {
    var i := route(op.key);
    var slot := Find(shards[i].entries, op.key);
    var (table, outcome) := EntryUpdate(shards[i], op, slot);
    assert ShardOk(route, shards[i], i);
    ContentsLookup(route, shards, op.key);
    AsMapLookup(shards[i].entries, op.key);
    if op.InsertUnique? && slot < |shards[i].entries| {
      assert shards[i := table] == shards;
    } else {
      assert table.entries == Put(shards[i].entries, op.key, op.value);
      InsertInShard(route, shards, op.key, op.value, table);
    }
  }

  lemma CommitKeeps<K(!new), V>(route: K -> nat, s: State<K, V>, t: nat)
    requires Inv(route, s) && CommitStep(s, t).Some?
    ensures Inv(route, CommitStep(s, t).value)
    ensures Refines(s, CommitStep(s, t).value, CommitEntry(t))
  {
    hide Contents, AsMap, Sequential;
    var s' := CommitStep(s, t).value;
    var op, i := PhaseOf(s, t).op, PhaseOf(s, t).shard;
    assert PhaseOk(route, s, PhaseOf(s, t));
    CommitMeans(route, s.shards, op);
    OthersKept(route, s, s', t, i);
    LocksKept(s, s', t);
    ReportedCommits(s, s', t);
  }

  /** One step, whichever it is. */
  lemma StepKeeps<K(!new), V>(route: K -> nat, s: State<K, V>, e: Event<K, V>)
    requires Inv(route, s) && Step(route, s, e).Some?
    ensures Inv(route, Step(route, s, e).value)
    ensures Refines(s, Step(route, s, e).value, e)
  {
    hide Inv, Contents, CommitStep, RebuildStep, Sequential;
    match e
    case Begin(t, op) => BeginKeeps(route, s, t, op);
    case Acquire(t) => AcquireKeeps(route, s, t);
    case ReserveSlot(t, reply) => ReserveKeeps(route, s, t, reply);
    case Locate(t) => LocateKeeps(route, s, t);
    case CommitEntry(t) => CommitKeeps(route, s, t);
    case Rebuild(t, reply, order) => RebuildKeeps(route, s, t, reply, order);
    case Return(t) => ReturnKeeps(route, s, t);
    case ReaderEnters(i) => ReaderKeeps(route, s, i, true);
    case ReaderLeaves(i) => ReaderKeeps(route, s, i, false);
  }

  // ---------------------------------------------------------------------------------------------
  // Whole runs

  /** Any well-routed map with its locks free and no operation under way. */
  lemma InitialInv<K(!new), V>(route: K -> nat, shards: seq<Table<K, V>>)
    requires shards != [] && WellRouted(route, shards) && forall k :: route(k) < |shards|
    ensures Inv(route, State(shards, seq(|shards|, _ => Free), map[], [], map[]))
  {
    var s: State<K, V> := State(shards, seq(|shards|, _ => Free), map[], [], map[]);
    assert forall t :: PhaseOf(s, t) == Idle;
  }

  lemma InvReported<K(!new), V>(route: K -> nat, s: State<K, V>)
    requires Inv(route, s)
    ensures Reported(s)
  {
  }

  function Run<K(==), V(==)>(route: K -> nat, s: State<K, V>, events: seq<Event<K, V>>): Option<State<K, V>> {
    if events == [] then Some(s)
    else
      match Run(route, s, events[..|events| - 1])
      case None => None
      case Some(mid) => Step(route, mid, events[|events| - 1])
  }

  /** Every step of the run does what its event calls for and refines the plain map. */
  ghost predicate EachRefines<K(!new), V>(route: K -> nat, s: State<K, V>, events: seq<Event<K, V>>)
    decreases |events|
  {
    events == []
    || (var n := |events| - 1;
        && EachRefines(route, s, events[..n])
        && Run(route, s, events[..n]).Some? && Run(route, s, events).Some?
        && Refines(Run(route, s, events[..n]).value, Run(route, s, events).value, events[n]))
  }

  /** Under every interleaving the shards together hold what a plain map would hold after the
      committed operations in commit order, every committed operation returned what the plain map
      would have returned, whatever a thread is told about the map is the one commit it has made since
      it began that operation, and everything else (failed, locked, rejected, shrinking) changed nothing.
      Each failure had its reason: a lock that was not free, or a refused request for room that was missing. */
  lemma {:induction false} RunRefines<K(!new), V>(route: K -> nat, s: State<K, V>, events: seq<Event<K, V>>)
    requires Inv(route, s) && s.log == [] && Run(route, s, events).Some?
    ensures var s' := Run(route, s, events).value;
            && Inv(route, s') && Reported(s')
            && Contents(s'.shards) == Replay(Contents(s.shards), s'.log)
            && Explained(Contents(s.shards), s'.log)
            && EachRefines(route, s, events)
    decreases |events|
  {
    if events != [] {
      var n := |events| - 1;
      RunRefines(route, s, events[..n]);
      var mid, last := Run(route, s, events[..n]).value, Run(route, s, events).value;
      hide Step, Inv, Contents, Reported, Refines, Explained, Replay;
      StepKeeps(route, mid, events[n]);
      InvReported(route, last);
      RefinedFurther(Contents(s.shards), mid, last, events[n]);
    }
  }

  /** One more step of a run that has refined the plain map so far. */
  lemma RefinedFurther<K, V>(m: map<K, V>, mid: State<K, V>, last: State<K, V>, e: Event<K, V>)
    requires Contents(mid.shards) == Replay(m, mid.log) && Explained(m, mid.log) && Refines(mid, last, e)
    ensures Contents(last.shards) == Replay(m, last.log) && Explained(m, last.log)
  {
    hide Contents, Sequential;
  }

  // ---------------------------------------------------------------------------------------------
  // No operation is stuck for good

  /** What a thread's next step needs: a lock for one that waits, nothing for any other.  `reply` and
      `order` are whatever the allocator and the table give. */
  lemma CanStep<K(!new), V>(route: K -> nat, s: State<K, V>, t: nat, op: Op<K, V>, reply: Reply, order: seq<(K, V)>)
    requires Inv(route, s)
    ensures match PhaseOf(s, t)
            case Idle => Step(route, s, Begin(t, op)).Some?
            case Waiting(own, i) =>
              i < |s.locks|
              && (Step(route, s, Acquire(t)).Some? <==> s.locks[i].Free? || (!own.Shrink? && !own.blocking))
            case Holding(own, i) =>
              i < |s.shards|
              && if own.Shrink? then multiset(order) == multiset(s.shards[i].entries) ==> Step(route, s, Rebuild(t, reply, order)).Some?
                 else Step(route, s, ReserveSlot(t, reply)).Some?
            case Reserved(_, _) => Step(route, s, Locate(t)).Some?
            case Located(_, _, _) => Step(route, s, CommitEntry(t)).Some?
            case Finished(_, _) => Step(route, s, Return(t)).Some?
  {
    assert PhaseOk(route, s, PhaseOf(s, t));
    match PhaseOf(s, t)
    case Holding(own, i) => assert ShardOk(route, s.shards[i], i);
    case _ =>
  }

  /** An event that brings something under way nearer to its end. */
  predicate Advances<K(==), V(==)>(route: K -> nat, s: State<K, V>, e: Event<K, V>) {
    !e.Begin? && !e.ReaderEnters? && Step(route, s, e).Some?
  }

  lemma HolderAdvances<K(!new), V>(route: K -> nat, s: State<K, V>, t: nat)
    requires Inv(route, s) && !PhaseOf(s, t).Idle? && !PhaseOf(s, t).Waiting?
    ensures exists e :: Advances(route, s, e)
  {
    var p := PhaseOf(s, t);
    assert PhaseOk(route, s, p);
    var order := if p.Holding? then s.shards[p.shard].entries else [];
    CanStep(route, s, t, p.op, Refused, order);
    hide Step, Inv;
    var e := match p
      case Holding(own, _) => if own.Shrink? then Rebuild(t, Refused, order) else ReserveSlot(t, Refused)
      case Reserved(_, _) => Locate(t)
      case Located(_, _, _) => CommitEntry(t)
      case _ => Return(t);
    assert Advances(route, s, e);
  }

  /** There is no deadlock: while any operation is under way, some thread or reader can take a step
      that ends a wait, whatever the allocator answers. */
  lemma NeverStuck<K(!new), V>(route: K -> nat, s: State<K, V>, t: nat)
    requires Inv(route, s) && !PhaseOf(s, t).Idle?
    ensures exists e :: Advances(route, s, e)
  {
    var p := PhaseOf(s, t);
    assert PhaseOk(route, s, p);
    if p.Waiting? {
      CanStep(route, s, t, p.op, Refused, []);
      match s.locks[p.shard]
      case Free => assert Advances(route, s, Acquire(t));
      case Shared(_) => assert Advances(route, s, ReaderLeaves(p.shard));
      case Exclusive(u) => HolderAdvances(route, s, u);
    } else {
      HolderAdvances(route, s, t);
    }
  }

  /** The steps of one insertion with nothing in between. */
  function Undisturbed<K(==), V(==)>(route: K -> nat, s: State<K, V>, t: nat, op: Op<K, V>, reply: Reply): seq<Event<K, V>> {
    [Begin(t, op), Acquire(t), ReserveSlot(t, reply), Locate(t), CommitEntry(t)]
  }

  lemma RunMore<K, V>(route: K -> nat, s: State<K, V>, events: seq<Event<K, V>>, e: Event<K, V>)
    ensures Run(route, s, events + [e])
         == match Run(route, s, events) case None => None case Some(mid) => Step(route, mid, e)
  {
    assert (events + [e])[..|events|] == events;
  }

  /** A blocking or non-blocking insertion that meets a free lock, and room or a granting allocator, and
      is not disturbed, does what it does to a plain map. */
  lemma UndisturbedInsertion<K(!new), V>(route: K -> nat, s: State<K, V>, t: nat, op: Op<K, V>, reply: Reply)
    requires Inv(route, s) && PhaseOf(s, t).Idle? && !op.Shrink?
    requires var i := route(op.key);
             s.locks[i].Free? && |s.shards[i].entries| < ISIZE_MAX
             && (reply.Granted? || |s.shards[i].entries| < s.shards[i].cap)
    ensures var r := Run(route, s, Undisturbed(route, s, t, op, reply));
            && r.Some? && PhaseOf(r.value, t) == Finished(op, Sequential(Contents(s.shards), op).1)
            && Contents(r.value.shards) == Sequential(Contents(s.shards), op).0
  {
    hide Contents, Sequential, Inv, Step;
    var order: seq<(K, V)> := [];
    var i := route(op.key);
    CanStep(route, s, t, op, reply, order);
    StepKeeps(route, s, Begin(t, op));
    var s1 := Step(route, s, Begin(t, op)).value;
    WaitsAt(route, s1, t);
    CanStep(route, s1, t, op, reply, order);
    StepKeeps(route, s1, Acquire(t));
    var s2 := Step(route, s1, Acquire(t)).value;
    CanStep(route, s2, t, op, reply, order);
    StepKeeps(route, s2, ReserveSlot(t, reply));
    var s3 := Step(route, s2, ReserveSlot(t, reply)).value;
    CanStep(route, s3, t, op, reply, order);
    StepKeeps(route, s3, Locate(t));
    var s4 := Step(route, s3, Locate(t)).value;
    CanStep(route, s4, t, op, reply, order);
    StepKeeps(route, s4, CommitEntry(t));
    var s5 := Step(route, s4, CommitEntry(t)).value;
    RunFive(route, s, Begin(t, op), Acquire(t), ReserveSlot(t, reply), Locate(t), CommitEntry(t));
  }

  lemma WaitsAt<K(!new), V>(route: K -> nat, s: State<K, V>, t: nat)
    requires Inv(route, s) && PhaseOf(s, t).Waiting? && !PhaseOf(s, t).op.Shrink?
    ensures PhaseOf(s, t).shard == route(PhaseOf(s, t).op.key)
  {
    assert PhaseOk(route, s, PhaseOf(s, t));
  }

  lemma RunFive<K, V>(route: K -> nat, s: State<K, V>, a: Event<K, V>, b: Event<K, V>, c: Event<K, V>, d: Event<K, V>, e: Event<K, V>)
    requires Step(route, s, a).Some?
    requires Step(route, Step(route, s, a).value, b).Some?
    requires var s2 := Step(route, Step(route, s, a).value, b).value;
             Step(route, s2, c).Some? && Step(route, Step(route, s2, c).value, d).Some?
    ensures var s2 := Step(route, Step(route, s, a).value, b).value;
            Run(route, s, [a, b, c, d, e]) == Step(route, Step(route, Step(route, s2, c).value, d).value, e)
  {
    hide Step;
    assert Run(route, s, []) == Some(s);
    RunMore(route, s, [], a);
    RunMore(route, s, [a], b);
    RunMore(route, s, [a, b], c);
    RunMore(route, s, [a, b, c], d);
    RunMore(route, s, [a, b, c, d], e);
    assert [] + [a] == [a] && [a] + [b] == [a, b] && [a, b] + [c] == [a, b, c];
    assert [a, b, c] + [d] == [a, b, c, d] && [a, b, c, d] + [e] == [a, b, c, d, e];
  }
}
