/** The allocator as an adversary, and the growth rule of a Rust `Vec` or `VecDeque`.

    Every request that reaches the allocator is numbered.  What the allocator answers is an
    arbitrary function of that number, so a property proved for every `Oracle` holds for every
    pattern of allocation failures. */
module Allocation {

  const USIZE_MAX: nat := 0xFFFF_FFFF_FFFF_FFFF
  const ISIZE_MAX: nat := 0x7FFF_FFFF_FFFF_FFFF

  type usize = n: nat | n <= USIZE_MAX

  datatype Option<+T> = None | Some(value: T)

  function SaturatingAdd(a: usize, b: nat): usize {
    if a + b <= USIZE_MAX then a + b else USIZE_MAX
  }

  function Min(a: nat, b: nat): nat {
    if a <= b then a else b
  }

  function Reversed<T>(s: seq<T>): (r: seq<T>)
    ensures |r| == |s|
    ensures forall i :: 0 <= i < |s| ==> r[i] == s[|s| - 1 - i]
  {
    if s == [] then [] else [s[|s| - 1]] + Reversed(s[..|s| - 1])
  }

  /** A granted growth may hand out more room than was asked for. */
  datatype Reply = Refused | Granted(slack: nat)

  type Oracle = nat -> Reply

  /** The outcome of a reservation: whether it succeeded, the capacity afterwards, and how many
      requests have been made in all. */
  datatype Growth = Growth(ok: bool, cap: nat, calls: nat)

  /** Room for `additional` more elements: free when the buffer is large enough, a capacity
      overflow when the total passes `isize::MAX`, a question to the allocator otherwise. */
  function Reserve(len: nat, cap: nat, additional: nat, oracle: Oracle, calls: nat): (g: Growth)
    requires len <= cap <= ISIZE_MAX
    ensures cap <= g.cap <= ISIZE_MAX
    ensures g.ok ==> len + additional <= g.cap
    ensures !g.ok ==> g.cap == cap < len + additional
    ensures !g.ok <==> len + additional > ISIZE_MAX || (cap < len + additional && oracle(calls).Refused?)
    ensures g.calls == if cap < len + additional <= ISIZE_MAX then calls + 1 else calls
  {
    if len + additional <= cap then Growth(true, cap, calls)
    else if len + additional > ISIZE_MAX then Growth(false, cap, calls)
    else match oracle(calls)
         case Refused => Growth(false, cap, calls + 1)
         case Granted(slack) => Growth(true, Min(len + additional + slack, ISIZE_MAX), calls + 1)
  }

  /** How many of the requests from number `from` on and before `until` were refused. */
  ghost function Refusals(oracle: Oracle, from: nat, until: nat): (n: nat)
    requires from <= until
    ensures n <= until - from
    decreases until
  {
    if from == until then 0 else Refusals(oracle, from, until - 1) + if oracle(until - 1).Refused? then 1 else 0
  }

  lemma {:induction false} RefusalsSplit(oracle: Oracle, from: nat, mid: nat, until: nat)
    requires from <= mid <= until
    ensures Refusals(oracle, from, until) == Refusals(oracle, from, mid) + Refusals(oracle, mid, until)
    decreases until
  {
    if mid < until {
      RefusalsSplit(oracle, from, mid, until - 1);
    }
  }

  /** Of `whole` things `left` are left: each refused request cost exactly one, and what went beyond
      `limit` was given up. */
  ghost predicate OneForEach(left: nat, whole: nat, refused: nat, limit: nat) {
    refused <= whole && left == Min(whole - refused, limit)
  }

  /** The allocator refused one of the requests with these numbers. */
  ghost predicate SomeRefused(oracle: Oracle, from: nat, to: nat) {
    exists c :: from <= c < to && oracle(c).Refused?
  }

  /** The allocator as the program sees it: an object that is asked and remembers how often. */
  class Allocator {
    const reply: Oracle
    var calls: nat

    constructor (reply: Oracle)
      ensures this.reply == reply && calls == 0
    {
      this.reply := reply;
      calls := 0;
    }

    /** `Box::fallible_new_give_back` asks exactly once. */
    method TryBox() returns (ok: bool)
      modifies this`calls
      ensures calls == old(calls) + 1
      ensures ok == reply(old(calls)).Granted?
    {
      ok := reply(calls).Granted?;
      calls := calls + 1;
    }

    method TryReserve(len: nat, cap: nat, additional: nat) returns (ok: bool, newCap: nat)
      requires len <= cap <= ISIZE_MAX
      modifies this`calls
      ensures Growth(ok, newCap, calls) == Reserve(len, cap, additional, reply, old(calls))
    {
      if len + additional <= cap {
        return true, cap;
      }
      if len + additional > ISIZE_MAX {
        return false, cap;
      }
      var r := reply(calls);
      calls := calls + 1;
      match r
      case Refused => return false, cap;
      case Granted(slack) => return true, Min(len + additional + slack, ISIZE_MAX);
    }
  }

  /** A `VecDeque`: its elements from front to back and the room it owns. */
  datatype Deque<T> = Deque(items: seq<T>, cap: nat) {
    ghost predicate Valid() {
      |items| <= cap <= ISIZE_MAX
    }

    /** `pop_back` keeps the buffer; on an empty deque it does nothing. */
    function PopBack(): Deque<T> {
      if items == [] then this else Deque(items[..|items| - 1], cap)
    }
  }

  /** `try_push_front_give_back`: reserve one slot, then push. */
  method TryPushFront<T>(d: Deque<T>, x: T, a: Allocator) returns (ok: bool, d': Deque<T>)
    requires d.Valid()
    modifies a`calls
    ensures d'.Valid()
    ensures var g := Reserve(|d.items|, d.cap, 1, a.reply, old(a.calls));
            ok == g.ok && a.calls == g.calls && d' == Deque(if ok then [x] + d.items else d.items, g.cap)
  {
    var cap;
    ok, cap := a.TryReserve(|d.items|, d.cap, 1);
    d' := Deque(if ok then [x] + d.items else d.items, cap);
  }

  /** `try_push_back_give_back`. */
  method TryPushBack<T>(d: Deque<T>, x: T, a: Allocator) returns (ok: bool, d': Deque<T>)
    requires d.Valid()
    modifies a`calls
    ensures d'.Valid()
    ensures var g := Reserve(|d.items|, d.cap, 1, a.reply, old(a.calls));
            ok == g.ok && a.calls == g.calls && d' == Deque(if ok then d.items + [x] else d.items, g.cap)
  {
    var cap;
    ok, cap := a.TryReserve(|d.items|, d.cap, 1);
    d' := Deque(if ok then d.items + [x] else d.items, cap);
  }
}
