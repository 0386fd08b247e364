/**
 Net metering of storage writes (EIP-1283, EIP-2200, EIP-2929, EIP-3529): what a write costs, what it adds to
 or takes from the refund counter, and the runs of writes, creations and frames of one transaction.
 */
module Sstore {
  import opened Common
  import opened AccessLists
  import opened StateSpec
  import Journal

  /** `noop`: unchanged or already dirty; `init`: from a clean zero; `clean`: from a clean non-zero. */
  datatype Pricing = Pricing(noop: nat, init: nat, clean: nat, clear: nat, resetZero: nat, reset: nat)

  const EIP1283 := Pricing(200, 20000, 5000, 15000, 19800, 4800)
  const EIP2200 := Pricing(800, 20000, 5000, 15000, 20000 - 800, 5000 - 800)
  const EIP2929 := Pricing(100, 20000, 5000 - 2100, 15000, 20000 - 100, (5000 - 2100) - 100)
  const EIP3529 := EIP2929.(clear := 5000 - 2100 + 1900)

  /** Every refund fits what one self-destruct gives back. */
  const MAX_REFUND := 24000

  predicate Balanced(p: Pricing) {
    && p.noop <= p.clean && p.noop <= p.init && p.resetZero == p.init - p.noop && p.reset == p.clean - p.noop
    && p.clear <= MAX_REFUND && p.resetZero <= MAX_REFUND && p.reset <= MAX_REFUND
  }

  lemma PricingsBalanced()
    ensures Balanced(EIP1283) && Balanced(EIP2200) && Balanced(EIP2929) && Balanced(EIP3529)
    ensures EIP3529.clear == 4800
  {
  }

  function Cost(p: Pricing, original: Hash, current: Hash, value: Hash): nat {
    if current == value then p.noop
    else if original == current then if original == 0 then p.init else p.clean
    else p.noop
  }

  /** The calls made on the refund counter, in order. */
  function Refunds(p: Pricing, original: Hash, current: Hash, value: Hash): seq<int> {
    if current == value then []
    else if original == current then if original != 0 && value == 0 then [p.clear] else []
    else
      (if original != 0 && current == 0 then [0 - p.clear] else if original != 0 && value == 0 then [p.clear] else []) +
      (if original == value then [if original == 0 then p.resetZero else p.reset] else [])
  }

  function Total(xs: seq<int>): int {
    if xs == [] then 0 else xs[0] + Total(xs[1..])
  }

  /** What a slot that now differs from its original has cost beyond the per-write charge. */
  function Potential(p: Pricing, original: Hash, current: Hash): int {
    if current == original then 0
    else if original == 0 then p.init - p.noop
    else p.clean - p.noop - (if current == 0 then p.clear else 0)
  }

  /** One write: its charge less its refund is the change of the slot's potential. */
  lemma NetCost(p: Pricing, original: Hash, current: Hash, value: Hash)
    requires Balanced(p)
    ensures Cost(p, original, current, value) - Total(Refunds(p, original, current, value))
            == p.noop + Potential(p, original, value) - Potential(p, original, current)
  {
    TotalOfFew(Refunds(p, original, current, value));
  }

  lemma TotalOfFew(xs: seq<int>)
    ensures |xs| == 1 ==> Total(xs) == xs[0]
    ensures |xs| == 2 ==> Total(xs) == xs[0] + xs[1]
  {
    if |xs| == 2 {
      assert Total(xs) == xs[0] + Total(xs[1..]);
    }
  }

  /** Charges less refunds of a run of writes to one slot. */
  function NetOf(p: Pricing, original: Hash, current: Hash, values: seq<Hash>): int
    decreases |values|
  {
    if values == [] then 0
    else
      Cost(p, original, current, values[0]) - Total(Refunds(p, original, current, values[0]))
      + NetOf(p, original, values[0], values[1..])
  }

  /** The net price of any run of writes depends only on its length, its first and its last value. */
  lemma {:induction false} NetIsPathIndependent(p: Pricing, original: Hash, current: Hash, values: seq<Hash>)
    requires Balanced(p)
    ensures var last := if values == [] then current else values[|values| - 1];
            NetOf(p, original, current, values)
            == p.noop * |values| + Potential(p, original, last) - Potential(p, original, current)
    decreases |values|
  {
    hide Cost, Refunds, Total, Potential;
    if values != [] {
      NetCost(p, original, current, values[0]);
      NetIsPathIndependent(p, original, values[0], values[1..]);
    }
  }

  // ---------------------------------------------------------------- runs of a transaction

  datatype Act =
    | Write(a: Address, k: Hash, v: Hash)
    | Unpaid(a: Address, k: Hash, v: Hash) // an SSTORE that settles its refund and then cannot pay its gas
    | Create(a: Address)
    | Reward(gas: nat)
    | Plain(op: Op)
    | Frame(acts: seq<Act>, keeps: bool)

  /** An operation of a transaction other than a storage write, a refund, a creation or a revert. */
  predicate IsPlain(op: Op) {
    && !op.SetState? && !op.SetStorage? && !op.AddRefund? && !op.SubRefund? && !op.CreateAccount?
    && !op.RevertToSnapshot?
  }

  /** An unpaid write ends its frame, and the frame fails. */
  predicate WellFormed(acts: seq<Act>, keeps: bool)
    decreases acts
  {
    acts == [] ||
    ((match acts[0]
      case Unpaid(_, _, _) => |acts| == 1 && !keeps
      case Reward(g) => g <= MAX_REFUND
      case Plain(op) => IsPlain(op)
      case Frame(inner, k) => WellFormed(inner, k)
      case _ => true) && WellFormed(acts[1..], keeps))
  }

  /** How many refunds a run may add. */
  function Weight(acts: seq<Act>): nat
    decreases acts
  {
    if acts == [] then 0 else (if acts[0].Frame? then Weight(acts[0].acts) else 1) + Weight(acts[1..])
  }

  /** The calls on the refund counter one after the other, wrapping. */
  function ChangeAll(s: State, xs: seq<int>): (t: State)
    ensures t == s.(refund := t.refund, journal := t.journal)
    decreases |xs|
  {
    if xs == [] then s else ChangeAll(Change(s, xs[0]), xs[1..])
  }

  /** How a run ends: in a state, or where the counter first leaves its range, or in a panic. */
  datatype Outcome = Done(state: State) | Underflow | Overflow | Panic

  /** AddRefund and SubRefund, up to the first that takes the counter out of the unsigned 64-bit range. */
  function Settle(s: State, xs: seq<int>): (r: Outcome)
    ensures !r.Panic?
    ensures r.Done? ==> r.state.refund == s.refund + Total(xs)
    ensures r.Done? ==> r.state == ChangeAll(s, xs)
    decreases |xs|
  {
    if xs == [] then Done(s)
    else if s.refund + xs[0] < 0 then Underflow
    else if s.refund + xs[0] >= TWO_64 then Overflow
    else Settle(Change(s, xs[0]), xs[1..])
  }

  function Charge(db: Store, p: Pricing, s: State, a: Address, k: Hash, v: Hash): (r: Outcome)
    ensures !r.Panic?
    ensures r.Done? ==> r.state.warm == s.warm
  {
    Settle(s, Refunds(p, GetCommittedState(db, s, a, k), GetState(db, s, a, k), v))
  }

  /** One act; a panic is an access list out of range or an undo closure that cannot run. */
  ghost function Perform(db: Store, p: Pricing, s: State, act: Act): Outcome
    decreases act
  {
    if !InRange(s.warm) then Panic
    else
      match act
      case Write(a, k, v) =>
        var t := Charge(db, p, s, a, k, v);
        if t.Done? then Done(Apply(db, t.state, SetState(a, k, v))) else t
      case Unpaid(a, k, v) => Charge(db, p, s, a, k, v)
      case Create(a) => Done(Apply(db, s, CreateAccount(a)))
      case Reward(g) => Settle(s, [g])
      case Plain(op) => if IsPlain(op) then Done(Apply(db, s, op)) else Panic
      case Frame(acts, keeps) =>
        var t := PerformAll(db, p, s, acts);
        if !t.Done? || keeps then t
        else
          match Revert(t.state, |s.journal|)
          case None => Panic
          case Some(u) => Done(u)
  }

  ghost function PerformAll(db: Store, p: Pricing, s: State, acts: seq<Act>): Outcome
    decreases acts
  {
    if acts == [] then Done(s)
    else
      var t := Perform(db, p, s, acts[0]);
      if t.Done? then PerformAll(db, p, t.state, acts[1..]) else t
  }

  // ---------------------------------------------------------------- the journal of a run

  lemma {:induction false} ChangesUnwind(db: Store, s: State, xs: seq<int>, base: nat, start: State)
    requires base <= |s.journal| && Journal.Unwinds(db, s, base, start)
    ensures var t := ChangeAll(s, xs); base <= |t.journal| && Journal.Unwinds(db, t, base, start)
    decreases |xs|
  {
    hide Journal.Unwinds, Total;
    if xs != [] {
      var t := Change(s, xs[0]);
      Journal.UnwindsValid(db, s, base, start);
      Journal.RefundUndone(db, s, xs[0]);
      Journal.UnwindsThrough(db, t, s, base, start);
      ChangesUnwind(db, t, xs[1..], base, start);
    }
  }

  lemma {:induction false} ChangesKeepObjects(s: State, xs: seq<int>)
    ensures ChangeAll(s, xs).objects == s.objects
    decreases |xs|
  {
    if xs != [] {
      ChangesKeepObjects(Change(s, xs[0]), xs[1..]);
    }
  }

  /** An act, whole frames included, leaves the journal able to unwind to the start of any enclosing frame. */
  lemma {:induction false} PerformUnwinds(db: Store, p: Pricing, s: State, act: Act, base: nat, start: State)
    requires base <= |s.journal| && Journal.Unwinds(db, s, base, start) && Perform(db, p, s, act).Done?
    ensures var t := Perform(db, p, s, act).state; base <= |t.journal| && Journal.Unwinds(db, t, base, start)
    decreases act
  {
    hide Journal.Unwinds, Apply, Refunds, GetState, GetCommittedState;
    match act
    case Write(a, k, v) =>
      var xs := Refunds(p, GetCommittedState(db, s, a, k), GetState(db, s, a, k), v);
      ChangesUnwind(db, s, xs, base, start);
      Journal.StepUnwinds(db, Charge(db, p, s, a, k, v).state, SetState(a, k, v), base, start);
    case Unpaid(a, k, v) =>
      ChangesUnwind(db, s, Refunds(p, GetCommittedState(db, s, a, k), GetState(db, s, a, k), v), base, start);
    case Create(a) => Journal.StepUnwinds(db, s, CreateAccount(a), base, start);
    case Reward(g) => ChangesUnwind(db, s, [g], base, start);
    case Plain(op) => Journal.StepUnwinds(db, s, op, base, start);
    case Frame(acts, keeps) =>
      PerformAllUnwinds(db, p, s, acts, base, start);
      if !keeps {
        Journal.UnwindsValid(db, s, base, start);
        Journal.Unchanged(db, s);
        PerformAllUnwinds(db, p, s, acts, |s.journal|, s);
        Journal.RevertUnwinds(db, PerformAll(db, p, s, acts).state, |s.journal|, base, start);
        Journal.RevertLength(db, PerformAll(db, p, s, acts).state, |s.journal|, base, start);
      }
  }

  lemma {:induction false} PerformAllUnwinds(db: Store, p: Pricing, s: State, acts: seq<Act>, base: nat, start: State)
    requires base <= |s.journal| && Journal.Unwinds(db, s, base, start) && PerformAll(db, p, s, acts).Done?
    ensures var t := PerformAll(db, p, s, acts).state; base <= |t.journal| && Journal.Unwinds(db, t, base, start)
    decreases acts
  {
    hide Journal.Unwinds, Perform;
    if acts != [] {
      PerformUnwinds(db, p, s, acts[0], base, start);
      PerformAllUnwinds(db, p, Perform(db, p, s, acts[0]).state, acts[1..], base, start);
    }
  }

  /** A frame that fails leaves the state as it found it, up to caches. */
  lemma FailedFrame(db: Store, p: Pricing, s: State, acts: seq<Act>)
    requires Valid(s.warm) && PerformAll(db, p, s, acts).Done?
    ensures var r := Revert(PerformAll(db, p, s, acts).state, |s.journal|); r.Some? && Same(db, s, r.value)
  {
    hide Same, PerformAll, Revert, Valid;
    var t := PerformAll(db, p, s, acts).state;
    Journal.Unchanged(db, s);
    PerformAllUnwinds(db, p, s, acts, |s.journal|, s);
    Journal.RevertUnwinds(db, t, |s.journal|, |s.journal|, s);
    Journal.RevertLength(db, t, |s.journal|, |s.journal|, s);
  }
}
