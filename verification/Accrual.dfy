/**
 The refund counter over execution with gas. Every write adds at most 200 gas of refund per unit it costs, so with
 that much room above, a covered counter stays covered and never leaves the unsigned 64-bit range.
 */
module Accrual {
  import opened Common
  import opened AccessLists
  import opened StateSpec
  import opened Sstore
  import opened Refund
  import SstoreGas

  /** No write adds more refund per unit of gas. */
  const RATE := 200

  /** The counter is where it was, and still covers the cleared slots if it did. */
  ghost predicate Idle(db: Store, s: State, t: State) {
    t.refund == s.refund && (Covered(db, EIP3529, s) ==> Covered(db, EIP3529, t))
  }

  /**
   Between two states `gas - left` was spent: a covered counter with room for it is still covered, with that much
   less room.
   */
  ghost predicate Accrues(db: Store, s: State, gas: int, t: State, left: int) {
    Covered(db, EIP3529, s) && s.refund + RATE * gas < TWO_64 ==>
      Covered(db, EIP3529, t) && t.refund + RATE * left <= s.refund + RATE * gas
  }

  lemma IdleTransitive(db: Store, s: State, t: State, u: State)
    requires Idle(db, s, t) && Idle(db, t, u)
    ensures Idle(db, s, u)
  {
    hide Covered;
  }

  lemma IdleBySame(db: Store, s: State, t: State)
    requires Same(db, s, t)
    ensures Idle(db, s, t)
  {
    hide Covered;
    if Covered(db, EIP3529, s) {
      SameCovered(db, EIP3529, s, t);
    }
  }

  lemma IdleByObjects(db: Store, s: State, t: State)
    requires t.objects == s.objects && t.refund == s.refund
    ensures Idle(db, s, t)
  {
    hide Cleared;
    SameObjectsCleared(db, s, t);
  }

  /** Everything but storage writes, refunds and reverts. */
  lemma IdleByOp(db: Store, s: State, op: Op)
    requires InRange(s.warm) && (IsPlain(op) || op.CreateAccount?)
    ensures Idle(db, s, Apply(db, s, op))
  {
    hide Apply, Cleared, Covered;
    if op.CreateAccount? {
      CreateKeepsRefund(db, s, op.a);
      if Covered(db, EIP3529, s) {
        CreateCovered(db, EIP3529, s, op.a);
      }
    } else {
      PlainKeepsStorage(db, s, op);
      if Covered(db, EIP3529, s) {
        PlainCovered(db, EIP3529, s, op);
      }
    }
  }

  lemma CreateKeepsRefund(db: Store, s: State, a: Address)
    requires InRange(s.warm)
    ensures Apply(db, s, CreateAccount(a)).refund == s.refund
  {
  }

  lemma IdleByTransfer(db: Store, s: State, from: Address, to: Address, amount: int)
    requires InRange(s.warm)
    ensures Idle(db, s, Moved(s, from, to, amount))
  {
    hide Idle, Credit;
    var t := Apply(db, s, SubBalance(from, amount));
    CreditWarm(s, from, 0 - amount);
    IdleByOp(db, s, SubBalance(from, amount));
    IdleByOp(db, t, AddBalance(to, amount));
    IdleTransitive(db, s, t, Moved(s, from, to, amount));
  }

  lemma CreditWarm(s: State, a: Address, amount: int)
    ensures Credit(s, a, amount).warm == s.warm
  {
  }

  // ---------------------------------------------------------------- gas

  lemma AccruesIdle(db: Store, s: State, gas: int, t: State, left: int)
    requires Idle(db, s, t) && left <= gas
    ensures Accrues(db, s, gas, t, left)
  {
    hide Covered;
  }

  lemma AccruesTransitive(db: Store, s: State, gas: int, t: State, mid: int, u: State, left: int)
    requires Accrues(db, s, gas, t, mid) && Accrues(db, t, mid, u, left)
    ensures Accrues(db, s, gas, u, left)
  {
    hide Covered;
  }

  /** Part of the gas is kept back, part of it may be lost. */
  lemma AccruesWithin(db: Store, s: State, gas: int, t: State, left: int, more: nat, whole: int, rest: int)
    requires Accrues(db, s, gas, t, left) && gas + more <= whole && rest <= left + more
    ensures Accrues(db, s, whole, t, rest)
  {
    hide Covered;
  }

  // ---------------------------------------------------------------- a storage write

  lemma RefundAtMost(original: Hash, current: Hash, value: Hash)
    ensures Total(Refunds(EIP3529, original, current, value)) <= 19900
  {
    TotalOfFew(Refunds(EIP3529, original, current, value));
  }

  lemma SameReads(db: Store, s: State, t: State, a: Address, k: Hash)
    requires t.objects == s.objects
    ensures GetState(db, t, a, k) == GetState(db, s, a, k)
    ensures GetCommittedState(db, t, a, k) == GetCommittedState(db, s, a, k)
  {
  }

  lemma SameCleared(db: Store, s: State, t: State)
    requires Same(db, s, t)
    ensures Cleared(db, s) == Cleared(db, t)
  {
    hide Cleared;
    forall a, k ensures IsCleared(db, s, a, k) == IsCleared(db, t, a, k) {
      hide AccountOf, CodeOf, CommittedOf;
      assert SameObject(db, a, Find(s.objects, a), Find(t.objects, a));
    }
    SameSet(db, s, t);
  }

  /** Writing the same slot of states equal up to caches clears the same slots. */
  lemma WriteSame(db: Store, s: State, t: State, a: Address, k: Hash, v: Hash)
    requires Same(db, s, t) && InRange(s.warm)
    ensures t.warm == s.warm && t.refund == s.refund
    ensures var x, y := Apply(db, s, SetState(a, k, v)), Apply(db, t, SetState(a, k, v));
            Cleared(db, x) == Cleared(db, y) && y.refund == x.refund
  {
    hide Cleared, SameObjects, GetCommittedState, GetState, Apply;
    SameCleared(db, s, t);
    SameCommitted(db, s, t, a, k);
    WriteMoves(db, s, a, k, v);
    WriteMoves(db, t, a, k, v);
    SetStateKeepsRefund(db, s, a, k, v);
    SetStateKeepsRefund(db, t, a, k, v);
  }

  lemma SameCommitted(db: Store, s: State, t: State, a: Address, k: Hash)
    requires Same(db, s, t)
    ensures GetCommittedState(db, t, a, k) == GetCommittedState(db, s, a, k)
  {
    hide AccountOf, CodeOf;
    assert SameObject(db, a, Find(s.objects, a), Find(t.objects, a));
  }

  /**
   An SSTORE, charged and then written: with room above, no call on the counter leaves its range, the slots are
   covered again, and the refund is paid for.
   */
  lemma SstoreAccrues(db: Store, s: State, a: Address, k: Hash, v: Hash, t: State, gas: int, cost: int)
    requires InRange(s.warm) && gas > SstoreGas.SENTRY && cost >= 100
    requires var original, current := GetCommittedState(db, s, a, k), GetState(db, s, a, k);
             SstoreGas.Settled(db, WarmSlot(s, a, k), Refunds(EIP3529, original, current, v), t)
    ensures InRange(t.warm) && Accrues(db, s, gas, Apply(db, t, SetState(a, k, v)), gas - cost)
    ensures Covered(db, EIP3529, s) && s.refund + RATE * gas < TWO_64 ==>
              Charge(db, EIP3529, WarmSlot(s, a, k), a, k, v).Done?
  {
    hide Covered, Cleared, Apply, GetState, GetCommittedState, Refunds, WarmSlot, Same;
    var u := WarmSlot(s, a, k);
    var original, current := GetCommittedState(db, s, a, k), GetState(db, s, a, k);
    var xs := Refunds(EIP3529, original, current, v);
    var w := ChangeAll(u, xs);
    WarmedRange(s, a, k);
    SameReads(db, s, u, a, k);
    WriteSame(db, w, t, a, k, v);
    IdleByObjects(db, s, u);
    if Covered(db, EIP3529, s) && s.refund + RATE * gas < TWO_64 {
      PricingsBalanced();
      ChargeSafe(db, EIP3529, u, a, k, v);
      assert Charge(db, EIP3529, u, a, k, v) == Done(w);
      WriteCovered(db, EIP3529, u, a, k, v);
      RefundAtMost(original, current, v);
      SetStateKeepsRefund(db, w, a, k, v);
      CoveredByCleared(db, Apply(db, w, SetState(a, k, v)), Apply(db, t, SetState(a, k, v)));
    }
  }

  lemma CoveredByCleared(db: Store, s: State, t: State)
    requires Cleared(db, s) == Cleared(db, t) && s.refund == t.refund && Covered(db, EIP3529, s)
    ensures Covered(db, EIP3529, t)
  {
  }

  lemma WarmedRange(s: State, a: Address, k: Hash)
    requires InRange(s.warm)
    ensures var u := WarmSlot(s, a, k); InRange(u.warm) && u.objects == s.objects && u.refund == s.refund
  {
  }
}
