/**
 What execution may do to balances: from a state in which no account is overdrawn none becomes so, and over any
 set with all accounts involved the total does not grow.
 */
module Solvency {
  import opened AccessLists
  import opened StateSpec
  import opened Balances

  ghost predicate Solvent(db: Store, s: State) {
    forall a :: GetBalance(db, s, a) >= 0
  }

  /** Over every set of accounts with these among them the total does not grow. */
  ghost predicate NoGain(db: Store, s: State, t: State, involved: set<Address>) {
    forall accounts: set<Address> :: involved <= accounts ==> TotalOf(db, t, accounts) <= TotalOf(db, s, accounts)
  }

  /** Accounts keep their records; a solvent state stays solvent, and no ether is made. */
  ghost predicate Frugal(db: Store, s: State, t: State) {
    && (forall a :: Known(db, s, a) ==> Known(db, t, a))
    && (Solvent(db, s) ==> Solvent(db, t) && exists involved: set<Address> :: NoGain(db, s, t, involved))
  }

  lemma FrugalTransitive(db: Store, s: State, t: State, u: State)
    requires Frugal(db, s, t) && Frugal(db, t, u)
    ensures Frugal(db, s, u)
  {
    hide TotalOf, GetBalance, Known, Solvent;
    if Solvent(db, s) {
      var a, b :| NoGain(db, s, t, a) && NoGain(db, t, u, b);
      forall accounts: set<Address> | a + b <= accounts
        ensures TotalOf(db, u, accounts) <= TotalOf(db, s, accounts)
      {
        assert a <= accounts && b <= accounts;
      }
      assert NoGain(db, s, u, a + b);
    }
  }

  /** The same records and balances. */
  lemma FrugalByReadings(db: Store, s: State, t: State)
    requires forall a :: Known(db, t, a) == Known(db, s, a) && GetBalance(db, t, a) == GetBalance(db, s, a)
    ensures Frugal(db, s, t)
  {
    hide TotalOf, GetBalance, Known;
    forall accounts: set<Address> ensures TotalOf(db, t, accounts) <= TotalOf(db, s, accounts) {
      TotalSame(db, s, t, accounts);
    }
    assert NoGain(db, s, t, {});
  }

  lemma FrugalBySame(db: Store, s: State, t: State)
    requires Same(db, s, t)
    ensures Frugal(db, s, t)
  {
    hide Same, GetBalance, Known, Frugal;
    forall a ensures Known(db, t, a) == Known(db, s, a) && GetBalance(db, t, a) == GetBalance(db, s, a) {
      SameKnown(db, s, t, a);
    }
    FrugalByReadings(db, s, t);
  }

  lemma FrugalByObjects(db: Store, s: State, t: State)
    requires t.objects == s.objects
    ensures Frugal(db, s, t)
  {
    hide GetBalance, Known, Frugal;
    forall a ensures Known(db, t, a) == Known(db, s, a) && GetBalance(db, t, a) == GetBalance(db, s, a) {
      assert Get(t, a) == Get(s, a);
      ByObject(db, s, t, a);
    }
    FrugalByReadings(db, s, t);
  }

  // ---------------------------------------------------------------- operations

  /** A debit and a credit that the debited account can pay. */
  lemma FrugalTransfer(db: Store, s: State, from: Address, to: Address, amount: int)
    requires Solvent(db, s) ==> 0 <= amount && (amount == 0 || from == to || GetBalance(db, s, from) >= amount)
    ensures Frugal(db, s, Moved(s, from, to, amount))
  {
    hide TotalOf, GetBalance, Known, Credit;
    var t := Moved(s, from, to, amount);
    forall a ensures Known(db, t, a) == Known(db, s, a) {
      MovedReads(db, s, from, to, amount, a);
    }
    if Solvent(db, s) {
      if amount != 0 && from != to {
        ReadableIsKnown(db, s, from);
      }
      forall a ensures GetBalance(db, t, a) >= 0 {
        MovedReads(db, s, from, to, amount, a);
      }
      forall accounts: set<Address> | {from, to} <= accounts
        ensures TotalOf(db, t, accounts) <= TotalOf(db, s, accounts)
      {
        assert from in accounts && to in accounts;
        CreditTotal(db, s, from, 0 - amount, accounts);
        CreditMeans(db, s, from, 0 - amount, to);
        CreditTotal(db, Credit(s, from, 0 - amount), to, amount, accounts);
      }
      assert NoGain(db, s, t, {from, to});
    }
  }

  lemma MovedReads(db: Store, s: State, from: Address, to: Address, amount: int, a: Address)
    ensures var t := Moved(s, from, to, amount);
            && Known(db, t, a) == Known(db, s, a)
            && GetBalance(db, t, a) == GetBalance(db, s, a)
               + (if a == to && Known(db, s, a) then amount else 0)
               - (if a == from && Known(db, s, a) then amount else 0)
  {
    hide GetBalance, Known, Credit;
    CreditMeans(db, s, from, 0 - amount, a);
    CreditMeans(db, Credit(s, from, 0 - amount), to, amount, a);
  }

  lemma FrugalCreate(db: Store, s: State, a: Address)
    requires InRange(s.warm)
    ensures Frugal(db, s, Apply(db, s, CreateAccount(a)))
  {
    hide TotalOf, GetBalance, Known, Apply, HasSuicided;
    var t := Apply(db, s, CreateAccount(a));
    CreateMeans(db, s, a);
    forall b
      ensures Known(db, t, b) == (b == a || Known(db, s, b))
      ensures b != a ==> GetBalance(db, t, b) == GetBalance(db, s, b)
    {
      CreateElsewhere(db, s, a, b);
    }
    if Solvent(db, s) {
      forall accounts: set<Address> | {a} <= accounts ensures TotalOf(db, t, accounts) <= TotalOf(db, s, accounts) {
        assert a in accounts;
        CreateTotal(db, s, a, accounts);
      }
      assert NoGain(db, s, t, {a});
    }
  }

  /** The record of the account and everything its balance is made of. */
  predicate SameFunds(s: State, t: State, a: Address) {
    && Get(t, a).account == Get(s, a).account && Get(t, a).deleted == Get(s, a).deleted
    && Get(t, a).balanceDelta == Get(s, a).balanceDelta && Get(t, a).fakeBalance == Get(s, a).fakeBalance
  }

  lemma FundsDecide(db: Store, s: State, t: State, a: Address)
    requires SameFunds(s, t, a)
    ensures Known(db, t, a) == Known(db, s, a) && GetBalance(db, t, a) == GetBalance(db, s, a)
  {
  }

  /** Operations that write to an object but leave its funds alone. */
  predicate SparesFunds(op: Op) {
    op.SetNonce? || op.SetCode? || op.SetStorage? || op.SetState? || op.Suicide? || op.SelfDestruct6780?
  }

  lemma FundsSpared(db: Store, s: State, op: Op, a: Address)
    requires InRange(s.warm) && SparesFunds(op)
    ensures SameFunds(s, Apply(db, s, op), a)
  {
    hide AccountOf, Credit, Transient, WarmAddress, WarmSlot, Change, Created, Replaced, LoadAccount, LoadCode,
         LoadSlot;
  }

  /** What may be done at any time; a credit comes only after a debit. */
  predicate Free(op: Op) {
    SparesFunds(op) || TouchesNoObject(op) || op.CreateAccount? || (op.AddBalance? && op.amount == 0)
  }

  lemma FrugalByOp(db: Store, s: State, op: Op)
    requires InRange(s.warm) && Free(op)
    ensures Frugal(db, s, Apply(db, s, op))
  {
    hide Frugal, GetBalance, Known, SameFunds;
    var t := Apply(db, s, op);
    if op.CreateAccount? {
      FrugalCreate(db, s, op.a);
    } else if TouchesNoObject(op) || op.AddBalance? {
      ObjectsStay(db, s, op);
      FrugalByObjects(db, s, t);
    } else {
      forall a ensures Known(db, t, a) == Known(db, s, a) && GetBalance(db, t, a) == GetBalance(db, s, a) {
        FundsSpared(db, s, op, a);
        FundsDecide(db, s, t, a);
      }
      FrugalByReadings(db, s, t);
    }
  }

  lemma ObjectsStay(db: Store, s: State, op: Op)
    requires InRange(s.warm) && (TouchesNoObject(op) || (op.AddBalance? && op.amount == 0))
    ensures Apply(db, s, op).objects == s.objects
  {
    hide AddSlot, GetTransientState;
  }
}
