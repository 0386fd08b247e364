/**
 The total of the readable balances over a set of accounts. A credit to an account without a record changes no
 reading, so totals are kept only where the receiving account is known; here is exactly when.
 */
module Balances {
  import opened AccessLists
  import opened StateSpec
  import Journal

  ghost function TotalOf(db: Store, s: State, accounts: set<Address>): int {
    if accounts == {} then 0
    else
      var a :| a in accounts;
      GetBalance(db, s, a) + TotalOf(db, s, accounts - {a})
  }

  /** Any account may be split off first. */
  lemma {:induction false} TotalSplits(db: Store, s: State, accounts: set<Address>, a: Address)
    requires a in accounts
    ensures TotalOf(db, s, accounts) == GetBalance(db, s, a) + TotalOf(db, s, accounts - {a})
    decreases |accounts|
  {
    hide GetBalance;
    var b :| b in accounts && TotalOf(db, s, accounts) == GetBalance(db, s, b) + TotalOf(db, s, accounts - {b});
    if a != b {
      TotalSplits(db, s, accounts - {b}, a);
      assert (accounts - {b}) - {a} == (accounts - {a}) - {b};
      TotalSplits(db, s, accounts - {a}, b);
    }
  }

  lemma {:induction false} TotalSame(db: Store, s: State, t: State, accounts: set<Address>)
    requires forall a :: a in accounts ==> GetBalance(db, t, a) == GetBalance(db, s, a)
    ensures TotalOf(db, t, accounts) == TotalOf(db, s, accounts)
    decreases |accounts|
  {
    hide GetBalance;
    if accounts != {} {
      var a :| a in accounts;
      TotalSplits(db, s, accounts, a);
      TotalSplits(db, t, accounts, a);
      TotalSame(db, s, t, accounts - {a});
    }
  }

  /** One account changed. */
  lemma TotalChange(db: Store, s: State, t: State, accounts: set<Address>, a: Address)
    requires a in accounts && forall b :: b != a ==> GetBalance(db, t, b) == GetBalance(db, s, b)
    ensures TotalOf(db, t, accounts) - TotalOf(db, s, accounts) == GetBalance(db, t, a) - GetBalance(db, s, a)
  {
    hide GetBalance, TotalOf;
    TotalSplits(db, s, accounts, a);
    TotalSplits(db, t, accounts, a);
    TotalSame(db, s, t, accounts - {a});
  }

  /** Of a credit the total sees what is readable: all of it on a known account, nothing on any other. */
  lemma CreditTotal(db: Store, s: State, a: Address, amount: int, accounts: set<Address>)
    requires a in accounts
    ensures TotalOf(db, Credit(s, a, amount), accounts)
            == TotalOf(db, s, accounts) + if Known(db, s, a) then amount else 0
  {
    hide GetBalance, Known, Credit, TotalOf;
    var t := Credit(s, a, amount);
    forall b ensures GetBalance(db, t, b) == GetBalance(db, s, b) + if b == a && Known(db, s, a) then amount else 0 {
      CreditMeans(db, s, a, amount, b);
    }
    TotalChange(db, s, t, accounts, a);
  }

  /** A transfer keeps the total exactly when nothing moves or both accounts are known or unknown alike. */
  lemma TransferTotal(db: Store, s: State, from: Address, to: Address, amount: int, accounts: set<Address>)
    requires from in accounts && to in accounts
    ensures TotalOf(db, Moved(s, from, to, amount), accounts) == TotalOf(db, s, accounts)
            <==> amount == 0 || Known(db, s, from) == Known(db, s, to)
  {
    hide GetBalance, Known, Credit, TotalOf;
    CreditTotal(db, s, from, 0 - amount, accounts);
    CreditMeans(db, s, from, 0 - amount, to);
    CreditTotal(db, Credit(s, from, 0 - amount), to, amount, accounts);
  }

  /** What is readable has a record. */
  lemma ReadableIsKnown(db: Store, s: State, a: Address)
    requires GetBalance(db, s, a) != 0
    ensures Known(db, s, a)
  {
  }

  lemma SameKnown(db: Store, s: State, t: State, a: Address)
    requires Same(db, s, t)
    ensures Known(db, t, a) == Known(db, s, a) && GetBalance(db, t, a) == GetBalance(db, s, a)
    ensures HasSuicided(t, a) == HasSuicided(s, a)
  {
    hide GetBalance, HasSuicided;
    SameIsSeen(db, s, t);
    assert SameObject(db, a, Find(s.objects, a), Find(t.objects, a));
  }

  lemma SameTotal(db: Store, s: State, t: State, accounts: set<Address>)
    requires Same(db, s, t)
    ensures TotalOf(db, t, accounts) == TotalOf(db, s, accounts)
  {
    hide GetBalance, TotalOf, Same;
    forall a ensures GetBalance(db, t, a) == GetBalance(db, s, a) {
      SameKnown(db, s, t, a);
    }
    TotalSame(db, s, t, accounts);
  }

  // ---------------------------------------------------------------- calls and self-destructs

  /** SELFDESTRUCT keeps the total exactly when there is nothing to move or the beneficiary is known. */
  lemma SelfdestructTotal(db: Store, s: State, t: State, a: Address, beneficiary: Address, end: State,
                          accounts: set<Address>)
    requires Same(db, s, t) && a in accounts && beneficiary in accounts
    requires var balance := GetBalance(db, s, a);
             forall b :: GetBalance(db, end, b) == GetBalance(db, Moved(t, a, beneficiary, balance), b)
    ensures TotalOf(db, end, accounts) == TotalOf(db, s, accounts)
            <==> GetBalance(db, s, a) == 0 || Known(db, s, beneficiary)
  {
    hide GetBalance, TotalOf, Same, Known, Moved;
    var balance := GetBalance(db, s, a);
    TotalSame(db, Moved(t, a, beneficiary, balance), end, accounts);
    TransferTotal(db, t, a, beneficiary, balance, accounts);
    SameTotal(db, s, t, accounts);
    SameKnown(db, s, t, a);
    SameKnown(db, s, t, beneficiary);
    if balance != 0 {
      ReadableIsKnown(db, s, a);
    }
  }

  /**
   Creating an account keeps every balance but that of a destroyed predecessor, and the account is known from
   then on.
   */
  lemma CreateTotal(db: Store, s: State, a: Address, accounts: set<Address>)
    requires InRange(s.warm) && a in accounts
    ensures var t := Apply(db, s, CreateAccount(a));
            && (forall b :: Known(db, t, b) == (b == a || Known(db, s, b)))
            && TotalOf(db, t, accounts)
               == TotalOf(db, s, accounts) - if HasSuicided(s, a) then GetBalance(db, s, a) else 0
  {
    hide GetBalance, TotalOf, Known, HasSuicided, Apply;
    var t := Apply(db, s, CreateAccount(a));
    CreateMeans(db, s, a);
    forall b
      ensures Known(db, t, b) == (b == a || Known(db, s, b))
      ensures b != a ==> GetBalance(db, t, b) == GetBalance(db, s, b)
    {
      CreateElsewhere(db, s, a, b);
    }
    TotalChange(db, s, t, accounts, a);
  }

  lemma CreateElsewhere(db: Store, s: State, a: Address, b: Address)
    requires InRange(s.warm)
    ensures var t := Apply(db, s, CreateAccount(a));
            && Known(db, t, b) == (b == a || Known(db, s, b))
            && (b != a ==> GetBalance(db, t, b) == GetBalance(db, s, b))
  {
    hide LoadAccount;
    var t := Apply(db, s, CreateAccount(a));
    assert b != a ==> Get(t, b) == Get(s, b);
    if b != a {
      ByObject(db, s, t, b);
    }
  }

  lemma ByObject(db: Store, s: State, t: State, b: Address)
    requires Get(t, b) == Get(s, b)
    ensures Known(db, t, b) == Known(db, s, b) && GetBalance(db, t, b) == GetBalance(db, s, b)
  {
  }

  /**
   What the beginning of a call does to the total: the value is lost when the callee exists but has no record, and
   a destroyed callee that no longer exists loses the balance it still had. In no other case does the total change.
   */
  lemma CallTotal(db: Store, s: State, u: State, caller: Address, addr: Address, value: nat, created: bool,
                  accounts: set<Address>)
    requires Same(db, s, u) && InRange(u.warm) && caller in accounts && addr in accounts
    requires value == 0 || GetBalance(db, s, caller) >= value
    ensures var v := if created then Apply(db, u, CreateAccount(addr)) else u;
            TotalOf(db, Moved(v, caller, addr, value), accounts) == TotalOf(db, s, accounts)
            <==> && (value == 0 || created || Known(db, s, addr))
                 && !(created && HasSuicided(s, addr) && GetBalance(db, s, addr) != 0)
  {
    hide GetBalance, TotalOf, Same, Known, Moved, Apply, HasSuicided;
    SameTotal(db, s, u, accounts);
    SameKnown(db, s, u, caller);
    SameKnown(db, s, u, addr);
    if value != 0 {
      ReadableIsKnown(db, s, caller);
    }
    if created {
      var v := Apply(db, u, CreateAccount(addr));
      CreateTotal(db, u, addr, accounts);
      assert Known(db, v, addr);
      assert value != 0 ==> Known(db, v, caller);
      TransferTotal(db, v, caller, addr, value, accounts);
    } else {
      TransferTotal(db, u, caller, addr, value, accounts);
    }
  }

  // ---------------------------------------------------------------- accounts stay known

  /** No undo entry above base takes a record away from the account. */
  ghost predicate KeepsRecord(db: Store, s: State, base: nat, a: Address) {
    forall i :: base <= i < |s.journal| && s.journal[i].RestoreObject? && s.journal[i].a == a ==>
      !s.journal[i].prev.deleted && AccountOf(db, a, s.journal[i].prev).Some?
  }

  /** A record is taken away by no operation. */
  lemma ApplyKnown(db: Store, s: State, op: Op, a: Address)
    requires InRange(s.warm) && !op.RevertToSnapshot? && Known(db, s, a)
    ensures Known(db, Apply(db, s, op), a)
  {
    hide AddSlot, Known, GetBalance;
    if op.CreateAccount? {
      CreateElsewhere(db, s, op.a, a);
    } else if Journal.IsRead(op) {
      Journal.ReadSame(db, s, op);
      SameKnown(db, s, Apply(db, s, op), a);
    } else {
      RecordKept(db, s, op, a);
      RecordDecides(db, s, Apply(db, s, op), a);
    }
  }

  /** The record of the account is the same in both states. */
  predicate SameRecord(s: State, t: State, a: Address) {
    Get(t, a).account == Get(s, a).account && Get(t, a).deleted == Get(s, a).deleted
  }

  lemma PutRecord(s: State, b: Address, o: Object, a: Address)
    requires o.account == Get(s, b).account && o.deleted == Get(s, b).deleted
    ensures SameRecord(s, Put(s, b, o), a)
  {
  }

  lemma CreditRecord(s: State, b: Address, amount: int, a: Address)
    ensures SameRecord(s, Credit(s, b, amount), a)
  {
  }

  lemma SlotRecord(s: State, b: Address, k: Hash, v: Hash, a: Address)
    ensures SameRecord(s, PutSlot(s, b, k, v), a)
  {
  }

  lemma DestroyRecord(s: State, b: Address, a: Address)
    ensures SameRecord(s, Destroy(s, b), a) && SameRecord(s, Put(s, b, Get(s, b)), a)
  {
  }

  lemma SetterRecord(db: Store, s: State, op: Op, a: Address)
    requires InRange(s.warm) && Journal.IsSetter(op)
    ensures SameRecord(s, Apply(db, s, op), a)
  {
    hide AccountOf, Credit, PutSlot, Destroy, Transient, WarmAddress, WarmSlot, Change, Created, Replaced;
  }

  predicate TouchesNoObject(op: Op) {
    op.SetTransientState? || op.AddRefund? || op.SubRefund? || op.AddAddressToAccessList? || op.AddSlotToAccessList?
  }

  lemma OtherRecord(db: Store, s: State, op: Op, a: Address)
    requires InRange(s.warm) && TouchesNoObject(op)
    ensures SameRecord(s, Apply(db, s, op), a)
  {
    hide Find, AddSlot, GetTransientState;
  }

  lemma RecordKept(db: Store, s: State, op: Op, a: Address)
    requires InRange(s.warm) && !op.RevertToSnapshot? && !op.CreateAccount? && !Journal.IsRead(op)
    ensures SameRecord(s, Apply(db, s, op), a)
  {
    hide SameRecord, Credit, PutSlot, Destroy, Transient, WarmAddress, WarmSlot, Change, Find;
    if Journal.IsSetter(op) {
      SetterRecord(db, s, op, a);
    } else if TouchesNoObject(op) {
      OtherRecord(db, s, op, a);
    } else if op.AddBalance? {
      CreditRecord(s, op.a, op.amount, a);
    } else if op.SubBalance? {
      CreditRecord(s, op.a, 0 - op.amount, a);
    } else if op.SetState? {
      SlotRecord(s, op.a, op.k, op.value, a);
    } else {
      DestroyRecord(s, op.a, a);
    }
  }

  lemma RecordDecides(db: Store, s: State, t: State, a: Address)
    requires SameRecord(s, t, a)
    ensures Known(db, t, a) == Known(db, s, a)
  {
  }

  /** Only a creation writes an entry that restores a whole object, and it restores the one it found. */
  lemma ApplyEntries(db: Store, s: State, op: Op)
    requires InRange(s.warm) && !op.RevertToSnapshot?
    ensures s.journal <= Apply(db, s, op).journal
    ensures var j := Apply(db, s, op).journal;
            forall i :: |s.journal| <= i < |j| && j[i].RestoreObject? ==>
              op.CreateAccount? && j[i] == RestoreObject(op.a, Replaced(db, op.a, Get(s, op.a)))
  {
    hide AddSlot, AddAddress, Find, GetTransientState, ContainsSlot, Replaced, Created, LoadAccount, LoadCode,
         LoadSlot;
  }

  lemma ReplacedKnown(db: Store, s: State, a: Address)
    requires Known(db, s, a)
    ensures var prev := Replaced(db, a, Get(s, a)); !prev.deleted && AccountOf(db, a, prev).Some?
  {
  }

  lemma ApplyKeepsRecord(db: Store, s: State, op: Op, base: nat, a: Address)
    requires InRange(s.warm) && !op.RevertToSnapshot? && Known(db, s, a) && KeepsRecord(db, s, base, a)
    ensures Known(db, Apply(db, s, op), a) && KeepsRecord(db, Apply(db, s, op), base, a)
  {
    hide Apply, Known, Replaced, AccountOf;
    ApplyKnown(db, s, op, a);
    ApplyEntries(db, s, op);
    ReplacedKnown(db, s, a);
  }

  lemma PopKeepsRecord(db: Store, s: State, base: nat, a: Address)
    requires base < |s.journal| && Pop(s).Some? && Known(db, s, a) && KeepsRecord(db, s, base, a)
    ensures Known(db, Pop(s).value, a) && KeepsRecord(db, Pop(s).value, base, a)
  {
    hide Unwind, CanUndo, Known, AccountOf;
    UnwindKnown(db, s, s.journal[|s.journal| - 1], a);
    KnownByObject(db, Unwind(s.journal[|s.journal| - 1], s), Pop(s).value, a);
  }

  lemma KnownByObject(db: Store, s: State, t: State, a: Address)
    requires t.objects == s.objects
    ensures Known(db, t, a) == Known(db, s, a)
  {
  }

  lemma UnwindKnown(db: Store, s: State, e: Undo, a: Address)
    requires CanUndo(e, s) && Known(db, s, a)
    requires e.RestoreObject? && e.a == a ==> !e.prev.deleted && AccountOf(db, a, e.prev).Some?
    ensures Known(db, Unwind(e, s), a)
  {
    hide DeleteSlot, DeleteAddress, Find;
    if Journal.TouchesObject(e) {
      Journal.UnwindIsObject(e, s);
      if e.a != a || e.RestoreObject? {
        PutKnown(db, s, e.a, Journal.UnwindObject(e, Get(s, e.a)), a);
      } else {
        PutRecord(s, a, Journal.UnwindObject(e, Get(s, a)), a);
        RecordDecides(db, s, Unwind(e, s), a);
      }
    } else {
      assert Unwind(e, s).objects == s.objects;
    }
  }

  lemma PutKnown(db: Store, s: State, b: Address, o: Object, a: Address)
    requires Known(db, s, a) && (a == b ==> !o.deleted && AccountOf(db, a, o).Some?)
    ensures Known(db, Put(s, b, o), a)
  {
  }

  lemma {:induction false} RevertKeepsRecord(db: Store, s: State, id: nat, base: nat, a: Address)
    requires base <= id && Revert(s, id).Some? && Known(db, s, a) && KeepsRecord(db, s, base, a)
    ensures Known(db, Revert(s, id).value, a) && KeepsRecord(db, Revert(s, id).value, base, a)
    decreases |s.journal|
  {
    hide Pop, Known, KeepsRecord;
    if |s.journal| > id {
      PopKeepsRecord(db, s, base, a);
      RevertKeepsRecord(db, Pop(s).value, id, base, a);
    }
  }

  /** Through any run with nested snapshots and reverts, an account that was known stays known. */
  lemma {:induction false} KnownStays(db: Store, s: State, ops: seq<Op>, base: nat, a: Address)
    requires Journal.RevertsAbove(db, s, base, ops) && Journal.Run(db, s, ops).Some?
    requires Known(db, s, a) && KeepsRecord(db, s, base, a)
    ensures Known(db, Journal.Run(db, s, ops).value, a)
    decreases |ops|
  {
    hide Apply, Revert, Known, KeepsRecord;
    if ops != [] {
      if ops[0].RevertToSnapshot? {
        RevertKeepsRecord(db, s, ops[0].id, base, a);
      } else {
        ApplyKeepsRecord(db, s, ops[0], base, a);
      }
      KnownStays(db, Journal.Step(db, s, ops[0]).value, ops[1..], base, a);
    }
  }
}
