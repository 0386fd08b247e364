/** The state database of the EVM, updated in place; each method is proved against `StateSpec`. */
module StateDB {
  import opened Common
  import opened AccessLists
  import opened StateSpec
  import Journal
  import StateCaches

  class Database {
    const db: Store
    var journal: seq<Undo>
    var objects: map<Address, Object>
    var transient: map<Address, map<Hash, Hash>>
    var refund: uint64
    const accessList: AccessList

    function Contents(): State
      reads this, accessList
    {
      State(objects, transient, refund, accessList.Contents(), journal)
    }

    ghost predicate Sound()
      reads this, accessList
    {
      InRange(accessList.Contents())
    }

    constructor (db: Store)
      ensures this.db == db && fresh(accessList) && Sound() && Valid(Contents().warm)
      ensures Contents() == State(map[], map[], 0, EMPTY, [])
    {
      this.db, journal, objects, transient, refund := db, [], map[], map[], 0;
      accessList := new AccessList();
    }

    // -------------------------------------------------------------- readings

    /** getAccount: an unknown address gets an empty object. */
    method GetAccount(a: Address) returns (o: Object)
      modifies `objects
      ensures o == old(Get(Contents(), a)) && objects == old(objects)[a := o]
    {
      if a in objects {
        o := objects[a];
        assert objects == objects[a := o];
        return;
      }
      o := FRESH;
      objects := objects[a := o];
    }

    method Balance(a: Address) returns (r: int)
      requires Sound()
      modifies `objects
      ensures r == old(GetBalance(db, Contents(), a))
      ensures Contents() == Apply(db, old(Contents()), ReadAccount(a)) && Same(db, old(Contents()), Contents())
    {
      hide Same, AccountOf;
      var o := GetAccount(a);
      var (p, found) := LoadAccount(db, a, o);
      objects := objects[a := p];
      Journal.ReadSame(db, old(Contents()), ReadAccount(a));
      r := if found then CachedBalance(p) else 0;
    }

    method Nonce(a: Address) returns (r: uint64)
      requires Sound()
      modifies `objects
      ensures r == old(GetNonce(db, Contents(), a)) && Same(db, old(Contents()), Contents())
    {
      hide SameObject, AccountOf;
      var o := GetAccount(a);
      Journal.SameReflexive(db, old(Contents()));
      assert SameObject(db, a, Find(old(objects), a), Find(old(objects), a));
      Journal.PutBack(db, old(objects), a, o);
      if o.nonce.Some? {
        return o.nonce.value;
      }
      var (p, found) := LoadAccount(db, a, o);
      objects := objects[a := p];
      Journal.ReadSame(db, old(Contents()), ReadAccount(a));
      r := if found then p.account.value.nonce else 0;
    }

    method CodeBytes(a: Address) returns (r: seq<byte>)
      requires Sound()
      modifies `objects
      ensures r == old(GetCode(db, Contents(), a))
      ensures Contents() == Apply(db, old(Contents()), ReadCode(a)) && Same(db, old(Contents()), Contents())
    {
      hide Same, AccountOf, CodeOf;
      var o := GetAccount(a);
      var (p, found) := LoadCode(db, a, o);
      objects := objects[a := p];
      Journal.ReadSame(db, old(Contents()), ReadCode(a));
      r := if found then p.code.value.bytes else [];
    }

    method CommittedSlot(a: Address, k: Hash) returns (r: Hash)
      requires Sound()
      modifies `objects
      ensures r == old(GetCommittedState(db, Contents(), a, k))
      ensures Contents() == Apply(db, old(Contents()), ReadSlot(a, k)) && Same(db, old(Contents()), Contents())
    {
      hide Same;
      var o := GetAccount(a);
      var p := LoadSlot(db, a, o, k);
      objects := objects[a := p];
      Journal.ReadSame(db, old(Contents()), ReadSlot(a, k));
      r := if k in p.clean then p.clean[k] else 0;
    }

    method Slot(a: Address, k: Hash) returns (r: Hash)
      requires Sound()
      modifies `objects
      ensures r == old(GetState(db, Contents(), a, k)) && Same(db, old(Contents()), Contents())
    {
      hide SameObject;
      var o := GetAccount(a);
      Journal.SameReflexive(db, old(Contents()));
      assert SameObject(db, a, Find(old(objects), a), Find(old(objects), a));
      Journal.PutBack(db, old(objects), a, o);
      if k in o.dirty {
        return o.dirty[k];
      }
      ghost var s := Contents();
      r := CommittedSlot(a, k);
      Journal.SameTransitive(db, old(Contents()), s, Contents());
    }

    method CodeHashAt(a: Address) returns (r: Hash)
      requires Sound()
      modifies `objects
      ensures r == old(StateCaches.CodeHash(db, a, Get(Contents(), a))) && Same(db, old(Contents()), Contents())
    {
      hide SameObject, AccountOf;
      var o := GetAccount(a);
      Journal.ReadSame(db, old(Contents()), ReadCode(a));
      if o.account.Some? {
        Untouched(old(Contents()), a);
        return o.account.value.codeHash;
      }
      var (p, found) := LoadCode(db, a, o);
      objects := objects[a := p];
      r := if found then StateCaches.HashOf(db, p.code.value) else EmptyCode(db);
    }

    /** getAccount alone changes no reading. */
    lemma Untouched(s: State, a: Address)
      ensures Same(db, s, Put(s, a, Get(s, a)))
    {
      hide SameObject;
      Journal.SameReflexive(db, s);
      assert SameObject(db, a, Find(s.objects, a), Find(s.objects, a));
      Journal.PutBack(db, s.objects, a, Get(s, a));
    }

    /** stateObject.empty: the nonce first, then the balance, then the code hash. */
    method Vacant(a: Address) returns (r: bool)
      requires Sound()
      modifies `objects
      ensures r == old(StateCaches.IsEmpty(db, a, Get(Contents(), a))) && Same(db, old(Contents()), Contents())
    {
      hide SameObjects, SameTransient, AccountOf, StateCaches.CodeHash;
      var o := GetAccount(a);
      var p := if o.nonce.Some? then o else LoadAccount(db, a, o).0;
      var n := if o.nonce.Some? then o.nonce.value else if LoadAccount(db, a, o).1 then p.account.value.nonce else 0;
      objects := objects[a := p];
      assert objects == old(objects)[a := p];
      Journal.ReadSame(db, old(Contents()), ReadAccount(a));
      Untouched(old(Contents()), a);
      if n != 0 || CachedBalance(p) != 0 {
        return false;
      }
      ghost var s := Contents();
      var h := CodeHashAt(a);
      Journal.SameTransitive(db, old(Contents()), s, Contents());
      return h == EmptyCode(db);
    }

    /** Empty, as EIP-161 has it; a destroyed account is empty too. */
    method Empty(a: Address) returns (r: bool)
      requires Sound()
      modifies `objects
      ensures r == old(StateCaches.Empty(db, Contents(), a)) && Same(db, old(Contents()), Contents())
    {
      hide SameObjects, SameTransient, StateCaches.IsEmpty;
      var o := GetAccount(a);
      Untouched(old(Contents()), a);
      if o.deleted || o.suicided {
        return true;
      }
      ghost var s := Contents();
      var empty := Vacant(a);
      Journal.SameTransitive(db, old(Contents()), s, Contents());
      return empty;
    }

    method Exists(a: Address) returns (r: bool)
      requires Sound()
      modifies `objects
      ensures r == old(StateCaches.Exist(db, Contents(), a)) && Same(db, old(Contents()), Contents())
    {
      hide SameObjects, SameTransient, StateCaches.IsEmpty;
      var o := GetAccount(a);
      Untouched(old(Contents()), a);
      if o.deleted {
        return false;
      }
      ghost var s := Contents();
      var empty := Vacant(a);
      Journal.SameTransitive(db, old(Contents()), s, Contents());
      return !empty;
    }

    // -------------------------------------------------------------- mutators

    method AddSigned(a: Address, amount: int)
      modifies `objects, `journal
      ensures Contents() == Shift(old(Contents()), a, amount)
    {
      var o := GetAccount(a);
      if o.balanceDelta.None? {
        objects := objects[a := o.(balanceDelta := Some(amount))];
        journal := journal + [ClearDelta(a)];
      } else {
        objects := objects[a := o.(balanceDelta := Some(o.balanceDelta.value + amount))];
        journal := journal + [ShiftDelta(a, 0 - amount)];
      }
    }

    method SetSlot(a: Address, k: Hash, v: Hash)
      modifies `objects, `journal
      ensures Contents() == PutSlot(old(Contents()), a, k, v)
    {
      var o := GetAccount(a);
      objects := objects[a := o.(dirty := o.dirty[k := v])];
      journal := journal + [if k in o.dirty then RestoreSlot(a, k, o.dirty[k]) else RemoveSlot(a, k)];
    }

    method SetTransient(a: Address, k: Hash, v: Hash)
      modifies `transient, `journal
      ensures Contents() == Transient(old(Contents()), a, k, v)
    {
      if a !in transient {
        transient := transient[a := map[]];
      }
      var s: map<Hash, Hash> := transient[a];
      var was := if k in s then s[k] else 0;
      journal := journal + [RestoreTransient(a, k, was)];
      transient := transient[a := s[k := v]];
    }

    method PutNonce(a: Address, n: uint64)
      requires Sound()
      modifies `objects, `journal
      ensures Contents() == Apply(db, old(Contents()), SetNonce(a, n))
    {
      var o := GetAccount(a);
      objects := objects[a := o.(nonce := Some(n))];
      journal := journal + [RestoreNonce(a, o.nonce)];
    }

    method PutCode(a: Address, c: seq<byte>)
      requires Sound()
      modifies `objects, `journal
      ensures Contents() == Apply(db, old(Contents()), SetCode(a, c))
    {
      var o := GetAccount(a);
      objects := objects[a := o.(code := Some(Code(c, db.keccak(c))))];
      journal := journal + [RestoreCode(a, o.code)];
    }

    method PutBalance(a: Address, b: int)
      requires Sound()
      modifies `objects, `journal
      ensures Contents() == Apply(db, old(Contents()), SetBalance(a, b))
    {
      var o := GetAccount(a);
      objects := objects[a := o.(fakeBalance := Some(b))];
      journal := journal + [RestoreBalance(a, o.fakeBalance)];
    }

    method PutStorage(a: Address, d: map<Hash, Hash>)
      requires Sound()
      modifies `objects, `journal
      ensures Contents() == Apply(db, old(Contents()), SetStorage(a, d))
    {
      var o := GetAccount(a);
      objects := objects[a := o.(dirty := d)];
      journal := journal + [RestoreDirty(a, o.dirty)];
    }

    /** CreateAccount: a new object that inherits the balance of a live predecessor. */
    method Create(a: Address)
      requires Sound()
      modifies `objects, `journal
      ensures Contents() == Apply(db, old(Contents()), CreateAccount(a))
    {
      hide AccountOf;
      var prev := GetAccount(a);
      var created := FRESH.(account := Some(NO_ACCOUNT), created := true);
      if !prev.deleted && !prev.suicided {
        var (p, found) := LoadAccount(db, a, prev);
        prev := p;
        if found {
          created := created.(balanceDelta := Some(CachedBalance(prev)));
        }
      }
      objects := objects[a := created];
      journal := journal + [RestoreObject(a, prev)];
    }

    method Kill(a: Address) returns (ok: bool)
      modifies `objects, `journal
      ensures Contents() == Destroy(old(Contents()), a)
      ensures ok == !(old(Get(Contents(), a)).suicided || old(Get(Contents(), a)).deleted)
    {
      var o := GetAccount(a);
      if o.suicided || o.deleted {
        return false;
      }
      objects := objects[a := o.(suicided := true)];
      journal := journal + [Unsuicide(a)];
      return true;
    }

    method ChangeRefund(amount: int)
      modifies `refund, `journal
      ensures Contents() == Change(old(Contents()), amount)
    {
      var was := refund;
      refund := ((refund as int) + amount) % TWO_64;
      journal := journal + [RestoreRefund(was)];
    }

    method Warm(a: Address)
      modifies `journal, accessList
      ensures Contents() == WarmAddress(old(Contents()), a)
    {
      var changed := accessList.Add(a);
      if changed {
        journal := journal + [CoolAddress(a)];
      }
    }

    method WarmStorage(a: Address, k: Hash)
      requires Sound()
      modifies `journal, accessList
      ensures Contents() == WarmSlot(old(Contents()), a, k)
    {
      var addrMod, slotMod := accessList.Slot(a, k);
      if addrMod {
        journal := journal + [CoolAddress(a)];
      }
      if slotMod {
        journal := journal + [CoolSlot(a, k)];
      }
    }

    // -------------------------------------------------------------- snapshots

    method Snapshot() returns (id: nat)
      ensures id == |journal| && id == |Contents().journal|
    {
      id := |journal|;
    }

    /** Running one undo closure on the object it closes over. */
    method RunObjectUndo(e: Undo)
      requires Journal.TouchesObject(e) && CanUndo(e, Contents())
      modifies `objects
      ensures Contents() == Unwind(e, old(Contents()))
    {
      var o := GetAccount(e.a);
      objects := objects[e.a := Journal.UnwindObject(e, o)];
      Journal.UnwindIsObject(e, old(Contents()));
    }

    method RunUndo(e: Undo)
      requires CanUndo(e, Contents())
      modifies `objects, `transient, `refund, accessList
      ensures Contents() == Unwind(e, old(Contents()))
    {
      if Journal.TouchesObject(e) {
        RunObjectUndo(e);
      } else if e.RestoreRefund? {
        refund := e.refund;
      } else if e.RestoreTransient? {
        var m: map<Hash, Hash> := transient[e.a];
        transient := transient[e.a := m[e.k := e.value]];
      } else if e.CoolAddress? {
        accessList.Remove(e.a);
      } else {
        accessList.RemoveSlot(e.a, e.k);
      }
    }

    /** RevertToSnapshot: the entries run from the last to the snapshot, then the journal is cut. */
    method RevertTo(id: nat)
      requires id <= |journal| && Revert(Contents(), id).Some?
      modifies this, accessList
      ensures Some(Contents()) == Revert(old(Contents()), id)
    {
      hide Unwind, CanUndo;
      var i := |journal|;
      assert journal[..i] == journal;
      while i > id
        invariant id <= i <= |journal| && journal == old(journal)
        invariant Revert(old(Contents()), id) == Revert(Contents().(journal := journal[..i]), id)
      {
        ghost var s := Contents().(journal := journal[..i]);
        UnwindWithout(journal[i - 1], Contents(), journal[..i]);
        RunUndo(journal[i - 1]);
        i := i - 1;
        assert s.journal[..i] == journal[..i];
      }
      journal := journal[..id];
    }

    /** Undo closures do not look at the journal. */
    static lemma UnwindWithout(e: Undo, s: State, j: seq<Undo>)
      ensures CanUndo(e, s.(journal := j)) == CanUndo(e, s)
      ensures CanUndo(e, s) ==> Unwind(e, s.(journal := j)) == Unwind(e, s).(journal := j)
    {
    }

    method FinaliseAll()
      modifies this, accessList
      ensures Contents() == StateSpec.Finalise(old(Contents()))
    {
      var left := objects.Keys;
      while left != {}
        invariant left <= old(objects).Keys == objects.Keys && journal == old(journal)
        invariant forall a :: a in left ==> objects[a] == old(objects)[a]
        invariant forall a :: a in objects && a !in left ==> objects[a] == FinaliseObject(old(objects)[a])
        decreases left
      {
        var a :| a in left;
        objects := objects[a := FinaliseObject(objects[a])];
        left := left - {a};
      }
      accessList.Clear();
      transient, refund := map[], 0;
    }

    // -------------------------------------------------------------- runs

    method Do(op: Op)
      requires Sound() && !op.RevertToSnapshot?
      modifies this, accessList
      ensures Contents() == Apply(db, old(Contents()), op)
    {
      hide Shift, PutSlot, Transient, Destroy, WarmAddress, WarmSlot, Created, Replaced, LoadAccount, LoadCode,
           LoadSlot;
      if op.SetNonce? {
        PutNonce(op.a, op.nonce);
      } else if op.SetCode? {
        PutCode(op.a, op.bytes);
      } else if op.SetBalance? {
        PutBalance(op.a, op.balance);
      } else if op.SetStorage? {
        PutStorage(op.a, op.dirty);
      } else if op.AddBalance? {
        if op.amount != 0 {
          AddSigned(op.a, op.amount);
        }
      } else if op.SubBalance? {
        if op.amount != 0 {
          AddSigned(op.a, 0 - op.amount);
        }
      } else if op.SetState? {
        SetSlot(op.a, op.k, op.value);
      } else if op.SetTransientState? {
        SetTransient(op.a, op.k, op.value);
      } else if op.CreateAccount? {
        Create(op.a);
      } else if op.Suicide? {
        var _ := Kill(op.a);
      } else if op.SelfDestruct6780? {
        var o := GetAccount(op.a);
        if o.created {
          DestroyAgain(old(Contents()), op.a);
          var _ := Kill(op.a);
        }
      } else {
        DoRest(op);
      }
    }

    method DoRest(op: Op)
      requires Sound()
               && (Journal.IsRead(op) || op.AddRefund? || op.SubRefund? || op.AddAddressToAccessList?
                   || op.AddSlotToAccessList?)
      modifies this, accessList
      ensures Contents() == Apply(db, old(Contents()), op)
    {
      hide WarmAddress, WarmSlot, LoadAccount, LoadCode, LoadSlot;
      if op.AddRefund? {
        ChangeRefund(op.gas);
      } else if op.SubRefund? {
        ChangeRefund(0 - op.gas);
      } else if op.AddAddressToAccessList? {
        Warm(op.a);
      } else if op.AddSlotToAccessList? {
        WarmStorage(op.a, op.k);
      } else if op.ReadAccount? {
        var _ := Balance(op.a);
      } else if op.ReadCode? {
        var _ := CodeBytes(op.a);
      } else {
        var _ := CommittedSlot(op.a, op.k);
      }
    }

    static lemma DestroyAgain(s: State, a: Address)
      ensures Destroy(Put(s, a, Get(s, a)), a) == Destroy(s, a)
    {
      var o := Get(s, a);
      var p := o.(suicided := true);
      assert s.objects[a := o][a := p] == s.objects[a := p];
    }

    /**
     A whole run with nested snapshots, then a revert to the snapshot before it: nothing a contract can read is
     changed.
     */
    method Attempt(ops: seq<Op>)
      requires Valid(Contents().warm) && Journal.RevertsAbove(db, Contents(), |journal|, ops)
      modifies this, accessList
      ensures Same(db, old(Contents()), Contents()) && SameReadings(db, old(Contents()), Contents())
    {
      hide Same, SameReadings, Apply, Revert;
      var id := Snapshot();
      ghost var s := Contents();
      Journal.RevertRestores(db, s, ops);
      Journal.Unchanged(db, s);
      assert ops[0..] == ops;
      for i := 0 to |ops|
        invariant id <= |journal| && Journal.Unwinds(db, Contents(), id, s)
        invariant Journal.RevertsAbove(db, Contents(), id, ops[i..])
        invariant Journal.Run(db, s, ops) == Journal.Run(db, Contents(), ops[i..])
      {
        Journal.UnwindsValid(db, Contents(), id, s);
        assert ops[i..][0] == ops[i] && ops[i..][1..] == ops[i + 1..];
        Journal.StepUnwinds(db, Contents(), ops[i], id, s);
        if ops[i].RevertToSnapshot? {
          RevertTo(ops[i].id);
        } else {
          Do(ops[i]);
        }
      }
      RevertTo(id);
    }
  }
}
