/**
 Reverting to a snapshot gives back every reading, whatever operations, nested snapshots and reverts came
 between. Undo entries are exact only up to the caches that reads fill, so the argument runs up to `Same`.
 */
module Journal {
  import opened Common
  import opened AccessLists
  import opened StateSpec

  /** One operation; None is a panic. */
  function Step(db: Store, s: State, op: Op): Option<State>
    requires InRange(s.warm)
  {
    if op.RevertToSnapshot? then Revert(s, op.id) else Some(Apply(db, s, op))
  }

  /** A run of operations; None is a panic, or an access list whose indices are out of range. */
  ghost function Run(db: Store, s: State, ops: seq<Op>): Option<State>
    decreases |ops|
  {
    if ops == [] then Some(s)
    else if !InRange(s.warm) then None
    else
      match Step(db, s, ops[0])
      case None => None
      case Some(t) => Run(db, t, ops[1..])
  }

  /** Every revert of the run goes to a snapshot taken no earlier than `base` and not yet undone. */
  ghost predicate RevertsAbove(db: Store, s: State, base: nat, ops: seq<Op>)
    decreases |ops|
  {
    ops == [] ||
    ((ops[0].RevertToSnapshot? ==> base <= ops[0].id <= |s.journal|)
     && (InRange(s.warm) && Step(db, s, ops[0]).Some? ==> RevertsAbove(db, Step(db, s, ops[0]).value, base, ops[1..])))
  }

  /** Undoing the journal of `t` down to `base` never panics and ends in `s` up to caches. */
  ghost predicate Unwinds(db: Store, t: State, base: nat, s: State)
    decreases |t.journal|
  {
    Valid(t.warm) &&
    if |t.journal| <= base then Same(db, s, t) else Pop(t).Some? && Unwinds(db, Pop(t).value, base, s)
  }

  // ---------------------------------------------------------------- Same is kept by undo entries

  lemma SameReflexive(db: Store, s: State)
    ensures Same(db, s, s)
  {
  }

  lemma SameTransitive(db: Store, s: State, t: State, u: State)
    requires Same(db, s, t) && Same(db, t, u)
    ensures Same(db, s, u)
  {
    hide FindTransient, Find, AccountOf, CodeOf, CommittedOf;
    forall a ensures SameObject(db, a, Find(s.objects, a), Find(u.objects, a)) {
      assert SameObject(db, a, Find(s.objects, a), Find(t.objects, a));
      assert SameObject(db, a, Find(t.objects, a), Find(u.objects, a));
    }
  }

  lemma PutSame(db: Store, m: map<Address, Object>, n: map<Address, Object>, a: Address, o: Object, p: Object)
    requires SameObjects(db, m, n) && SameObject(db, a, o, p)
    ensures SameObjects(db, m[a := o], n[a := p])
  {
    hide SameObject;
    var m', n' := m[a := o], n[a := p];
    forall b ensures SameObject(db, b, Find(m', b), Find(n', b)) {
      assert SameObject(db, b, Find(m, b), Find(n, b));
    }
  }

  /** An object changed and then put back, up to caches. */
  lemma PutBack(db: Store, m: map<Address, Object>, a: Address, o: Object)
    requires SameObject(db, a, Find(m, a), o)
    ensures SameObjects(db, m, m[a := o])
  {
    hide AccountOf, CodeOf, CommittedOf;
  }

  predicate TouchesObject(e: Undo) {
    !(e.RestoreRefund? || e.RestoreTransient? || e.CoolAddress? || e.CoolSlot?)
  }

  /** What the undo entry makes of the object at its address. */
  function UnwindObject(e: Undo, o: Object): Object
    requires TouchesObject(e) && (e.ShiftDelta? ==> o.balanceDelta.Some?)
  {
    match e
    case ClearDelta(a) => o.(balanceDelta := None)
    case ShiftDelta(a, n) => o.(balanceDelta := Some(o.balanceDelta.value + n))
    case RestoreNonce(a, n) => o.(nonce := n)
    case RestoreCode(a, c) => o.(code := c)
    case RestoreSlot(a, k, v) => o.(dirty := o.dirty[k := v])
    case RemoveSlot(a, k) => o.(dirty := o.dirty - {k})
    case RestoreDirty(a, d) => o.(dirty := d)
    case RestoreBalance(a, b) => o.(fakeBalance := b)
    case Unsuicide(a) => o.(suicided := false)
    case RestoreObject(a, prev) => prev
  }

  lemma UnwindObjectSame(db: Store, e: Undo, o: Object, p: Object)
    requires TouchesObject(e) && (e.ShiftDelta? ==> o.balanceDelta.Some?)
    requires SameObject(db, e.a, o, p)
    ensures e.ShiftDelta? ==> p.balanceDelta.Some?
    ensures SameObject(db, e.a, UnwindObject(e, o), UnwindObject(e, p))
  {
    hide CommittedOf, CodeOf, AccountOf;
    if e.RestoreCode? {
      RestoreCodeSame(db, e, o, p);
    } else if !e.RestoreObject? {
      CachesDecide(db, e.a, o, UnwindObject(e, o));
      CachesDecide(db, e.a, p, UnwindObject(e, p));
    }
  }

  lemma RestoreCodeSame(db: Store, e: Undo, o: Object, p: Object)
    requires e.RestoreCode? && SameObject(db, e.a, o, p)
    ensures SameObject(db, e.a, UnwindObject(e, o), UnwindObject(e, p))
  {
    hide CommittedOf;
    CleanDecides(db, e.a, o, UnwindObject(e, o));
    CleanDecides(db, e.a, p, UnwindObject(e, p));
  }

  lemma CleanDecides(db: Store, a: Address, o: Object, p: Object)
    requires o.clean == p.clean
    ensures forall k :: CommittedOf(db, a, o, k) == CommittedOf(db, a, p, k)
  {
  }

  lemma CachesDecide(db: Store, a: Address, o: Object, p: Object)
    requires o.clean == p.clean && o.account == p.account && o.code == p.code
    ensures AccountOf(db, a, o) == AccountOf(db, a, p) && CodeOf(db, a, o) == CodeOf(db, a, p)
    ensures forall k :: CommittedOf(db, a, o, k) == CommittedOf(db, a, p, k)
  {
  }

  lemma UnwindIsObject(e: Undo, s: State)
    requires TouchesObject(e) && CanUndo(e, s)
    ensures Unwind(e, s) == Put(s, e.a, UnwindObject(e, Get(s, e.a)))
  {
  }

  lemma UnwindTransientSame(e: Undo, s: State, t: State)
    requires e.RestoreTransient? && CanUndo(e, s) && SameTransient(s.transient, t.transient)
    ensures CanUndo(e, t) && SameTransient(Unwind(e, s).transient, Unwind(e, t).transient)
  {
    var u, v := Unwind(e, s).transient, Unwind(e, t).transient;
    forall a, k ensures FindTransient(u, a, k) == FindTransient(v, a, k) {
      assert FindTransient(s.transient, a, k) == FindTransient(t.transient, a, k);
    }
  }

  /** An undo entry does not look at caches. */
  lemma UnwindSame(db: Store, e: Undo, s: State, t: State)
    requires CanUndo(e, s) && Same(db, s, t)
    ensures CanUndo(e, t) && Same(db, Unwind(e, s), Unwind(e, t))
  {
    hide SameObject, UnwindObject, FindTransient;
    if TouchesObject(e) {
      assert SameObject(db, e.a, Find(s.objects, e.a), Find(t.objects, e.a));
      UnwindObjectSame(db, e, Get(s, e.a), Get(t, e.a));
      UnwindIsObject(e, s);
      UnwindIsObject(e, t);
      PutSame(db, s.objects, t.objects, e.a, UnwindObject(e, Get(s, e.a)), UnwindObject(e, Get(t, e.a)));
    } else if e.RestoreTransient? {
      UnwindTransientSame(e, s, t);
    }
  }

  lemma PopSame(db: Store, s: State, t: State)
    requires s.journal != [] && Pop(s).Some? && Same(db, s, t)
    ensures Pop(t).Some? && Same(db, Pop(s).value, Pop(t).value)
  {
    hide SameObjects, SameTransient, Unwind, CanUndo;
    UnwindSame(db, s.journal[|s.journal| - 1], s, t);
  }

  lemma {:induction false} UnwindsSame(db: Store, t: State, u: State, base: nat, s: State)
    requires Unwinds(db, t, base, s) && Same(db, t, u)
    ensures Unwinds(db, u, base, s)
    decreases |t.journal|
  {
    hide SameObjects, SameTransient, Pop, Valid;
    if |t.journal| <= base {
      SameTransitive(db, s, t, u);
    } else {
      PopSame(db, t, u);
      UnwindsSame(db, Pop(t).value, Pop(u).value, base, s);
    }
  }

  /** Unwinding to a state that itself unwinds further. */
  lemma {:induction false} UnwindsThrough(db: Store, u: State, t: State, base: nat, s: State)
    requires base <= |t.journal| && Unwinds(db, u, |t.journal|, t) && Unwinds(db, t, base, s)
    ensures Unwinds(db, u, base, s)
    decreases |u.journal|
  {
    hide Same, Pop, Valid;
    if |u.journal| <= |t.journal| {
      UnwindsSame(db, t, u, base, s);
    } else {
      UnwindsThrough(db, Pop(u).value, t, base, s);
    }
  }

  /** RevertToSnapshot never panics and leaves the rest of the journal able to unwind. */
  lemma {:induction false} RevertUnwinds(db: Store, t: State, id: nat, base: nat, s: State)
    requires base <= id && Unwinds(db, t, base, s)
    ensures Revert(t, id).Some? && Unwinds(db, Revert(t, id).value, base, s)
    decreases |t.journal|
  {
    hide Same, Pop, Valid;
    if |t.journal| > id {
      RevertUnwinds(db, Pop(t).value, id, base, s);
    }
  }

  // ---------------------------------------------------------------- each operation is undone by its entries

  /** One entry, whose undo gives the old state back up to caches. */
  lemma OneEntry(db: Store, s: State, t: State, e: Undo)
    requires Valid(s.warm) && Valid(t.warm) && t.journal == s.journal + [e] && CanUndo(e, t)
    requires SameObjects(db, s.objects, Unwind(e, t).objects) && SameTransient(s.transient, Unwind(e, t).transient)
    requires Unwind(e, t).refund == s.refund && Unwind(e, t).warm == s.warm
    ensures Unwinds(db, t, |s.journal|, s)
  {
    hide SameObjects, SameTransient, Unwind, CanUndo;
    assert t.journal[..|t.journal| - 1] == s.journal;
    assert Unwinds(db, Pop(t).value, |s.journal|, s);
  }

  /** An entry for the object at one address. */
  lemma ObjectEntry(db: Store, s: State, a: Address, o: Object, e: Undo)
    requires Valid(s.warm) && TouchesObject(e) && e.a == a && (e.ShiftDelta? ==> o.balanceDelta.Some?)
    requires SameObject(db, a, Get(s, a), UnwindObject(e, o))
    ensures Unwinds(db, Log(Put(s, a, o), e), |s.journal|, s)
  {
    hide SameObject, UnwindObject, Unwinds;
    var t := Log(Put(s, a, o), e);
    UnwindIsObject(e, t);
    var p := UnwindObject(e, o);
    assert Unwind(e, t).objects == s.objects[a := p];
    PutBack(db, s.objects, a, p);
    OneEntry(db, s, t, e);
  }

  lemma CacheOnly(db: Store, s: State, a: Address, o: Object)
    requires Valid(s.warm) && SameObject(db, a, Get(s, a), o)
    ensures Unwinds(db, Put(s, a, o), |s.journal|, s)
  {
    hide SameObject;
    PutBack(db, s.objects, a, o);
  }

  lemma Unchanged(db: Store, s: State)
    requires Valid(s.warm)
    ensures Unwinds(db, s, |s.journal|, s)
  {
    SameReflexive(db, s);
  }

  lemma ShiftUndone(db: Store, s: State, a: Address, amount: int)
    requires Valid(s.warm)
    ensures Unwinds(db, Shift(s, a, amount), |s.journal|, s)
  {
    hide Unwinds, Valid;
    var o := Get(s, a);
    if o.balanceDelta.None? {
      ObjectEntry(db, s, a, o.(balanceDelta := Some(amount)), ClearDelta(a));
    } else {
      ObjectEntry(db, s, a, o.(balanceDelta := Some(o.balanceDelta.value + amount)), ShiftDelta(a, 0 - amount));
    }
  }

  lemma SetStateUndone(db: Store, s: State, a: Address, k: Hash, v: Hash)
    requires Valid(s.warm)
    ensures Unwinds(db, PutSlot(s, a, k, v), |s.journal|, s)
  {
    hide Unwinds, Valid;
    var o := Get(s, a);
    var p := o.(dirty := o.dirty[k := v]);
    if k in o.dirty {
      assert p.dirty[k := o.dirty[k]] == o.dirty;
      ObjectEntry(db, s, a, p, RestoreSlot(a, k, o.dirty[k]));
    } else {
      assert p.dirty - {k} == o.dirty;
      ObjectEntry(db, s, a, p, RemoveSlot(a, k));
    }
  }

  lemma TransientUndone(db: Store, s: State, a: Address, k: Hash, v: Hash)
    requires Valid(s.warm)
    ensures Unwinds(db, Transient(s, a, k, v), |s.journal|, s)
  {
    hide Unwinds, Valid;
    SameReflexive(db, s);
    OneEntry(db, s, Transient(s, a, k, v), RestoreTransient(a, k, GetTransientState(s, a, k)));
  }

  lemma CreateUndone(db: Store, s: State, a: Address)
    requires Valid(s.warm)
    ensures Unwinds(db, Apply(db, s, CreateAccount(a)), |s.journal|, s)
  {
    hide Unwinds, Valid;
    ObjectEntry(db, s, a, Created(db, a, Get(s, a)), RestoreObject(a, Replaced(db, a, Get(s, a))));
  }

  lemma DestroyUndone(db: Store, s: State, a: Address)
    requires Valid(s.warm)
    ensures Unwinds(db, Destroy(s, a), |s.journal|, s)
  {
    hide Unwinds, Valid;
    var o := Get(s, a);
    if o.suicided || o.deleted {
      CacheOnly(db, s, a, o);
    } else {
      ObjectEntry(db, s, a, o.(suicided := true), Unsuicide(a));
    }
  }

  lemma RefundUndone(db: Store, s: State, amount: int)
    requires Valid(s.warm)
    ensures Unwinds(db, Change(s, amount), |s.journal|, s)
  {
    hide Unwinds, Valid;
    SameReflexive(db, s);
    OneEntry(db, s, Change(s, amount), RestoreRefund(s.refund));
  }

  lemma WarmAddressUndone(db: Store, s: State, a: Address)
    requires Valid(s.warm)
    ensures Unwinds(db, WarmAddress(s, a), |s.journal|, s)
  {
    hide Unwinds, Valid, SameObject;
    SameReflexive(db, s);
    if ContainsAddress(s.warm, a) {
      Unchanged(db, s);
    } else {
      AddAddressWarms(s.warm, a);
      assert AddAddress(s.warm, a).addresses - {a} == s.warm.addresses;
      OneEntry(db, s, WarmAddress(s, a), CoolAddress(a));
    }
  }

  /** Two entries when the address was cold too: the slot is undone first, then the address. */
  lemma WarmSlotUndone(db: Store, s: State, a: Address, k: Hash)
    requires Valid(s.warm)
    ensures Unwinds(db, WarmSlot(s, a, k), |s.journal|, s)
  {
    hide Unwinds, Valid, SameObject, DeleteSlot, AddSlot;
    ValidRange(s.warm);
    var t := WarmSlot(s, a, k);
    SameReflexive(db, s);
    AddSlotWarms(s.warm, a, k);
    if ContainsSlot(s.warm, a, k) {
      AddSlotIdle(s.warm, a, k);
      Unchanged(db, s);
    } else {
      FilledAt(s.warm, a);
      AddSlotUndone(s.warm, a, k);
      if ContainsAddress(s.warm, a) {
        OneEntry(db, s, t, CoolSlot(a, k));
      } else {
        var m := DeleteSlot(AddSlot(s.warm, a, k), a, k);
        var u := Log(s.(warm := m), CoolAddress(a));
        AddAddressAlone(s.warm, a, k);
        AddAddressWarms(s.warm, a);
        OneEntry(db, s, u, CoolAddress(a));
        SameReflexive(db, u);
        OneEntry(db, u, t, CoolSlot(a, k));
        UnwindsThrough(db, t, u, |s.journal|, s);
      }
    }
  }

  lemma ValidRange(l: Listing)
    requires Valid(l)
    ensures InRange(l)
  {
  }

  lemma AddSlotIdle(l: Listing, a: Address, k: Hash)
    requires ContainsSlot(l, a, k)
    ensures AddSlot(l, a, k) == l
  {
    assert l.slots[l.addresses[a]] + {k} == l.slots[l.addresses[a]];
  }

  lemma FilledAt(l: Listing, a: Address)
    requires Valid(l)
    ensures a in l.addresses ==> -1 <= l.addresses[a] < |l.slots|
    ensures a in l.addresses && l.addresses[a] != -1 ==> l.slots[l.addresses[a]] != {}
  {
  }

  lemma AddAddressAlone(l: Listing, a: Address, k: Hash)
    requires !ContainsAddress(l, a)
    ensures CanDeleteSlot(AddSlot(l, a, k), a)
    ensures DeleteSlot(AddSlot(l, a, k), a, k) == AddAddress(l, a)
  {
    var n := AddSlot(l, a, k);
    assert n.slots[|l.slots|] - {k} == {};
    assert DeleteSlot(n, a, k).slots == l.slots;
  }

  predicate IsSetter(op: Op) {
    op.SetNonce? || op.SetCode? || op.SetBalance? || op.SetStorage?
  }

  lemma SetterUndone(db: Store, s: State, op: Op)
    requires Valid(s.warm) && IsSetter(op)
    ensures Unwinds(db, Apply(db, s, op), |s.journal|, s)
  {
    hide Unwinds, Valid, CommittedOf, Find;
    var o := Get(s, op.a);
    match op
    case SetNonce(a, n) => ObjectEntry(db, s, a, o.(nonce := Some(n)), RestoreNonce(a, o.nonce));
    case SetCode(a, c) => ObjectEntry(db, s, a, o.(code := Some(Code(c, db.keccak(c)))), RestoreCode(a, o.code));
    case SetBalance(a, b) => ObjectEntry(db, s, a, o.(fakeBalance := Some(b)), RestoreBalance(a, o.fakeBalance));
    case SetStorage(a, d) => ObjectEntry(db, s, a, o.(dirty := d), RestoreDirty(a, o.dirty));
  }

  predicate IsRead(op: Op) {
    op.ReadAccount? || op.ReadCode? || op.ReadSlot?
  }

  lemma ReadUndone(db: Store, s: State, op: Op)
    requires Valid(s.warm) && IsRead(op)
    ensures Unwinds(db, Apply(db, s, op), |s.journal|, s)
  {
    hide Unwinds, Valid, Find, SameObject, LoadAccount, LoadCode, LoadSlot;
    var o := Get(s, op.a);
    LoadAccountSame(db, op.a, o);
    LoadCodeSame(db, op.a, o);
    match op
    case ReadAccount(a) => CacheOnly(db, s, a, LoadAccount(db, a, o).0);
    case ReadCode(a) => CacheOnly(db, s, a, LoadCode(db, a, o).0);
    case ReadSlot(a, k) =>
      LoadSlotSame(db, a, o, k);
      CacheOnly(db, s, a, LoadSlot(db, a, o, k));
  }

  lemma ReadSame(db: Store, s: State, op: Op)
    requires InRange(s.warm) && IsRead(op)
    ensures Same(db, s, Apply(db, s, op))
  {
    hide SameObject, LoadAccount, LoadCode, LoadSlot, Find;
    var o := Get(s, op.a);
    LoadAccountSame(db, op.a, o);
    LoadCodeSame(db, op.a, o);
    if op.ReadSlot? {
      LoadSlotSame(db, op.a, o, op.k);
    }
    PutBack(db, s.objects, op.a, Apply(db, s, op).objects[op.a]);
  }

  lemma LoadAccountSame(db: Store, a: Address, o: Object)
    ensures SameObject(db, a, o, LoadAccount(db, a, o).0)
  {
  }

  lemma LoadCodeSame(db: Store, a: Address, o: Object)
    ensures SameObject(db, a, o, LoadCode(db, a, o).0)
  {
  }

  lemma LoadSlotSame(db: Store, a: Address, o: Object, k: Hash)
    ensures SameObject(db, a, o, LoadSlot(db, a, o, k))
  {
  }

  /** The journal entries of any one operation undo it, up to caches, without a panic. */
  lemma ApplyUndone(db: Store, s: State, op: Op)
    requires Valid(s.warm) && !op.RevertToSnapshot?
    ensures Unwinds(db, Apply(db, s, op), |s.journal|, s)
  {
    hide Unwinds, Valid, InRange, Shift, PutSlot, Transient, Destroy, WarmSlot, WarmAddress, SameObject;
    ValidRange(s.warm);
    if IsSetter(op) {
      SetterUndone(db, s, op);
    } else if IsRead(op) {
      ReadUndone(db, s, op);
    } else if op.AddBalance? {
      ShiftUndone(db, s, op.a, op.amount);
      Unchanged(db, s);
    } else if op.SubBalance? {
      ShiftUndone(db, s, op.a, 0 - op.amount);
      Unchanged(db, s);
    } else if op.SetState? {
      SetStateUndone(db, s, op.a, op.k, op.value);
    } else if op.SetTransientState? {
      TransientUndone(db, s, op.a, op.k, op.value);
    } else if op.CreateAccount? {
      CreateUndone(db, s, op.a);
    } else if op.Suicide? {
      DestroyUndone(db, s, op.a);
    } else if op.SelfDestruct6780? {
      DestroyUndone(db, s, op.a);
      SameReflexive(db, s);
      assert SameObject(db, op.a, Find(s.objects, op.a), Find(s.objects, op.a));
      CacheOnly(db, s, op.a, Get(s, op.a));
    } else if op.AddRefund? {
      RefundUndone(db, s, op.gas);
    } else if op.SubRefund? {
      RefundUndone(db, s, 0 - op.gas);
    } else if op.AddAddressToAccessList? {
      WarmAddressUndone(db, s, op.a);
    } else {
      WarmSlotUndone(db, s, op.a, op.k);
    }
  }

  // ---------------------------------------------------------------- whole runs

  /** One operation keeps the journal able to unwind to where the run started. */
  lemma StepUnwinds(db: Store, t: State, op: Op, base: nat, s: State)
    requires base <= |t.journal| && Unwinds(db, t, base, s) && InRange(t.warm)
    requires op.RevertToSnapshot? ==> base <= op.id <= |t.journal|
    ensures Step(db, t, op).Some?
    ensures base <= |Step(db, t, op).value.journal| && Unwinds(db, Step(db, t, op).value, base, s)
  {
    hide Apply, Same, Revert, Pop;
    UnwindsValid(db, t, base, s);
    if op.RevertToSnapshot? {
      RevertUnwinds(db, t, op.id, base, s);
      RevertLength(db, t, op.id, base, s);
    } else {
      ApplyUndone(db, t, op);
      ApplyExtends(db, t, op);
      UnwindsThrough(db, Apply(db, t, op), t, base, s);
    }
  }

  /** A run keeps the journal able to unwind to where it started. */
  lemma {:induction false} RunUnwinds(db: Store, t: State, ops: seq<Op>, base: nat, s: State)
    requires base <= |t.journal| && Unwinds(db, t, base, s) && RevertsAbove(db, t, base, ops)
    ensures Run(db, t, ops).Some? && Unwinds(db, Run(db, t, ops).value, base, s)
    decreases |ops|
  {
    hide Step;
    if ops != [] {
      UnwindsValid(db, t, base, s);
      StepUnwinds(db, t, ops[0], base, s);
      RunUnwinds(db, Step(db, t, ops[0]).value, ops[1..], base, s);
    }
  }

  lemma UnwindsValid(db: Store, t: State, base: nat, s: State)
    requires Unwinds(db, t, base, s)
    ensures Valid(t.warm) && InRange(t.warm)
  {
  }

  lemma ApplyExtends(db: Store, s: State, op: Op)
    requires InRange(s.warm) && !op.RevertToSnapshot?
    ensures s.journal <= Apply(db, s, op).journal
  {
    hide LoadAccount, LoadCode, LoadSlot, AddSlot, Created, Replaced, Get;
  }

  /** RevertToSnapshot cuts the journal at the snapshot. */
  lemma {:induction false} RevertLength(db: Store, t: State, id: nat, base: nat, s: State)
    requires base <= id <= |t.journal| && Unwinds(db, t, base, s)
    ensures Revert(t, id).Some? && Revert(t, id).value.journal == t.journal[..id]
    decreases |t.journal|
  {
    hide Same, Valid, Unwind, CanUndo;
    if |t.journal| > id {
      RevertLength(db, Pop(t).value, id, base, s);
    }
  }

  /**
   Snapshot, any run of operations with reverts to later snapshots, then RevertToSnapshot: no closure
   panics, and the journal, the refund, the access list and every reading are as they were.
   */
  lemma RevertRestores(db: Store, s: State, ops: seq<Op>)
    requires Valid(s.warm) && RevertsAbove(db, s, |s.journal|, ops)
    ensures Run(db, s, ops).Some?
    ensures var r := Revert(Run(db, s, ops).value, |s.journal|);
            r.Some? && Same(db, s, r.value) && SameReadings(db, s, r.value) && Valid(r.value.warm)
  {
    hide Same, SameReadings, Valid, Run, RevertsAbove;
    Unchanged(db, s);
    RunUnwinds(db, s, ops, |s.journal|, s);
    var t := Run(db, s, ops).value;
    RevertUnwinds(db, t, |s.journal|, |s.journal|, s);
    RevertShort(t, |s.journal|);
    SameIsSeen(db, s, Revert(t, |s.journal|).value);
  }

  lemma {:induction false} RevertShort(t: State, id: nat)
    requires Revert(t, id).Some?
    ensures |Revert(t, id).value.journal| <= id
    decreases |t.journal|
  {
    hide Unwind, CanUndo;
    if |t.journal| > id {
      RevertShort(Pop(t).value, id);
    }
  }
}
