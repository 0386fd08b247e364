/**
 Which code hashes the state database may report. The interpreter shares jump analyses by hash, so what counts is
 that a hash it sees is zero or that of the code beside it. Here is when that holds and what keeps it.
 */
module CodeHashes {
  import opened Common
  import opened AccessLists
  import opened StateSpec
  import opened Balances
  import opened Solvency
  import StateCaches

  /** Code that never jumps: none, or code that starts with an instruction that will never be defined (EIP-3541). */
  predicate Inert(code: seq<byte>) {
    code == [] || code[0] == 0xEF
  }

  /** The record's code hash is zero or that of the code, or the code never jumps. */
  predicate HashFits(db: Store, a: Address, o: Object) {
    o.deleted ||
    var code := CodeOf(db, a, o).bytes;
    Inert(code) || Unhashed(db, a, o) || AccountOf(db, a, o).value.codeHash == db.keccak(code)
  }

  /** There is no record, or one without a code hash, as of every account created in the transaction. */
  predicate Unhashed(db: Store, a: Address, o: Object) {
    AccountOf(db, a, o).Some? ==> AccountOf(db, a, o).value.codeHash == 0
  }

  ghost predicate AllFit(db: Store, s: State) {
    forall a :: HashFits(db, a, Get(s, a))
  }

  /** Whatever is cached, the hash an account reports is then zero or that of its code. */
  lemma FittingHash(db: Store, s: State, a: Address)
    requires HashFits(db, a, Get(s, a)) && !Inert(GetCode(db, s, a))
    ensures var h := StateCaches.CodeHash(db, a, Get(s, a)); h == 0 || h == db.keccak(GetCode(db, s, a))
  {
  }

  /** In a fit state the hash is zero or that of the code, or the code never jumps. */
  ghost predicate Fitting(db: Store, s: State, code: seq<byte>, hash: Hash) {
    AllFit(db, s) && !Inert(code) && hash != 0 ==> hash == db.keccak(code)
  }

  lemma ReportedFits(db: Store, s: State, a: Address)
    ensures Fitting(db, s, GetCode(db, s, a), StateCaches.CodeHash(db, a, Get(s, a)))
  {
    hide GetCode, StateCaches.CodeHash, HashFits;
    if AllFit(db, s) && !Inert(GetCode(db, s, a)) {
      assert HashFits(db, a, Get(s, a));
      FittingHash(db, s, a);
    }
  }

  lemma FittingSame(db: Store, s: State, t: State, code: seq<byte>, hash: Hash)
    requires Fitting(db, s, code, hash) && Same(db, s, t)
    ensures Fitting(db, t, code, hash)
  {
    hide Same, AllFit, Orderly;
    OrderlyBySame(db, s, t);
  }

  /** A state nothing has been done to is fit, if the store keeps code under its own hash. */
  lemma FreshFits(db: Store, s: State)
    requires s.objects == map[] && forall a :: StateCaches.Consistent(db, a)
    ensures AllFit(db, s)
  {
    forall a ensures HashFits(db, a, Get(s, a)) {
      assert StateCaches.Consistent(db, a);
    }
  }

  /** Setting code keeps this exactly when the record has no other hash, or the code never jumps or is never read. */
  lemma SetCodeFits(db: Store, s: State, a: Address, code: seq<byte>)
    requires InRange(s.warm) && AllFit(db, s)
    ensures var o := Get(s, a);
            AllFit(db, Apply(db, s, SetCode(a, code))) <==>
            o.deleted || Inert(code) || Unhashed(db, a, o) || AccountOf(db, a, o).value.codeHash == db.keccak(code)
  {
    hide AccountOf;
    var o, t := Get(s, a), Apply(db, s, SetCode(a, code));
    assert Get(t, a) == o.(code := Some(Code(code, db.keccak(code))));
    AccountByRecord(db, a, o, Get(t, a));
    forall b | b != a ensures HashFits(db, b, Get(t, b)) {
      assert Get(t, b) == Get(s, b);
    }
    assert AllFit(db, t) ==> HashFits(db, a, Get(t, a));
  }

  lemma AccountByRecord(db: Store, a: Address, o: Object, p: Object)
    requires p.account == o.account
    ensures AccountOf(db, a, p) == AccountOf(db, a, o)
  {
  }

  // ---------------------------------------------------------------- what execution keeps

  /** A fit state stays fit, and an account without a code hash stays without. */
  ghost predicate Orderly(db: Store, s: State, t: State) {
    && (AllFit(db, s) ==> AllFit(db, t))
    && forall a :: Unhashed(db, a, Get(s, a)) ==> Unhashed(db, a, Get(t, a))
  }

  lemma OrderlyTransitive(db: Store, s: State, t: State, u: State)
    requires Orderly(db, s, t) && Orderly(db, t, u)
    ensures Orderly(db, s, u)
  {
    hide HashFits, Unhashed;
  }

  lemma OrderlyBySame(db: Store, s: State, t: State)
    requires Same(db, s, t)
    ensures Orderly(db, s, t) && (AllFit(db, t) ==> AllFit(db, s))
  {
    forall a ensures HashFits(db, a, Get(t, a)) == HashFits(db, a, Get(s, a))
      ensures Unhashed(db, a, Get(t, a)) == Unhashed(db, a, Get(s, a))
    {
      hide CodeOf, AccountOf, CommittedOf;
      assert SameObject(db, a, Find(s.objects, a), Find(t.objects, a));
    }
  }

  /** The same record and code, as every operation leaves them but a creation and setting code. */
  predicate SameCode(s: State, t: State, a: Address) {
    && Get(t, a).account == Get(s, a).account && Get(t, a).code == Get(s, a).code
    && Get(t, a).deleted == Get(s, a).deleted
  }

  lemma OrderlyByCode(db: Store, s: State, t: State)
    requires forall a :: SameCode(s, t, a)
    ensures Orderly(db, s, t)
  {
    forall a ensures HashFits(db, a, Get(t, a)) == HashFits(db, a, Get(s, a))
      ensures Unhashed(db, a, Get(t, a)) == Unhashed(db, a, Get(s, a))
    {
      assert SameCode(s, t, a);
    }
  }

  lemma OrderlyByObjects(db: Store, s: State, t: State)
    requires t.objects == s.objects
    ensures Orderly(db, s, t)
  {
    hide Orderly;
    OrderlyByCode(db, s, t);
  }

  lemma CodeSpared(db: Store, s: State, op: Op, a: Address)
    requires InRange(s.warm) && SparesFunds(op) && !op.SetCode?
    ensures SameCode(s, Apply(db, s, op), a)
  {
    hide AccountOf, Credit, Transient, WarmAddress, WarmSlot, Change, Created, Replaced, LoadAccount, LoadCode,
         LoadSlot;
  }

  lemma OrderlyTransfer(db: Store, s: State, from: Address, to: Address, amount: int)
    ensures Orderly(db, s, Moved(s, from, to, amount))
  {
    hide Orderly, Credit;
    OrderlyCredit(db, s, from, 0 - amount);
    OrderlyCredit(db, Credit(s, from, 0 - amount), to, amount);
    OrderlyTransitive(db, s, Credit(s, from, 0 - amount), Moved(s, from, to, amount));
  }

  lemma OrderlyCredit(db: Store, s: State, a: Address, amount: int)
    ensures Orderly(db, s, Credit(s, a, amount))
  {
    hide Orderly, Credit;
    forall b ensures SameCode(s, Credit(s, a, amount), b) {
      CreditSparesCode(s, a, amount, b);
    }
    OrderlyByCode(db, s, Credit(s, a, amount));
  }

  lemma CreditSparesCode(s: State, b: Address, amount: int, a: Address)
    ensures SameCode(s, Credit(s, b, amount), a)
  {
    hide Find;
    if amount != 0 {
      ShiftSparesCode(s, b, amount, a);
    }
  }

  lemma ShiftSparesCode(s: State, b: Address, amount: int, a: Address)
    ensures SameCode(s, Shift(s, b, amount), a)
  {
    if a != b {
      assert Get(Shift(s, b, amount), a) == Get(s, a);
    }
  }

  lemma OrderlyCreate(db: Store, s: State, a: Address)
    requires InRange(s.warm)
    ensures Orderly(db, s, Apply(db, s, CreateAccount(a)))
    ensures Unhashed(db, a, Get(Apply(db, s, CreateAccount(a)), a))
  {
    hide LoadAccount, CachedBalance, Replaced;
    var t := Apply(db, s, CreateAccount(a));
    forall b | b != a ensures Get(t, b) == Get(s, b) {
    }
  }

  /** Code may be set where no other hash is reported, and code that never jumps anywhere. */
  predicate MaySetCode(db: Store, s: State, op: Op) {
    op.SetCode? ==> Inert(op.bytes) || Unhashed(db, op.a, Get(s, op.a))
  }

  lemma OrderlyByOp(db: Store, s: State, op: Op)
    requires InRange(s.warm) && Free(op) && MaySetCode(db, s, op)
    ensures Orderly(db, s, Apply(db, s, op))
  {
    hide Orderly, HashFits, SameCode;
    var t := Apply(db, s, op);
    if op.CreateAccount? {
      OrderlyCreate(db, s, op.a);
    } else if TouchesNoObject(op) || op.AddBalance? {
      ObjectsStay(db, s, op);
      OrderlyByObjects(db, s, t);
    } else if op.SetCode? {
      OrderlySetCode(db, s, op.a, op.bytes);
    } else {
      forall a ensures SameCode(s, t, a) {
        CodeSpared(db, s, op, a);
      }
      OrderlyByCode(db, s, t);
    }
  }

  lemma OrderlySetCode(db: Store, s: State, a: Address, code: seq<byte>)
    requires InRange(s.warm) && (Inert(code) || Unhashed(db, a, Get(s, a)))
    ensures Orderly(db, s, Apply(db, s, SetCode(a, code)))
  {
    hide AllFit;
    var t := Apply(db, s, SetCode(a, code));
    if AllFit(db, s) {
      SetCodeFits(db, s, a, code);
    }
    forall b ensures AccountOf(db, b, Get(t, b)) == AccountOf(db, b, Get(s, b)) {
      AccountByRecord(db, b, Get(s, b), Get(t, b));
    }
  }
}
