/**
 GetCodeHash, Exist and Empty look at the cached account first, so filling a cache can change their answer.
 Here is exactly when it cannot; for such accounts a revert gives these readings back too.
 */
module StateCaches {
  import opened Common
  import opened AccessLists
  import opened StateSpec
  import Journal

  /** codeEntry.getHash */
  function HashOf(db: Store, c: Code): Hash {
    if c.hash != 0 then db.keccak(c.bytes) else 0
  }

  function CodeHash(db: Store, a: Address, o: Object): Hash {
    if o.account.Some? then o.account.value.codeHash
    else if o.deleted then EmptyCode(db)
    else HashOf(db, CodeOf(db, a, o))
  }

  /** stateObject.empty: asking for the nonce loads the account unless the nonce is overridden. */
  predicate IsEmpty(db: Store, a: Address, o: Object) {
    var p := if o.nonce.Some? then o else LoadAccount(db, a, o).0;
    NonceOf(db, a, o) == 0 && CachedBalance(p) == 0 && CodeHash(db, a, p) == EmptyCode(db)
  }

  predicate Exist(db: Store, s: State, a: Address) {
    var o := Get(s, a);
    !o.deleted && !IsEmpty(db, a, o)
  }

  predicate Empty(db: Store, s: State, a: Address) {
    var o := Get(s, a);
    o.deleted || o.suicided || IsEmpty(db, a, o)
  }

  /** The code stored under the account's code hash has that hash. */
  predicate Consistent(db: Store, a: Address) {
    a in db.accounts ==>
      var h := db.accounts[a].codeHash;
      h == 0 || h == EmptyCode(db) || db.keccak(CodeAt(db, h)) == h
  }

  /** The account is loaded, gone or absent, or its code is not overridden by code of another hash. */
  predicate CodeHashSettled(db: Store, a: Address, o: Object) {
    || o.account.Some? || o.deleted || a !in db.accounts || o.code.None?
    || HashOf(db, o.code.value) == db.accounts[a].codeHash
  }

  lemma SettledSame(db: Store, a: Address, o: Object, p: Object)
    requires Consistent(db, a) && SameObject(db, a, o, p) && CodeHashSettled(db, a, o)
    ensures CodeHash(db, a, o) == CodeHash(db, a, p)
  {
  }

  lemma UnsettledMoves(db: Store, a: Address, o: Object)
    requires !CodeHashSettled(db, a, o)
    ensures SameObject(db, a, o, LoadAccount(db, a, o).0)
    ensures CodeHash(db, a, o) != CodeHash(db, a, LoadAccount(db, a, o).0)
  {
  }

  /** No read changes GetCodeHash of an account exactly when the account is settled. */
  lemma CodeHashFirm(db: Store, a: Address, o: Object)
    requires Consistent(db, a)
    ensures CodeHashSettled(db, a, o) <==>
            forall p :: SameObject(db, a, o, p) ==> CodeHash(db, a, o) == CodeHash(db, a, p)
  {
    hide SameObject, CodeHashSettled, CodeHash;
    if CodeHashSettled(db, a, o) {
      forall p | SameObject(db, a, o, p) ensures CodeHash(db, a, o) == CodeHash(db, a, p) {
        SettledSame(db, a, o, p);
      }
    } else {
      UnsettledMoves(db, a, o);
    }
  }

  /** A read of the balance changes the code hash of an account whose code was just set. */
  lemma ReadChangesCodeHash(db: Store, a: Address, c: seq<byte>)
    requires a in db.accounts && db.keccak(c) != 0 && db.accounts[a].codeHash != db.keccak(c)
    ensures var o := FRESH.(code := Some(Code(c, db.keccak(c))));
            && CodeHash(db, a, o) == db.keccak(c)
            && CodeHash(db, a, LoadAccount(db, a, o).0) == db.accounts[a].codeHash
  {
  }

  /** Setting the code of a loaded account leaves its code hash as it was, so equal hashes need not mean equal code. */
  lemma SetCodeKeepsHash(db: Store, s: State, a: Address, c: seq<byte>)
    requires InRange(s.warm) && Get(s, a).account.Some?
    ensures CodeHash(db, a, Get(Apply(db, s, SetCode(a, c)), a)) == CodeHash(db, a, Get(s, a))
  {
  }

  function Delta(o: Object): int {
    if o.balanceDelta.Some? then o.balanceDelta.value else 0
  }

  /**
   The account is loaded or gone, its nonce is not overridden by zero, or its balance decides: a positive
   delta on the stored balance, an overriding balance that is not cancelled, or one whose code is not overridden.
   */
  predicate ExistSettled(o: Object) {
    || o.account.Some? || o.deleted || o.nonce != Some(0)
    || (if o.fakeBalance.None? then Delta(o) > 0 else o.fakeBalance.value + Delta(o) != 0 || o.code.None?)
  }

  lemma ExistSettledSame(db: Store, a: Address, o: Object, p: Object)
    requires Consistent(db, a) && SameObject(db, a, o, p) && ExistSettled(o)
    ensures o.deleted || IsEmpty(db, a, o) == IsEmpty(db, a, p)
  {
    hide CodeOf, CommittedOf;
    if o.code.None? && !o.deleted {
      SettledSame(db, a, o, p);
    }
  }

  function WithAccount(db: Store, a: Address, acc: Account): Store {
    db.(accounts := db.accounts[a := acc])
  }

  /** An account record with which loading it changes whether the account is empty. */
  function Witness(db: Store, a: Address, o: Object): Account {
    var hash := if o.code.Some? && HashOf(db, o.code.value) == EmptyCode(db) then 0 else EmptyCode(db);
    if o.fakeBalance.Some? then Account(0, 0, hash)
    else if Delta(o) < 0 then Account(0, 0 - Delta(o), EmptyCode(db))
    else if o.code.Some? && HashOf(db, o.code.value) != EmptyCode(db) then Account(0, 0, EmptyCode(db))
    else Account(0, 1, EmptyCode(db))
  }

  /** Loading never changes Exist or Empty, whatever record the store holds, exactly when the object is settled. */
  lemma ExistFirm(db: Store, a: Address, o: Object)
    requires EmptyCode(db) != 0
    ensures ExistSettled(o) <==>
            forall acc :: Consistent(WithAccount(db, a, acc), a) ==> LoadKeepsExist(WithAccount(db, a, acc), a, o)
  {
    if ExistSettled(o) {
      forall acc | Consistent(WithAccount(db, a, acc), a) ensures LoadKeepsExist(WithAccount(db, a, acc), a, o) {
        var db' := WithAccount(db, a, acc);
        Journal.LoadAccountSame(db', a, o);
        ExistSettledSame(db', a, o, LoadAccount(db', a, o).0);
      }
    } else {
      var acc := Witness(db, a, o);
      assert Consistent(WithAccount(db, a, acc), a);
      LoadMoves(db, a, o);
    }
  }

  predicate LoadKeepsExist(db: Store, a: Address, o: Object) {
    o.deleted || IsEmpty(db, a, o) == IsEmpty(db, a, LoadAccount(db, a, o).0)
  }

  lemma LoadMoves(db: Store, a: Address, o: Object)
    requires EmptyCode(db) != 0 && !ExistSettled(o)
    ensures !LoadKeepsExist(WithAccount(db, a, Witness(db, a, o)), a, o)
  {
    var db' := WithAccount(db, a, Witness(db, a, o));
    var p := LoadAccount(db', a, o).0;
    assert p.account == Some(Witness(db, a, o));
    assert EmptyCode(db') == EmptyCode(db);
  }

  /** What RevertRestores says of the three cache-reading queries. */
  lemma RevertRestoresQueries(db: Store, s: State, ops: seq<Op>, a: Address)
    requires Valid(s.warm) && Journal.RevertsAbove(db, s, |s.journal|, ops) && Consistent(db, a)
    requires Journal.Run(db, s, ops).Some? && Revert(Journal.Run(db, s, ops).value, |s.journal|).Some?
    ensures var t := Revert(Journal.Run(db, s, ops).value, |s.journal|).value;
            && (CodeHashSettled(db, a, Get(s, a)) ==> CodeHash(db, a, Get(s, a)) == CodeHash(db, a, Get(t, a)))
            && (ExistSettled(Get(s, a)) ==> Exist(db, s, a) == Exist(db, t, a) && Empty(db, s, a) == Empty(db, t, a))
  {
    hide Journal.Run, Revert, CodeHashSettled, ExistSettled, IsEmpty, CodeHash, Journal.RevertsAbove;
    Journal.RevertRestores(db, s, ops);
    var t := Revert(Journal.Run(db, s, ops).value, |s.journal|).value;
    assert SameObject(db, a, Find(s.objects, a), Find(t.objects, a));
    if CodeHashSettled(db, a, Get(s, a)) {
      SettledSame(db, a, Get(s, a), Get(t, a));
    }
    if ExistSettled(Get(s, a)) {
      ExistSettledSame(db, a, Get(s, a), Get(t, a));
    }
  }
}
