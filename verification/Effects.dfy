/**
 What a piece of EVM execution may do to the state: it can always be undone back to where it started, it
 cools no address, overdraws no account and makes no ether, and inside a static call it is quiet.
 */
module Effects {
  import opened AccessLists
  import opened StateSpec
  import opened Accrual
  import opened CodeHashes
  import opened Solvency
  import Journal
  import StateCaches

  /** From `s`, `t` was reached by steps whose journal entries lead back to `s`; warm addresses stayed warm. */
  ghost predicate Moves(db: Store, s: State, t: State) {
    && |s.journal| <= |t.journal| && Journal.Unwinds(db, t, |s.journal|, s)
    && forall a :: ContainsAddress(s.warm, a) ==> ContainsAddress(t.warm, a)
  }

  /** A loaded account that exists. */
  ghost predicate Present(db: Store, s: State, a: Address) {
    Get(s, a).account.Some? && StateCaches.Exist(db, s, a)
  }

  /** No present account changed, nor transient storage, nor the refund counter. */
  ghost predicate Quiet(db: Store, s: State, t: State) {
    && (forall a :: Present(db, s, a) ==> SameObject(db, a, Get(s, a), Get(t, a)))
    && SameTransient(s.transient, t.transient) && s.refund == t.refund
  }

  /** What quiet means for every reading of a present account. */
  lemma QuietIsSeen(db: Store, s: State, t: State, a: Address)
    requires Quiet(db, s, t)
    ensures Present(db, s, a) ==>
              && GetBalance(db, s, a) == GetBalance(db, t, a) && GetNonce(db, s, a) == GetNonce(db, t, a)
              && GetCode(db, s, a) == GetCode(db, t, a) && HasSuicided(s, a) == HasSuicided(t, a)
              && forall k :: GetState(db, s, a, k) == GetState(db, t, a, k)
    ensures forall k :: GetTransientState(s, a, k) == GetTransientState(t, a, k)
  {
    hide StateCaches.Exist;
    if Present(db, s, a) {
      assert SameObject(db, a, Get(s, a), Get(t, a));
      forall k ensures GetState(db, s, a, k) == GetState(db, t, a, k) {
        assert CommittedOf(db, a, Get(s, a), k) == CommittedOf(db, a, Get(t, a), k);
      }
    }
  }

  lemma MovesNowhere(db: Store, s: State)
    requires Valid(s.warm)
    ensures Moves(db, s, s) && Quiet(db, s, s)
  {
    hide StateCaches.Exist;
    Journal.Unchanged(db, s);
  }

  lemma MovesValid(db: Store, s: State, t: State)
    requires Moves(db, s, t)
    ensures Valid(t.warm) && InRange(t.warm)
  {
  }

  lemma MovesTransitive(db: Store, s: State, t: State, u: State)
    requires Moves(db, s, t) && Moves(db, t, u)
    ensures Moves(db, s, u)
  {
    hide Journal.Unwinds;
    Journal.UnwindsThrough(db, u, t, |s.journal|, s);
  }

  lemma MovesByOp(db: Store, s: State, op: Op)
    requires Valid(s.warm) && InRange(s.warm) && !op.RevertToSnapshot?
    ensures Moves(db, s, Apply(db, s, op))
  {
    hide Journal.Unwinds, Valid;
    Journal.ApplyUndone(db, s, op);
    Journal.ApplyExtends(db, s, op);
    KeepsWarm(db, s, op);
  }

  lemma KeepsWarm(db: Store, s: State, op: Op)
    requires InRange(s.warm) && !op.RevertToSnapshot?
    ensures forall a :: ContainsAddress(s.warm, a) ==> ContainsAddress(Apply(db, s, op).warm, a)
  {
    hide LoadAccount, LoadCode, LoadSlot, Created, Replaced, Get;
  }

  /** Filling caches. */
  lemma MovesBySame(db: Store, s: State, t: State)
    requires Valid(s.warm) && Same(db, s, t)
    ensures Moves(db, s, t) && Quiet(db, s, t)
  {
    hide StateCaches.Exist;
    Journal.Unchanged(db, s);
    Journal.UnwindsSame(db, s, t, |s.journal|, s);
    forall a ensures SameObject(db, a, Get(s, a), Get(t, a)) {
      assert SameObject(db, a, Find(s.objects, a), Find(t.objects, a));
    }
  }

  lemma PresentStays(db: Store, s: State, t: State, a: Address)
    requires Present(db, s, a) && SameObject(db, a, Get(s, a), Get(t, a)) && StateCaches.Consistent(db, a)
    ensures Present(db, t, a)
  {
    StateCaches.ExistSettledSame(db, a, Get(s, a), Get(t, a));
  }

  /** The code table is keyed by hash for every account. */
  ghost predicate Consistent(db: Store) {
    forall a :: StateCaches.Consistent(db, a)
  }

  lemma QuietTransitive(db: Store, s: State, t: State, u: State)
    requires Consistent(db) && Quiet(db, s, t) && Quiet(db, t, u)
    ensures Quiet(db, s, u)
  {
    hide FindTransient, Present, Get, AccountOf, CodeOf, CommittedOf, StateCaches.Consistent;
    forall a | Present(db, s, a) ensures SameObject(db, a, Get(s, a), Get(u, a)) {
      assert SameObject(db, a, Get(s, a), Get(t, a));
      PresentStays(db, s, t, a);
      assert SameObject(db, a, Get(t, a), Get(u, a));
    }
  }

  /** Warming addresses and slots is quiet. */
  lemma QuietWarm(db: Store, s: State, op: Op)
    requires InRange(s.warm) && (op.AddAddressToAccessList? || op.AddSlotToAccessList?)
    ensures Quiet(db, s, Apply(db, s, op))
  {
    hide AddSlot, Present, AccountOf, CodeOf, CommittedOf, FindTransient;
    assert Apply(db, s, op).objects == s.objects;
  }

  /** Creating an account that did not exist when Exist was asked is quiet. */
  lemma QuietCreate(db: Store, s: State, t: State, a: Address)
    requires InRange(t.warm) && Same(db, s, t) && !StateCaches.Exist(db, s, a)
    ensures Quiet(db, s, Apply(db, t, CreateAccount(a)))
  {
    hide StateCaches.Exist, AccountOf, CodeOf, CommittedOf, FindTransient, Created, Replaced;
    var u := Apply(db, t, CreateAccount(a));
    forall b | Present(db, s, b) ensures SameObject(db, b, Get(s, b), Get(u, b)) {
      assert b != a;
      assert SameObject(db, b, Find(s.objects, b), Find(t.objects, b));
      assert Get(u, b) == Get(t, b);
    }
  }

  // ---------------------------------------------------------------- paths of execution

  /**
   What every piece of execution does: it can be undone, overdraws no account and makes no ether, and code hashes
   that fit their code still do.
   */
  ghost predicate Path(db: Store, s: State, t: State) {
    Moves(db, s, t) && Frugal(db, s, t) && Orderly(db, s, t)
  }

  ghost predicate FitKept(db: Store, s: State, t: State) {
    AllFit(db, s) ==> AllFit(db, t)
  }

  lemma PathFits(db: Store, s: State, t: State)
    requires Path(db, s, t)
    ensures FitKept(db, s, t)
  {
    hide Moves, Frugal, AllFit;
  }

  lemma PathUnhashed(db: Store, s: State, t: State, a: Address)
    requires Path(db, s, t) && Unhashed(db, a, Get(s, a))
    ensures Unhashed(db, a, Get(t, a))
  {
    hide Moves, Frugal, AllFit, Unhashed;
  }

  lemma PathNowhere(db: Store, s: State)
    requires Valid(s.warm)
    ensures Path(db, s, s) && Quiet(db, s, s) && Idle(db, s, s) && FitKept(db, s, s)
  {
    hide Moves, Quiet, Frugal, Orderly, Idle, AllFit;
    MovesNowhere(db, s);
    FrugalByObjects(db, s, s);
    OrderlyByObjects(db, s, s);
    IdleByObjects(db, s, s);
  }

  lemma PathMoves(db: Store, s: State, t: State)
    requires Path(db, s, t)
    ensures Moves(db, s, t)
  {
    hide Moves, Frugal, Orderly;
  }

  lemma PathValid(db: Store, s: State, t: State)
    requires Path(db, s, t)
    ensures Valid(t.warm) && InRange(t.warm)
  {
    hide Moves, Frugal, Orderly;
    MovesValid(db, s, t);
  }

  lemma PathTransitive(db: Store, s: State, t: State, u: State)
    requires Path(db, s, t) && Path(db, t, u)
    ensures Path(db, s, u)
  {
    hide Moves, Frugal, Orderly;
    MovesTransitive(db, s, t, u);
    FrugalTransitive(db, s, t, u);
    OrderlyTransitive(db, s, t, u);
  }

  lemma PathByOp(db: Store, s: State, op: Op)
    requires Valid(s.warm) && InRange(s.warm) && Free(op) && MaySetCode(db, s, op)
    ensures Path(db, s, Apply(db, s, op))
  {
    hide Moves, Frugal, Orderly, Apply;
    MovesByOp(db, s, op);
    FrugalByOp(db, s, op);
    OrderlyByOp(db, s, op);
  }

  lemma PathBySame(db: Store, s: State, t: State)
    requires Valid(s.warm) && Same(db, s, t)
    ensures Path(db, s, t) && Quiet(db, s, t) && Idle(db, s, t)
  {
    hide Moves, Quiet, Frugal, Same, Orderly, Idle;
    MovesBySame(db, s, t);
    FrugalBySame(db, s, t);
    OrderlyBySame(db, s, t);
    IdleBySame(db, s, t);
  }

  /** A payment the payer can make. */
  lemma PathByTransfer(db: Store, s: State, from: Address, to: Address, amount: int)
    requires Valid(s.warm) && InRange(s.warm)
    requires Solvent(db, s) ==> 0 <= amount && (amount == 0 || from == to || GetBalance(db, s, from) >= amount)
    ensures Path(db, s, Moved(s, from, to, amount)) && Idle(db, s, Moved(s, from, to, amount))
  {
    hide Moves, Frugal, Orderly, Idle, Credit, GetBalance, Solvent;
    var t := Apply(db, s, SubBalance(from, amount));
    MovesByOp(db, s, SubBalance(from, amount));
    MovesValid(db, s, t);
    MovesByOp(db, t, AddBalance(to, amount));
    MovesTransitive(db, s, t, Moved(s, from, to, amount));
    FrugalTransfer(db, s, from, to, amount);
    OrderlyTransfer(db, s, from, to, amount);
    IdleByTransfer(db, s, from, to, amount);
  }

  /** After a failed frame, RevertToSnapshot gives the state at its start. */
  lemma RevertMoves(db: Store, s: State, t: State)
    requires Valid(s.warm) && Moves(db, s, t)
    ensures Revert(t, |s.journal|).Some? && Same(db, s, Revert(t, |s.journal|).value)
  {
    hide Same, Revert, Valid;
    Journal.RevertUnwinds(db, t, |s.journal|, |s.journal|, s);
    Journal.RevertLength(db, t, |s.journal|, |s.journal|, s);
  }
}
