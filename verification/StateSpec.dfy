/**
 The journaled state of one transaction as a value: the objects, transient storage, refund counter and access
 list, with the journal of undo entries. Reads fill the caches of an object (account, code, clean slots)
 from the store and write no journal entry.
 */
module StateSpec {
  import opened Common
  import opened AccessLists

  datatype Account = Account(nonce: uint64, balance: nat, codeHash: Hash)

  const NO_ACCOUNT := Account(0, 0, 0)

  datatype Code = Code(bytes: seq<byte>, hash: Hash)

  /** What the storage transaction holds, and the hash function; none of it changes during a run. */
  datatype Store = Store(accounts: map<Address, Account>, codes: map<Hash, seq<byte>>,
                         storage: map<(Address, Hash), Hash>, keccak: seq<byte> -> Hash)

  datatype Object = Object(account: Option<Account>, balanceDelta: Option<int>, code: Option<Code>,
                           dirty: map<Hash, Hash>, clean: map<Hash, Hash>, created: bool, suicided: bool,
                           deleted: bool, nonce: Option<uint64>, fakeBalance: Option<int>)

  const FRESH := Object(None, None, None, map[], map[], false, false, false, None, None)

  /** One entry of the journal: what its closure does when it is run. */
  datatype Undo =
    | ClearDelta(a: Address)
    | ShiftDelta(a: Address, amount: int)
    | RestoreNonce(a: Address, nonce: Option<uint64>)
    | RestoreCode(a: Address, code: Option<Code>)
    | RestoreSlot(a: Address, k: Hash, value: Hash)
    | RemoveSlot(a: Address, k: Hash)
    | RestoreDirty(a: Address, dirty: map<Hash, Hash>)
    | RestoreBalance(a: Address, balance: Option<int>)
    | Unsuicide(a: Address)
    | RestoreObject(a: Address, prev: Object)
    | RestoreRefund(refund: uint64)
    | RestoreTransient(a: Address, k: Hash, value: Hash)
    | CoolAddress(a: Address)
    | CoolSlot(a: Address, k: Hash)

  datatype State = State(objects: map<Address, Object>, transient: map<Address, map<Hash, Hash>>,
                         refund: uint64, warm: Listing, journal: seq<Undo>)

  /** getAccount */
  function Get(s: State, a: Address): Object {
    Find(s.objects, a)
  }

  function Find(objects: map<Address, Object>, a: Address): Object {
    if a in objects then objects[a] else FRESH
  }

  function Put(s: State, a: Address, o: Object): State {
    s.(objects := s.objects[a := o])
  }

  function Log(s: State, e: Undo): State {
    s.(journal := s.journal + [e])
  }

  // ---------------------------------------------------------------- readings

  /** The account record an object stands for, loaded or not. */
  function AccountOf(db: Store, a: Address, o: Object): Option<Account> {
    if o.account.Some? then o.account else if a in db.accounts then Some(db.accounts[a]) else None
  }

  function EmptyCode(db: Store): Hash {
    db.keccak([])
  }

  function CodeAt(db: Store, h: Hash): seq<byte> {
    if h in db.codes then db.codes[h] else []
  }

  /** The code entry an object stands for once loadCode has run. */
  function CodeOf(db: Store, a: Address, o: Object): Code {
    if o.code.Some? then o.code.value
    else
      match AccountOf(db, a, o)
      case None => Code([], EmptyCode(db))
      case Some(acc) =>
        if acc.codeHash == EmptyCode(db) then Code([], EmptyCode(db)) else Code(CodeAt(db, acc.codeHash), acc.codeHash)
  }

  function CommittedOf(db: Store, a: Address, o: Object, k: Hash): Hash {
    if k in o.clean then o.clean[k] else if (a, k) in db.storage then db.storage[(a, k)] else 0
  }

  /** stateObject.getBalance, which does not load the account. */
  function CachedBalance(o: Object): int {
    (if o.balanceDelta.Some? then o.balanceDelta.value else 0) +
    (if o.fakeBalance.Some? then o.fakeBalance.value else if o.account.Some? then o.account.value.balance else 0)
  }

  /** loadAccount and whether it found one. */
  function LoadAccount(db: Store, a: Address, o: Object): (Object, bool) {
    if o.deleted then (o, false)
    else (o.(account := AccountOf(db, a, o)), AccountOf(db, a, o).Some?)
  }

  function LoadCode(db: Store, a: Address, o: Object): (Object, bool) {
    if o.deleted then (o, false)
    else if o.code.Some? then (o, true)
    else (LoadAccount(db, a, o).0.(code := Some(CodeOf(db, a, o))), true)
  }

  function LoadSlot(db: Store, a: Address, o: Object, k: Hash): Object {
    if k in o.clean || (a, k) !in db.storage then o else o.(clean := o.clean[k := db.storage[(a, k)]])
  }

  function GetBalance(db: Store, s: State, a: Address): int {
    var (o, found) := LoadAccount(db, a, Get(s, a));
    if found then CachedBalance(o) else 0
  }

  function NonceOf(db: Store, a: Address, o: Object): uint64 {
    if o.nonce.Some? then o.nonce.value
    else
      var (p, found) := LoadAccount(db, a, o);
      if found then p.account.value.nonce else 0
  }

  function GetNonce(db: Store, s: State, a: Address): uint64 {
    NonceOf(db, a, Get(s, a))
  }

  function GetCode(db: Store, s: State, a: Address): seq<byte> {
    var (o, found) := LoadCode(db, a, Get(s, a));
    if found then o.code.value.bytes else []
  }

  function GetCommittedState(db: Store, s: State, a: Address, k: Hash): Hash {
    CommittedOf(db, a, Get(s, a), k)
  }

  function GetState(db: Store, s: State, a: Address, k: Hash): Hash {
    if k in Get(s, a).dirty then Get(s, a).dirty[k] else GetCommittedState(db, s, a, k)
  }

  function GetTransientState(s: State, a: Address, k: Hash): Hash {
    FindTransient(s.transient, a, k)
  }

  function FindTransient(m: map<Address, map<Hash, Hash>>, a: Address, k: Hash): Hash {
    if a in m && k in m[a] then m[a][k] else 0
  }

  function HasSuicided(s: State, a: Address): bool {
    Get(s, a).suicided
  }

  // ---------------------------------------------------------------- mutators

  datatype Op =
    | AddBalance(a: Address, amount: int)
    | SubBalance(a: Address, amount: int)
    | SetNonce(a: Address, nonce: uint64)
    | SetCode(a: Address, bytes: seq<byte>)
    | SetState(a: Address, k: Hash, value: Hash)
    | SetTransientState(a: Address, k: Hash, value: Hash)
    | SetBalance(a: Address, balance: int)
    | SetStorage(a: Address, dirty: map<Hash, Hash>)
    | CreateAccount(a: Address)
    | Suicide(a: Address)
    | SelfDestruct6780(a: Address)
    | AddRefund(gas: uint64)
    | SubRefund(gas: uint64)
    | AddAddressToAccessList(a: Address)
    | AddSlotToAccessList(a: Address, k: Hash)
    | ReadAccount(a: Address)
    | ReadCode(a: Address)
    | ReadSlot(a: Address, k: Hash)
    | RevertToSnapshot(id: nat)

  /** Adding a signed amount to the balance delta, with the entry that takes it back. */
  function Shift(s: State, a: Address, amount: int): State {
    var o := Get(s, a);
    if o.balanceDelta.None? then
      Log(Put(s, a, o.(balanceDelta := Some(amount))), ClearDelta(a))
    else
      Log(Put(s, a, o.(balanceDelta := Some(o.balanceDelta.value + amount))), ShiftDelta(a, 0 - amount))
  }

  /** AddBalance, and SubBalance with the sign turned: nothing at all for an amount of zero. */
  function Credit(s: State, a: Address, amount: int): State {
    if amount == 0 then s else Shift(s, a, amount)
  }

  /** A debit and a credit of the same amount. */
  function Moved(s: State, from: Address, to: Address, amount: int): State {
    Credit(Credit(s, from, 0 - amount), to, amount)
  }

  function PutSlot(s: State, a: Address, k: Hash, v: Hash): State {
    var o := Get(s, a);
    Log(Put(s, a, o.(dirty := o.dirty[k := v])),
        if k in o.dirty then RestoreSlot(a, k, o.dirty[k]) else RemoveSlot(a, k))
  }

  function Transient(s: State, a: Address, k: Hash, v: Hash): State {
    var m: map<Hash, Hash> := if a in s.transient then s.transient[a] else map[];
    Log(s.(transient := s.transient[a := m[k := v]]), RestoreTransient(a, k, GetTransientState(s, a, k)))
  }

  /** The object CreateAccount keeps for its undo entry: loaded unless the account is gone. */
  function Replaced(db: Store, a: Address, o: Object): Object {
    if o.deleted || o.suicided then o else LoadAccount(db, a, o).0
  }

  function Created(db: Store, a: Address, o: Object): Object {
    var blank := FRESH.(account := Some(NO_ACCOUNT), created := true);
    if !o.deleted && !o.suicided && LoadAccount(db, a, o).1 then
      blank.(balanceDelta := Some(CachedBalance(LoadAccount(db, a, o).0)))
    else blank
  }

  function Destroy(s: State, a: Address): State {
    var o := Get(s, a);
    if o.suicided || o.deleted then Put(s, a, o) else Log(Put(s, a, o.(suicided := true)), Unsuicide(a))
  }

  function WarmSlot(s: State, a: Address, k: Hash): State
    requires InRange(s.warm)
  {
    var t := s.(warm := AddSlot(s.warm, a, k));
    var u := if ContainsAddress(s.warm, a) then t else Log(t, CoolAddress(a));
    if ContainsSlot(s.warm, a, k) then u else Log(u, CoolSlot(a, k))
  }

  function WarmAddress(s: State, a: Address): State {
    if ContainsAddress(s.warm, a) then s else Log(s.(warm := AddAddress(s.warm, a)), CoolAddress(a))
  }

  /** AddRefund and SubRefund: unsigned 64-bit arithmetic, so either may wrap. */
  function Change(s: State, amount: int): State {
    Log(s.(refund := (s.refund + amount) % TWO_64), RestoreRefund(s.refund))
  }

  /** One operation other than a revert. */
  function Apply(db: Store, s: State, op: Op): State
    requires InRange(s.warm) && !op.RevertToSnapshot?
  {
    match op
    case AddBalance(a, amount) => Credit(s, a, amount)
    case SubBalance(a, amount) => Credit(s, a, 0 - amount)
    case SetNonce(a, n) => Log(Put(s, a, Get(s, a).(nonce := Some(n))), RestoreNonce(a, Get(s, a).nonce))
    case SetCode(a, c) => Log(Put(s, a, Get(s, a).(code := Some(Code(c, db.keccak(c))))),
                              RestoreCode(a, Get(s, a).code))
    case SetState(a, k, v) => PutSlot(s, a, k, v)
    case SetTransientState(a, k, v) => Transient(s, a, k, v)
    case SetBalance(a, b) => Log(Put(s, a, Get(s, a).(fakeBalance := Some(b))),
                                 RestoreBalance(a, Get(s, a).fakeBalance))
    case SetStorage(a, d) => Log(Put(s, a, Get(s, a).(dirty := d)), RestoreDirty(a, Get(s, a).dirty))
    case CreateAccount(a) => Log(Put(s, a, Created(db, a, Get(s, a))), RestoreObject(a, Replaced(db, a, Get(s, a))))
    case Suicide(a) => Destroy(s, a)
    case SelfDestruct6780(a) => if Get(s, a).created then Destroy(s, a) else Put(s, a, Get(s, a))
    case AddRefund(g) => Change(s, g)
    case SubRefund(g) => Change(s, 0 - g)
    case AddAddressToAccessList(a) => WarmAddress(s, a)
    case AddSlotToAccessList(a, k) => WarmSlot(s, a, k)
    case ReadAccount(a) => Put(s, a, LoadAccount(db, a, Get(s, a)).0)
    case ReadCode(a) => Put(s, a, LoadCode(db, a, Get(s, a)).0)
    case ReadSlot(a, k) => Put(s, a, LoadSlot(db, a, Get(s, a), k))
  }

  // ---------------------------------------------------------------- undo

  /** Otherwise the closure panics: a nil delta, a nil transient map, or a slot set that is not there. */
  predicate CanUndo(e: Undo, s: State) {
    match e
    case ShiftDelta(a, _) => Get(s, a).balanceDelta.Some?
    case RestoreTransient(a, _, _) => a in s.transient
    case CoolSlot(a, _) => CanDeleteSlot(s.warm, a)
    case _ => true
  }

  function Unwind(e: Undo, s: State): State
    requires CanUndo(e, s)
  {
    match e
    case ClearDelta(a) => Put(s, a, Get(s, a).(balanceDelta := None))
    case ShiftDelta(a, n) => Put(s, a, Get(s, a).(balanceDelta := Some(Get(s, a).balanceDelta.value + n)))
    case RestoreNonce(a, n) => Put(s, a, Get(s, a).(nonce := n))
    case RestoreCode(a, c) => Put(s, a, Get(s, a).(code := c))
    case RestoreSlot(a, k, v) => Put(s, a, Get(s, a).(dirty := Get(s, a).dirty[k := v]))
    case RemoveSlot(a, k) => Put(s, a, Get(s, a).(dirty := Get(s, a).dirty - {k}))
    case RestoreDirty(a, d) => Put(s, a, Get(s, a).(dirty := d))
    case RestoreBalance(a, b) => Put(s, a, Get(s, a).(fakeBalance := b))
    case Unsuicide(a) => Put(s, a, Get(s, a).(suicided := false))
    case RestoreObject(a, prev) => Put(s, a, prev)
    case RestoreRefund(r) => s.(refund := r)
    case RestoreTransient(a, k, v) =>
      var m: map<Hash, Hash> := s.transient[a];
      s.(transient := s.transient[a := m[k := v]])
    case CoolAddress(a) => s.(warm := DeleteAddress(s.warm, a))
    case CoolSlot(a, k) => s.(warm := DeleteSlot(s.warm, a, k))
  }

  /** Running the last entry and dropping it; None is a panic. */
  function Pop(s: State): (r: Option<State>)
    requires s.journal != []
    ensures r.Some? ==> r.value.journal == s.journal[..|s.journal| - 1]
  {
    var e := s.journal[|s.journal| - 1];
    if CanUndo(e, s) then Some(Unwind(e, s).(journal := s.journal[..|s.journal| - 1])) else None
  }

  /** RevertToSnapshot */
  function Revert(s: State, id: nat): Option<State>
    decreases |s.journal|
  {
    if |s.journal| <= id then Some(s)
    else
      match Pop(s)
      case None => None
      case Some(t) => Revert(t, id)
  }

  // ---------------------------------------------------------------- equal up to caches

  /** The two objects stand for the same account; only what a read would fill in may differ, and only be added. */
  ghost predicate SameObject(db: Store, a: Address, o: Object, p: Object) {
    && o.balanceDelta == p.balanceDelta && o.dirty == p.dirty && o.nonce == p.nonce && o.fakeBalance == p.fakeBalance
    && o.created == p.created && o.suicided == p.suicided && o.deleted == p.deleted
    && AccountOf(db, a, o) == AccountOf(db, a, p) && (o.account.Some? || o.deleted ==> p.account == o.account)
    && CodeOf(db, a, o) == CodeOf(db, a, p)
    && forall k :: CommittedOf(db, a, o, k) == CommittedOf(db, a, p, k)
  }

  ghost predicate SameObjects(db: Store, m: map<Address, Object>, n: map<Address, Object>) {
    forall a :: SameObject(db, a, Find(m, a), Find(n, a))
  }

  ghost predicate SameTransient(m: map<Address, map<Hash, Hash>>, n: map<Address, map<Hash, Hash>>) {
    && m.Keys <= n.Keys
    && forall a, k :: FindTransient(m, a, k) == FindTransient(n, a, k)
  }

  /** `t` is `s` with caches filled in: same journal, refund and access list, and the same account everywhere. */
  ghost predicate Same(db: Store, s: State, t: State) {
    && SameObjects(db, s.objects, t.objects) && SameTransient(s.transient, t.transient)
    && s.refund == t.refund && s.warm == t.warm && s.journal == t.journal
  }

  /** Every reading that a contract can make of the two states agrees. */
  ghost predicate SameReadings(db: Store, s: State, t: State) {
    && (forall a :: GetBalance(db, s, a) == GetBalance(db, t, a))
    && (forall a :: GetNonce(db, s, a) == GetNonce(db, t, a))
    && (forall a :: GetCode(db, s, a) == GetCode(db, t, a))
    && (forall a, k :: GetState(db, s, a, k) == GetState(db, t, a, k))
    && (forall a, k :: GetCommittedState(db, s, a, k) == GetCommittedState(db, t, a, k))
    && (forall a, k :: GetTransientState(s, a, k) == GetTransientState(t, a, k))
    && (forall a :: HasSuicided(s, a) == HasSuicided(t, a))
    && (forall a :: ContainsAddress(s.warm, a) == ContainsAddress(t.warm, a))
    && (forall a, k :: ContainsSlot(s.warm, a, k) == ContainsSlot(t.warm, a, k))
    && s.refund == t.refund
  }

  lemma SameIsSeen(db: Store, s: State, t: State)
    requires Same(db, s, t)
    ensures SameReadings(db, s, t)
  {
    forall a ensures && GetBalance(db, s, a) == GetBalance(db, t, a) && GetNonce(db, s, a) == GetNonce(db, t, a)
                     && GetCode(db, s, a) == GetCode(db, t, a) && HasSuicided(s, a) == HasSuicided(t, a)
    {
      assert SameObject(db, a, Find(s.objects, a), Find(t.objects, a));
    }
    forall a, k ensures && GetState(db, s, a, k) == GetState(db, t, a, k)
                        && GetCommittedState(db, s, a, k) == GetCommittedState(db, t, a, k)
    {
      assert SameObject(db, a, Find(s.objects, a), Find(t.objects, a));
    }
  }

  // ---------------------------------------------------------------- what a write changes

  /** The account is in the store or was created, and is not gone. */
  predicate Known(db: Store, s: State, a: Address) {
    !Get(s, a).deleted && AccountOf(db, a, Get(s, a)).Some?
  }

  lemma ShiftMeans(db: Store, s: State, a: Address, amount: int, b: Address)
    ensures var t := Shift(s, a, amount);
            && t.warm == s.warm && Known(db, t, b) == Known(db, s, b)
            && GetBalance(db, t, b) == GetBalance(db, s, b) + if b == a && Known(db, s, a) then amount else 0
  {
  }

  /** A credit is read back exactly on a known account; on any other it is never seen. */
  lemma CreditMeans(db: Store, s: State, a: Address, amount: int, b: Address)
    ensures var t := Credit(s, a, amount);
            && t.warm == s.warm && Known(db, t, b) == Known(db, s, b)
            && GetBalance(db, t, b) == GetBalance(db, s, b) + if b == a && Known(db, s, a) then amount else 0
  {
    hide Shift, GetBalance, Known;
    ShiftMeans(db, s, a, amount, b);
  }

  /** Moving an amount: debit and credit each show exactly on a known account, and no other balance changes. */
  lemma TransferMoves(db: Store, s: State, from: Address, to: Address, amount: int, a: Address)
    ensures var t := Moved(s, from, to, amount);
            && Known(db, t, a) == Known(db, s, a)
            && GetBalance(db, t, a) == GetBalance(db, s, a)
                                       - (if a == from && Known(db, s, from) then amount else 0)
                                       + (if a == to && Known(db, s, to) then amount else 0)
  {
    hide Credit, GetBalance, Known;
    CreditMeans(db, s, from, 0 - amount, a);
    CreditMeans(db, s, from, 0 - amount, to);
    CreditMeans(db, Credit(s, from, 0 - amount), to, amount, a);
  }

  /** A storage write is read back and touches no other slot. */
  lemma SetStateMeans(db: Store, s: State, a: Address, k: Hash, v: Hash, b: Address, j: Hash)
    requires InRange(s.warm)
    ensures GetState(db, Apply(db, s, SetState(a, k, v)), b, j) == if b == a && j == k then v else GetState(db, s, b, j)
  {
    hide LoadAccount, LoadCode, Created, Replaced, Destroy, WarmSlot, WarmAddress, Transient;
  }

  lemma SetTransientMeans(db: Store, s: State, a: Address, k: Hash, v: Hash, b: Address, j: Hash)
    requires InRange(s.warm)
    ensures GetTransientState(Apply(db, s, SetTransientState(a, k, v)), b, j)
            == if b == a && j == k then v else GetTransientState(s, b, j)
  {
    hide LoadAccount, LoadCode, Created, Replaced, Destroy, WarmSlot, WarmAddress, PutSlot;
  }

  /** Nonce and code, once set, are what the account reads. */
  lemma SettersMean(db: Store, s: State, a: Address, nonce: uint64, code: seq<byte>)
    requires InRange(s.warm)
    ensures GetNonce(db, Apply(db, s, SetNonce(a, nonce)), a) == nonce
    ensures !Get(s, a).deleted ==> GetCode(db, Apply(db, s, SetCode(a, code)), a) == code
  {
    hide LoadAccount, Created, Replaced, Destroy, WarmSlot, WarmAddress, PutSlot, Transient;
  }

  /** A created account keeps a live predecessor's balance and nothing else of it. */
  lemma CreateMeans(db: Store, s: State, a: Address)
    requires InRange(s.warm)
    ensures var t := Apply(db, s, CreateAccount(a));
            && Get(t, a).created && GetNonce(db, t, a) == 0 && !HasSuicided(t, a) && Get(t, a).dirty == map[]
            && GetBalance(db, t, a) == if HasSuicided(s, a) then 0 else GetBalance(db, s, a)
  {
    hide LoadCode, LoadSlot, Destroy, WarmSlot, WarmAddress, PutSlot, Transient;
  }

  // ---------------------------------------------------------------- every reading behind every operation

  /** What an operation makes of the object of `b`. */
  function Changed(db: Store, op: Op, b: Address, o: Object): Object {
    match op
    case AddBalance(a, n) => if b == a then Shifted(o, n) else o
    case SubBalance(a, n) => if b == a then Shifted(o, 0 - n) else o
    case SetNonce(a, n) => if b == a then o.(nonce := Some(n)) else o
    case SetCode(a, c) => if b == a then o.(code := Some(Code(c, db.keccak(c)))) else o
    case SetState(a, k, v) => if b == a then o.(dirty := o.dirty[k := v]) else o
    case SetBalance(a, n) => if b == a then o.(fakeBalance := Some(n)) else o
    case SetStorage(a, d) => if b == a then o.(dirty := d) else o
    case CreateAccount(a) => if b == a then Created(db, a, o) else o
    case Suicide(a) => if b == a && !o.deleted then o.(suicided := true) else o
    case SelfDestruct6780(a) => if b == a && o.created && !o.deleted then o.(suicided := true) else o
    case ReadAccount(a) => if b == a then LoadAccount(db, a, o).0 else o
    case ReadCode(a) => if b == a then LoadCode(db, a, o).0 else o
    case ReadSlot(a, k) => if b == a then LoadSlot(db, a, o, k) else o
    case _ => o
  }

  function Shifted(o: Object, n: int): Object {
    if n == 0 then o else o.(balanceDelta := Some((if o.balanceDelta.Some? then o.balanceDelta.value else 0) + n))
  }

  lemma ObjectAfter(db: Store, s: State, op: Op, b: Address)
    requires InRange(s.warm) && !op.RevertToSnapshot?
    ensures Get(Apply(db, s, op), b) == Changed(db, op, b, Get(s, b))
  {
    hide LoadAccount, LoadCode, LoadSlot, Created, Replaced, AddSlot, Credit, Shifted, Destroy, WarmSlot, WarmAddress,
         Transient, PutSlot;
    CreditObject(s, op, b);
    PutObject(db, s, op, b);
  }

  lemma CreditObject(s: State, op: Op, b: Address)
    ensures op.AddBalance? ==>
              Get(Credit(s, op.a, op.amount), b) == if b == op.a then Shifted(Get(s, b), op.amount) else Get(s, b)
    ensures op.SubBalance? ==>
              Get(Credit(s, op.a, 0 - op.amount), b)
              == if b == op.a then Shifted(Get(s, b), 0 - op.amount) else Get(s, b)
  {
  }

  lemma PutObject(db: Store, s: State, op: Op, b: Address)
    requires InRange(s.warm)
    ensures op.SetState? ==>
              Get(PutSlot(s, op.a, op.k, op.value), b)
              == if b == op.a then Get(s, b).(dirty := Get(s, b).dirty[op.k := op.value]) else Get(s, b)
    ensures op.Suicide? || op.SelfDestruct6780? ==>
              Get(Destroy(s, op.a), b)
              == if b == op.a && !Get(s, b).deleted then Get(s, b).(suicided := true) else Get(s, b)
    ensures op.SetTransientState? ==> Transient(s, op.a, op.k, op.value).objects == s.objects
    ensures op.AddAddressToAccessList? ==> WarmAddress(s, op.a).objects == s.objects
    ensures op.AddSlotToAccessList? ==> WarmSlot(s, op.a, op.k).objects == s.objects
  {
    hide AddSlot;
  }

  /** Balances change by credits and debits, by an override, and when a destroyed account is made anew. */
  lemma BalanceAfter(db: Store, s: State, op: Op, b: Address)
    requires InRange(s.warm) && !op.RevertToSnapshot?
    ensures GetBalance(db, Apply(db, s, op), b) ==
            var was := GetBalance(db, s, b);
            match op
            case AddBalance(a, n) => was + if b == a && Known(db, s, a) then n else 0
            case SubBalance(a, n) => was - if b == a && Known(db, s, a) then n else 0
            case SetBalance(a, n) =>
              if b == a && Known(db, s, a) then n + CachedBalance(Get(s, a).(account := None, fakeBalance := None))
              else was
            case CreateAccount(a) => if b == a && HasSuicided(s, a) then 0 else was
            case _ => was
  {
    hide Apply, CommittedOf, CodeOf;
    ObjectAfter(db, s, op, b);
  }

  /** A nonce is what it was last set to, and zero in a new account. */
  lemma NonceAfter(db: Store, s: State, op: Op, b: Address)
    requires InRange(s.warm) && !op.RevertToSnapshot?
    ensures GetNonce(db, Apply(db, s, op), b) ==
            match op
            case SetNonce(a, n) => if b == a then n else GetNonce(db, s, b)
            case CreateAccount(a) => if b == a then 0 else GetNonce(db, s, b)
            case _ => GetNonce(db, s, b)
  {
    hide Apply, CommittedOf, CodeOf;
    ObjectAfter(db, s, op, b);
  }

  lemma BytesAfter(db: Store, op: Op, b: Address, o: Object)
    ensures var (p, found) := LoadCode(db, b, Changed(db, op, b, o));
            (if found then p.code.value.bytes else []) ==
            if op.SetCode? && b == op.a && !o.deleted then op.bytes
            else if op.CreateAccount? && b == op.a then if EmptyCode(db) == 0 then [] else CodeAt(db, 0)
            else if LoadCode(db, b, o).1 then LoadCode(db, b, o).0.code.value.bytes
            else []
  {
    hide CachedBalance;
    if (!op.SetCode? && !op.CreateAccount?) || b != op.a {
      hide Changed, CodeOf;
      CodeKept(db, op, b, o);
    }
  }

  lemma CodeKept(db: Store, op: Op, b: Address, o: Object)
    requires (!op.SetCode? && !op.CreateAccount?) || b != op.a
    ensures var p := Changed(db, op, b, o); p.deleted == o.deleted && CodeOf(db, b, p) == CodeOf(db, b, o)
  {
    hide CachedBalance, EmptyCode, CodeAt;
  }

  /** Code is what it was last set to; a new account has what the store keeps under hash zero. */
  lemma CodeAfter(db: Store, s: State, op: Op, b: Address)
    requires InRange(s.warm) && !op.RevertToSnapshot?
    ensures GetCode(db, Apply(db, s, op), b) ==
            match op
            case SetCode(a, code) => if b == a && !Get(s, a).deleted then code else GetCode(db, s, b)
            case CreateAccount(a) =>
              if b == a then if EmptyCode(db) == 0 then [] else CodeAt(db, 0) else GetCode(db, s, b)
            case _ => GetCode(db, s, b)
  {
    hide Apply, CommittedOf, Changed, LoadCode, CodeOf;
    ObjectAfter(db, s, op, b);
    BytesAfter(db, op, b, Get(s, b));
  }

  /** A slot is what it was last set to; a replaced storage and a new account fall back to committed slots. */
  lemma SlotAfter(db: Store, s: State, op: Op, b: Address, k: Hash)
    requires InRange(s.warm) && !op.RevertToSnapshot?
    ensures var t := Apply(db, s, op);
            var stored := if (b, k) in db.storage then db.storage[(b, k)] else 0;
            && GetCommittedState(db, t, b, k) ==
               (if op.CreateAccount? && b == op.a then stored else GetCommittedState(db, s, b, k))
            && GetState(db, t, b, k) ==
               match op
               case SetState(a, j, v) => if b == a && k == j then v else GetState(db, s, b, k)
               case SetStorage(a, d) =>
                 if b != a then GetState(db, s, b, k) else if k in d then d[k] else GetCommittedState(db, s, b, k)
               case CreateAccount(a) => if b == a then stored else GetState(db, s, b, k)
               case _ => GetState(db, s, b, k)
  {
    hide Apply, AccountOf, CodeOf, CachedBalance, EmptyCode;
    ObjectAfter(db, s, op, b);
  }

  /** Transient storage changes by its own writes only. */
  lemma TransientAfter(db: Store, s: State, op: Op, b: Address, k: Hash)
    requires InRange(s.warm) && !op.RevertToSnapshot?
    ensures GetTransientState(Apply(db, s, op), b, k) ==
            if op.SetTransientState? && b == op.a && k == op.k then op.value else GetTransientState(s, b, k)
  {
    hide LoadAccount, LoadCode, LoadSlot, Created, Replaced, AddSlot;
  }

  /**
   Which accounts go: Suicide marks any account that is not gone already, SelfDestruct6780 only one made in this
   transaction, and a new account is not marked.
   */
  lemma SuicidedAfter(db: Store, s: State, op: Op, b: Address)
    requires InRange(s.warm) && !op.RevertToSnapshot?
    ensures HasSuicided(Apply(db, s, op), b) <==>
            match op
            case Suicide(a) => HasSuicided(s, b) || (b == a && !Get(s, a).deleted)
            case SelfDestruct6780(a) => HasSuicided(s, b) || (b == a && Get(s, a).created && !Get(s, a).deleted)
            case CreateAccount(a) => b != a && HasSuicided(s, b)
            case _ => HasSuicided(s, b)
  {
    hide Apply, AccountOf, CodeOf, CachedBalance;
    ObjectAfter(db, s, op, b);
  }

  /** Only a creation makes an account one of this transaction, and no operation makes it gone. */
  lemma CreatedAfter(db: Store, s: State, op: Op, b: Address)
    requires InRange(s.warm) && !op.RevertToSnapshot?
    ensures Get(Apply(db, s, op), b).created <==> Get(s, b).created || (op.CreateAccount? && b == op.a)
    ensures Get(Apply(db, s, op), b).deleted <==> Get(s, b).deleted && !(op.CreateAccount? && b == op.a)
  {
    hide Apply, AccountOf, CodeOf, CachedBalance;
    ObjectAfter(db, s, op, b);
  }

  /** A creation gives an account its record, and no operation takes one away. */
  lemma KnownAfter(db: Store, s: State, op: Op, b: Address)
    requires InRange(s.warm) && !op.RevertToSnapshot?
    ensures Known(db, Apply(db, s, op), b) <==> Known(db, s, b) || (op.CreateAccount? && b == op.a)
  {
    hide Apply, CodeOf, CachedBalance, CommittedOf;
    ObjectAfter(db, s, op, b);
  }

  /** Addresses and slots become warm by being added, and a slot warms its address. */
  lemma WarmAfter(db: Store, s: State, op: Op, b: Address, k: Hash)
    requires Valid(s.warm) && InRange(s.warm) && !op.RevertToSnapshot?
    ensures var t := Apply(db, s, op);
            && (ContainsAddress(t.warm, b) <==>
                  || ContainsAddress(s.warm, b)
                  || ((op.AddAddressToAccessList? || op.AddSlotToAccessList?) && b == op.a))
            && (ContainsSlot(t.warm, b, k) <==>
                  ContainsSlot(s.warm, b, k) || (op.AddSlotToAccessList? && b == op.a && k == op.k))
  {
    hide LoadAccount, LoadCode, LoadSlot, Created, Replaced, AddSlot, AddAddress, ContainsSlot, ContainsAddress, Valid;
    if op.AddSlotToAccessList? {
      AddSlotWarms(s.warm, op.a, op.k);
    } else if op.AddAddressToAccessList? {
      AddAddressWarms(s.warm, op.a);
    }
  }

  /** The refund counter changes by refunds only, modulo 2^64. */
  lemma RefundAfter(db: Store, s: State, op: Op)
    requires InRange(s.warm) && !op.RevertToSnapshot?
    ensures Apply(db, s, op).refund ==
            if op.AddRefund? then (s.refund + op.gas) % TWO_64
            else if op.SubRefund? then (s.refund - op.gas) % TWO_64
            else s.refund
  {
    hide LoadAccount, LoadCode, LoadSlot, Created, Replaced, AddSlot;
  }

  // ---------------------------------------------------------------- end of transaction

  function FinaliseObject(o: Object): Object {
    o.(clean := o.clean + o.dirty, deleted := o.deleted || o.suicided)
  }

  /** Finalise leaves the journal as it is. */
  function Finalise(s: State): State {
    State(map a | a in s.objects :: FinaliseObject(s.objects[a]), map[], 0, EMPTY, s.journal)
  }

  /** Current storage becomes committed storage; accounts keep their readings unless they were destroyed. */
  lemma FinaliseCommits(db: Store, s: State, a: Address)
    ensures var t := Finalise(s);
            && (forall k :: GetState(db, t, a, k) == GetState(db, s, a, k) == GetCommittedState(db, t, a, k))
            && (!HasSuicided(s, a) ==>
                  && GetBalance(db, t, a) == GetBalance(db, s, a) && GetNonce(db, t, a) == GetNonce(db, s, a)
                  && GetCode(db, t, a) == GetCode(db, s, a))
            && (HasSuicided(s, a) ==> GetBalance(db, t, a) == 0 && GetCode(db, t, a) == [])
  {
    assert Get(Finalise(s), a) == FinaliseObject(Get(s, a));
  }
}
