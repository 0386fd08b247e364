/**
 What a transaction does between its purchase of gas and its settlement: the access list, the sender's nonce, the
 authorisations (EIP-7702), and the outermost call or creation, which is the one the message asks for.
 */
module Deliveries {
  import opened Common
  import opened AccessLists
  import opened Fees
  import opened Opcodes
  import opened Scopes
  import opened Semantics
  import opened StateSpec
  import Journal
  import StateCaches

  /** What an authorisation gives back when the authority exists. */
  const AUTH_REFUND := 12500

  // ---------------------------------------------------------------- what a transaction is rejected for

  /** The nonce, where it is looked at, must be that of the sender. */
  function NonceObjection(db: Store, s: State, msg: Message): Option<Failure> {
    if msg.nonce.None? || GetNonce(db, s, msg.from) == msg.nonce.value then None
    else if GetNonce(db, s, msg.from) < msg.nonce.value then Some(NonceTooHigh)
    else Some(NonceTooLow)
  }

  /** The first objection up to the intrinsic charge; `pool` is the gas left in the block. */
  function Objection(db: Store, s: State, msg: Message, rules: Rules, baseFee: Option<nat>, noBaseFee: bool,
                     pool: nat): Option<Failure> {
    if NonceObjection(db, s, msg).Some? then NonceObjection(db, s, msg)
    else if !FeesPass(msg.prices, rules, baseFee, noBaseFee) then Some(FeeError)
    else if GetBalance(db, s, msg.from) < msg.gasLimit * msg.prices.feeCap then Some(InsufficientFunds)
    else if pool < msg.gasLimit then Some(PoolExhausted)
    else Verdict(msg, rules)
  }

  /** The first objection behind the purchase. */
  function LateObjection(db: Store, s: State, msg: Message, rules: Rules): Option<Failure> {
    if msg.value > 0 && GetBalance(db, s, msg.from) < msg.value then Some(InsufficientFundsForTransfer)
    else if rules.shanghai && msg.to.None? && |msg.data| > MAX_INIT_CODE_SIZE then Some(InitCodeTooLarge)
    else None
  }

  /** Objections do not depend on what the caches hold. */
  lemma ObjectionsSame(db: Store, s: State, t: State, msg: Message, rules: Rules)
    requires Same(db, s, t) && InRange(s.warm) && InRange(t.warm)
    ensures LateObjection(db, Bought(db, t, msg), msg, rules) == LateObjection(db, Bought(db, s, msg), msg, rules)
  {
    hide Same, GetBalance, Bought, Known, GetCode, HasSuicided, InRange;
    AsBeforeBySame(db, s, t, msg.from);
    BoughtMeans(db, s, msg, msg.from);
    BoughtMeans(db, t, msg, msg.from);
  }

  // ---------------------------------------------------------------- the access list

  /** Just these addresses and slots have become warm, and nothing else is new. */
  ghost predicate Warms(s: State, t: State, addresses: set<Address>, slots: set<(Address, Hash)>) {
    && t == s.(warm := t.warm, journal := t.journal)
    && (forall a :: ContainsAddress(t.warm, a) <==> ContainsAddress(s.warm, a) || a in addresses)
    && (forall a: Address, k: Hash ::
          ContainsSlot(t.warm, a, k) <==> ContainsSlot(s.warm, a, k) || (a, k) in slots)
  }

  lemma WarmsNothing(s: State)
    ensures Warms(s, s, {}, {})
  {
    hide ContainsAddress, ContainsSlot;
  }

  lemma WarmsOn(s: State, t: State, u: State, a: set<Address>, k: set<(Address, Hash)>, b: set<Address>,
                l: set<(Address, Hash)>)
    requires Warms(s, t, a, k) && Warms(t, u, b, l)
    ensures Warms(s, u, a + b, k + l)
  {
    hide ContainsAddress, ContainsSlot;
  }

  lemma WarmsByOp(db: Store, s: State, op: Op)
    requires Valid(s.warm) && InRange(s.warm) && (op.AddAddressToAccessList? || op.AddSlotToAccessList?)
    ensures Warms(s, Apply(db, s, op), {op.a}, if op.AddSlotToAccessList? then {(op.a, op.k)} else {})
  {
    hide ContainsAddress, ContainsSlot, Valid, Apply;
    var t := Apply(db, s, op);
    OnlyWarmth(db, s, op);
    var slots: set<(Address, Hash)> := if op.AddSlotToAccessList? then {(op.a, op.k)} else {};
    forall a: Address, k: Hash
      ensures ContainsSlot(t.warm, a, k) <==> ContainsSlot(s.warm, a, k) || (a, k) in slots
    {
      WarmAfter(db, s, op, a, k);
    }
    forall a ensures ContainsAddress(t.warm, a) <==> ContainsAddress(s.warm, a) || a in {op.a} {
      WarmAfter(db, s, op, a, 0);
    }
  }

  lemma OnlyWarmth(db: Store, s: State, op: Op)
    requires InRange(s.warm) && (op.AddAddressToAccessList? || op.AddSlotToAccessList?)
    ensures var t := Apply(db, s, op); t == s.(warm := t.warm, journal := t.journal)
  {
    hide AddSlot;
  }

  /** The addresses and the slots that a message lists. */
  function ListedAddresses(list: seq<Access>): set<Address> {
    if list == [] then {} else ListedAddresses(list[..|list| - 1]) + {list[|list| - 1].address}
  }

  function SlotsOf(a: Address, keys: seq<Hash>): set<(Address, Hash)> {
    if keys == [] then {} else SlotsOf(a, keys[..|keys| - 1]) + {(a, keys[|keys| - 1])}
  }

  function ListedSlots(list: seq<Access>): set<(Address, Hash)> {
    if list == [] then {}
    else ListedSlots(list[..|list| - 1]) + SlotsOf(list[|list| - 1].address, list[|list| - 1].keys)
  }

  function ListedPrecompiles(precompiles: seq<Address>): set<Address> {
    if precompiles == [] then {} else ListedPrecompiles(precompiles[..|precompiles| - 1])
                                      + {precompiles[|precompiles| - 1]}
  }

  lemma {:induction false} Listed(list: seq<Access>, a: Address, k: Hash)
    ensures a in ListedAddresses(list) <==> exists i :: 0 <= i < |list| && list[i].address == a
    ensures (a, k) in ListedSlots(list) <==> exists i :: 0 <= i < |list| && list[i].address == a && k in list[i].keys
  {
    if list != [] {
      var front, last := list[..|list| - 1], list[|list| - 1];
      Listed(front, a, k);
      InSlots(last.address, last.keys, a, k);
      assert list == front + [last];
    }
  }

  lemma {:induction false} InSlots(b: Address, keys: seq<Hash>, a: Address, k: Hash)
    ensures (a, k) in SlotsOf(b, keys) <==> a == b && k in keys
  {
    if keys != [] {
      InSlots(b, keys[..|keys| - 1], a, k);
      assert keys == keys[..|keys| - 1] + [keys[|keys| - 1]];
    }
  }

  /** What is warm from the start: sender, receiver, precompiles, what the message lists, and the coinbase. */
  function WarmFirst(msg: Message, rules: Rules, coinbase: Address, precompiles: seq<Address>): set<Address> {
    {msg.from} + (if msg.to.Some? then {msg.to.value} else {}) + ListedPrecompiles(precompiles)
    + ListedAddresses(msg.accessList) + if rules.shanghai then {coinbase} else {}
  }

  /** The balance may have been looked up; then the access list is set up. */
  ghost predicate Prepares(db: Store, msg: Message, rules: Rules, coinbase: Address, precompiles: seq<Address>,
                           s: State, t: State) {
    exists u {:trigger Same(db, s, u)} ::
      Same(db, s, u) && Warms(u, t, WarmFirst(msg, rules, coinbase, precompiles), ListedSlots(msg.accessList))
  }

  // ---------------------------------------------------------------- nonce and authorisations

  ghost predicate RaisesNonce(db: Store, s: State, from: Address, t: State) {
    exists u {:trigger Same(db, s, u)} ::
      && Same(db, s, u) && InRange(u.warm)
      && t == Apply(db, u, SetNonce(from, Wrap64(GetNonce(db, s, from) + 1)))
  }

  /** The code of a delegation: the designator, or nothing for the zero address. */
  function Designator(address: Address): seq<byte> {
    if address == 0 then [] else [0xef, 0x01, 0x00] + FixedBytes(address, 20)
  }

  /** What is written as a delegation is read back as one. */
  lemma DesignatorParses(address: Address)
    ensures Delegation(Designator(address)) ==
            if address == 0 then None else Some(ToAddress(address))
  {
    hide FixedBytes, FromBigEndian;
    if address != 0 {
      FixedBytesValue(address, 20);
      Pow256Twenty();
      assert Designator(address)[3..] == FixedBytes(address, 20);
    }
  }

  lemma Pow256Twenty()
    ensures Pow256(20) == 0x1_0000000000_0000000000_0000000000_0000000000
  {
    Pow256Eight();
    assert Pow256(12) == 256 * 256 * 256 * 256 * Pow256(8);
    assert Pow256(16) == 256 * 256 * 256 * 256 * Pow256(12);
    assert Pow256(20) == 256 * 256 * 256 * 256 * Pow256(16);
  }

  /** For this chain, by an authority whose signature is valid. */
  predicate Addressed(chainId: nat, auth: Authorization) {
    (auth.chainId == 0 || auth.chainId == chainId) && auth.authority.Some?
  }

  /** The authority has no code but a delegation, and the nonce is its own. */
  predicate Acceptable(db: Store, s: State, auth: Authorization)
    requires auth.authority.Some?
  {
    var code := GetCode(db, s, auth.authority.value);
    (code == [] || (|code| >= 3 && code[..3] == [0xef, 0x01, 0x00]))
    && GetNonce(db, s, auth.authority.value) == auth.nonce
  }

  /** The authority is looked at and warm, whether or not it accepts. */
  ghost predicate Inspects(db: Store, s: State, authority: Address, t: State) {
    Same(db, WarmAddress(s, authority), t)
  }

  /** A refund if the authority exists, its new code and its next nonce. */
  ghost predicate Delegates(db: Store, s: State, auth: Authorization, t: State)
    requires auth.authority.Some?
  {
    exists u {:trigger Same(db, s, u)} ::
      && Same(db, s, u) && InRange(u.warm)
      && t == Delegated(db, u, auth.authority.value, auth, StateCaches.Exist(db, s, auth.authority.value))
  }

  function Delegated(db: Store, s: State, authority: Address, auth: Authorization, exist: bool): State
    requires InRange(s.warm)
  {
    var t := if exist then Change(s, AUTH_REFUND) else s;
    Apply(db, Apply(db, t, SetCode(authority, Designator(auth.address))),
          SetNonce(authority, Wrap64((auth.nonce as int) + 1)))
  }

  /** One authorisation: not for us, looked at and skipped, or applied. */
  ghost predicate Authorises(db: Store, chainId: nat, s: State, auth: Authorization, t: State) {
    if !Addressed(chainId, auth) then t == s
    else if !Acceptable(db, s, auth) then Inspects(db, s, auth.authority.value, t)
    else exists u :: Inspects(db, s, auth.authority.value, u) && Delegates(db, u, auth, t)
  }

  /** All of them, in order. */
  ghost predicate AuthorisesAll(db: Store, chainId: nat, s: State, auths: seq<Authorization>, t: State) {
    if auths == [] then t == s
    else
      var n := |auths| - 1;
      exists u :: AuthorisesAll(db, chainId, s, auths[..n], u) && Authorises(db, chainId, u, auths[n], t)
  }

  /** An applied authorisation shows: the authority delegates to the address and has the next nonce. */
  lemma DelegatesMeans(db: Store, s: State, auth: Authorization, t: State)
    requires auth.authority.Some? && Delegates(db, s, auth, t) && !Get(s, auth.authority.value).deleted
    ensures GetNonce(db, t, auth.authority.value) == Wrap64((auth.nonce as int) + 1)
    ensures Delegation(GetCode(db, t, auth.authority.value)) ==
            if auth.address == 0 then None else Some(ToAddress(auth.address))
    ensures forall b :: GetBalance(db, t, b) == GetBalance(db, s, b)
    ensures t.refund == if StateCaches.Exist(db, s, auth.authority.value) then (s.refund + AUTH_REFUND) % TWO_64
                        else s.refund
  {
    hide Same, Apply, GetNonce, GetCode, GetBalance, StateCaches.Exist, Designator, Delegation, InRange;
    var a, exist := auth.authority.value, StateCaches.Exist(db, s, auth.authority.value);
    var code, nonce := Designator(auth.address), Wrap64((auth.nonce as int) + 1);
    var u :| Same(db, s, u) && InRange(u.warm) && t == Delegated(db, u, a, auth, exist);
    SameIsSeen(db, s, u);
    SameIsKnown(db, s, u, a);
    var v := if exist then Change(u, AUTH_REFUND) else u;
    var w := Apply(db, v, SetCode(a, code));
    WarmthStays(db, v, SetCode(a, code));
    CodeAfter(db, v, SetCode(a, code), a);
    CodeAfter(db, w, SetNonce(a, nonce), a);
    NonceAfter(db, w, SetNonce(a, nonce), a);
    RefundAfter(db, v, SetCode(a, code));
    RefundAfter(db, w, SetNonce(a, nonce));
    DesignatorParses(auth.address);
    forall b ensures GetBalance(db, t, b) == GetBalance(db, s, b) {
      RewardKeepsBalance(db, u, b);
      BalanceAfter(db, v, SetCode(a, code), b);
      BalanceAfter(db, w, SetNonce(a, nonce), b);
    }
  }

  lemma RewardKeepsBalance(db: Store, s: State, b: Address)
    ensures GetBalance(db, Change(s, AUTH_REFUND), b) == GetBalance(db, s, b)
  {
  }

  lemma WarmthStays(db: Store, s: State, op: Op)
    requires InRange(s.warm) && (op.SetCode? || op.SetNonce?)
    ensures Apply(db, s, op).warm == s.warm
  {
  }

  // ---------------------------------------------------------------- the outermost call or creation

  /** The target of the receiver's delegation becomes warm. */
  ghost predicate WarmsDelegate(db: Store, s: State, to: Address, t: State) {
    exists u {:trigger Same(db, s, u)} ::
      && Same(db, s, u)
      && t == match Delegation(GetCode(db, s, to)) case None => u case Some(target) => WarmAddress(u, target)
  }

  datatype Delivery = Handed(raised: State, authorised: State, calling: Calling) | Deployed(creating: Creating)

  function AnswerOf(d: Delivery): Answer {
    match d
    case Handed(_, _, calling) => calling.answer
    case Deployed(creating) => creating.answer
  }

  /** The message is delivered: a call of its receiver with its data and value, or a creation from its data. */
  ghost predicate Delivers(db: Store, env: Env, msg: Message, chainId: nat, depth: nat, gas: nat, s: State,
                           d: Delivery) {
    match msg.to
    case None =>
      && d.Deployed? && Same(db, s, d.creating.start) && Creates(db, env, d.creating)
      && d.creating.order ==
         Order(msg.from, msg.data, gas, msg.value, env.createAddress(msg.from, GetNonce(db, s, msg.from)), false, depth)
    case Some(to) =>
      && d.Handed? && RaisesNonce(db, s, msg.from, d.raised)
      && AuthorisesAll(db, chainId, d.raised, msg.authList, d.authorised)
      && WarmsDelegate(db, d.authorised, to, d.calling.start) && Calls(db, env, d.calling)
      && d.calling.request == Request(CALL, msg.from, msg.from, 0, to, msg.data, gas, msg.value, false, depth)
  }

  // ---------------------------------------------------------------- a plain transfer

  /** Balances and records are as they were, and so are code and fate of this account. */
  ghost predicate AsBefore(db: Store, s: State, t: State, a: Address) {
    && (forall b :: GetBalance(db, t, b) == GetBalance(db, s, b)) && (forall b :: Known(db, t, b) == Known(db, s, b))
    && GetCode(db, t, a) == GetCode(db, s, a) && HasSuicided(t, a) == HasSuicided(s, a)
  }

  lemma AsBeforeTransitive(db: Store, s: State, t: State, u: State, a: Address)
    requires AsBefore(db, s, t, a) && AsBefore(db, t, u, a)
    ensures AsBefore(db, s, u, a)
  {
    hide GetBalance, Known, GetCode, HasSuicided;
  }

  lemma AsBeforeBySame(db: Store, s: State, t: State, a: Address)
    requires Same(db, s, t)
    ensures AsBefore(db, s, t, a)
  {
    hide GetBalance, Known, GetCode, HasSuicided, Same;
    SameIsSeen(db, s, t);
    forall b ensures Known(db, t, b) == Known(db, s, b) {
      SameIsKnown(db, s, t, b);
    }
  }

  lemma AsBeforeByObjects(db: Store, s: State, t: State, a: Address)
    requires t.objects == s.objects
    ensures AsBefore(db, s, t, a)
  {
  }

  lemma AsBeforeByNonce(db: Store, s: State, from: Address, t: State, a: Address)
    requires RaisesNonce(db, s, from, t)
    ensures AsBefore(db, s, t, a)
  {
    hide GetBalance, Known, GetCode, HasSuicided, Same, Apply, GetNonce, InRange;
    var op := SetNonce(from, Wrap64(GetNonce(db, s, from) + 1));
    var u :| Same(db, s, u) && InRange(u.warm) && t == Apply(db, u, op);
    AsBeforeBySame(db, s, u, a);
    forall b ensures GetBalance(db, t, b) == GetBalance(db, u, b) && Known(db, t, b) == Known(db, u, b) {
      BalanceAfter(db, u, op, b);
      KnownAfter(db, u, op, b);
    }
    CodeAfter(db, u, op, a);
    SuicidedAfter(db, u, op, a);
    AsBeforeTransitive(db, s, u, t, a);
  }

  /** The receiver is a known account without code, other than the payer and not destroyed. */
  ghost predicate Receptive(db: Store, s: State, from: Address, to: Address) {
    && from != to && Known(db, s, from) && Known(db, s, to) && GetCode(db, s, to) == [] && !HasSuicided(s, to)
    && CodeAt(db, 0) == []
  }

  lemma StillReceptive(db: Store, s: State, t: State, from: Address, to: Address)
    requires Receptive(db, s, from, to) && AsBefore(db, s, t, to)
    ensures Receptive(db, t, from, to)
  {
    hide GetBalance, Known, GetCode, HasSuicided, CodeAt;
  }

  /** Exactly the value has gone from one account to the other. */
  ghost predicate Paid(db: Store, s: State, from: Address, to: Address, value: nat, t: State) {
    && (forall b :: Known(db, t, b) == Known(db, s, b))
    && (forall b :: GetBalance(db, t, b) ==
                    GetBalance(db, s, b) - (if b == from then value else 0) + (if b == to then value else 0))
  }

  /** A call without code to run moves the value and nothing else, and returns all its gas. */
  lemma CallPays(db: Store, env: Env, c: Calling)
    requires Calls(db, env, c) && c.request.op == CALL && c.request.depth <= CALL_CREATE_DEPTH
    requires c.request.target !in env.precompiles
    requires c.request.value == 0 || GetBalance(db, c.start, c.request.self) >= c.request.value
    requires Receptive(db, c.start, c.request.self, c.request.target)
    ensures c.answer.status == Success && c.answer.left == c.request.gas && c.answer.ret == []
    ensures Paid(db, c.start, c.request.self, c.request.target, c.request.value, c.answer.end)
    ensures c.answer.end.refund == c.start.refund
  {
    hide GetBalance, GetCode, Same, Receptive, StateCaches.Exist, Begins, CallBegins, Enters, Paid;
    var q, s := c.request, c.start;
    if Absence(db, env, q, s) {
      PaidNothing(db, s, q.self, q.target, c.answer.end);
    } else {
      assert Enters(db, env, q, s, c.course.begun, c.course.run, c.answer);
      Began(db, q, s, c.course.begun);
      NothingRuns(db, env, q, s, c.course.begun, c.course.run, c.answer);
      PaidThen(db, s, q.self, q.target, q.value, c.course.begun, c.answer.end);
    }
  }

  lemma PaidNothing(db: Store, s: State, from: Address, to: Address, t: State)
    requires Same(db, s, t)
    ensures Paid(db, s, from, to, 0, t) && t.refund == s.refund
  {
    hide GetBalance, Known, GetCode, HasSuicided, Same;
    AsBeforeBySame(db, s, t, to);
    SameIsSeen(db, s, t);
  }

  lemma PaidThen(db: Store, s: State, from: Address, to: Address, value: nat, t: State, u: State)
    requires Paid(db, s, from, to, value, t) && Same(db, t, u)
    ensures Paid(db, s, from, to, value, u) && u.refund == t.refund
  {
    hide GetBalance, Known, GetCode, HasSuicided, Same;
    AsBeforeBySame(db, t, u, to);
    SameIsSeen(db, t, u);
  }

  lemma Began(db: Store, q: Request, s: State, begun: State)
    requires q.op == CALL && Begins(db, q, s, begun) && Receptive(db, s, q.self, q.target)
    ensures Paid(db, s, q.self, q.target, q.value, begun) && GetCode(db, begun, q.target) == []
    ensures begun.refund == s.refund
  {
    hide GetBalance, GetCode, Same, Receptive, StateCaches.Exist, CallBegins;
    var created :| CallBegins(db, s, q.self, q.target, q.value, created, begun);
    BeganWith(db, s, q.self, q.target, q.value, created, begun);
  }

  lemma BeganWith(db: Store, s: State, from: Address, to: Address, value: nat, created: bool, begun: State)
    requires CallBegins(db, s, from, to, value, created, begun) && Receptive(db, s, from, to)
    ensures Paid(db, s, from, to, value, begun) && GetCode(db, begun, to) == [] && begun.refund == s.refund
  {
    hide GetBalance, GetCode, Same, Receptive, StateCaches.Exist, Apply, Moved, InRange;
    var t, u :|
      && Same(db, s, t) && Same(db, t, u) && InRange(u.warm) && created == !StateCaches.Exist(db, t, to)
      && begun == Moved(if created then Apply(db, u, CreateAccount(to)) else u, from, to, value);
    Journal.SameTransitive(db, s, t, u);
    AsBeforeBySame(db, s, u, to);
    StillReceptive(db, s, u, from, to);
    var v := if created then Apply(db, u, CreateAccount(to)) else u;
    if created {
      Recreated(db, u, from, to);
    }
    MovedPays(db, u, v, from, to, value);
    PaidFrom(db, s, u, from, to, value, begun);
  }

  /** Making a known account anew keeps every balance, and it still has no code. */
  lemma Recreated(db: Store, s: State, from: Address, to: Address)
    requires InRange(s.warm) && Receptive(db, s, from, to)
    ensures AsBefore(db, s, Apply(db, s, CreateAccount(to)), to)
    ensures Apply(db, s, CreateAccount(to)).refund == s.refund
  {
    hide GetBalance, GetCode, Apply, Known, HasSuicided, CodeAt;
    var op := CreateAccount(to);
    forall b ensures && GetBalance(db, Apply(db, s, op), b) == GetBalance(db, s, b)
                     && Known(db, Apply(db, s, op), b) == Known(db, s, b)
    {
      BalanceAfter(db, s, op, b);
      KnownAfter(db, s, op, b);
    }
    CodeAfter(db, s, op, to);
    SuicidedAfter(db, s, op, to);
    RefundAfter(db, s, op);
  }

  lemma MovedPays(db: Store, s: State, t: State, from: Address, to: Address, value: nat)
    requires Receptive(db, s, from, to) && (t == s || (AsBefore(db, s, t, to) && t.refund == s.refund))
    ensures var u := Moved(t, from, to, value);
            Paid(db, s, from, to, value, u) && GetCode(db, u, to) == [] && u.refund == s.refund
  {
    hide GetBalance, GetCode, Known, HasSuicided, Credit, CodeAt;
    forall b ensures && Known(db, Moved(t, from, to, value), b) == Known(db, s, b)
                     && GetBalance(db, Moved(t, from, to, value), b) ==
                        GetBalance(db, s, b) - (if b == from then value else 0) + (if b == to then value else 0)
    {
      TransferMoves(db, t, from, to, value, b);
    }
    CreditKeeps(db, t, from, 0 - value, to);
    CreditKeeps(db, Credit(t, from, 0 - value), to, value, to);
    CreditRefund(t, from, 0 - value);
    CreditRefund(Credit(t, from, 0 - value), to, value);
  }

  lemma CreditRefund(s: State, a: Address, amount: int)
    ensures Credit(s, a, amount).refund == s.refund
  {
  }

  lemma PaidFrom(db: Store, s: State, t: State, from: Address, to: Address, value: nat, u: State)
    requires Same(db, s, t) && Paid(db, t, from, to, value, u)
    ensures Paid(db, s, from, to, value, u) && t.refund == s.refund
  {
    hide GetBalance, Known, GetCode, HasSuicided, Same;
    AsBeforeBySame(db, s, t, to);
    SameIsSeen(db, s, t);
  }

  lemma NothingRuns(db: Store, env: Env, q: Request, s: State, begun: State, run: Option<Run>, answer: Answer)
    requires Enters(db, env, q, s, begun, run, answer) && q.target !in env.precompiles && q.op == CALL
    requires GetCode(db, begun, q.target) == []
    ensures answer.status == Success && answer.left == q.gas && answer.ret == [] && Same(db, begun, answer.end)
  {
    hide GetCode, Same;
    assert Entering(db, env, q, begun, run.value);
    assert Runs(db, env, run.value);
  }

  /** Neither the access list nor the nonce nor an empty list of authorisations touches a balance. */
  lemma PreparedAsBefore(db: Store, msg: Message, rules: Rules, coinbase: Address, precompiles: seq<Address>, s: State,
                         t: State, a: Address)
    requires Prepares(db, msg, rules, coinbase, precompiles, s, t)
    ensures AsBefore(db, s, t, a) && t.refund == s.refund
  {
    hide Same, WarmFirst, ListedSlots, ContainsAddress, ContainsSlot, AsBefore;
    var u :| Same(db, s, u)
             && Warms(u, t, WarmFirst(msg, rules, coinbase, precompiles), ListedSlots(msg.accessList));
    AsBeforeBySame(db, s, u, a);
    AsBeforeByObjects(db, u, t, a);
    AsBeforeTransitive(db, s, u, t, a);
    SameIsSeen(db, s, u);
  }

  lemma DelegateAsBefore(db: Store, s: State, to: Address, t: State)
    requires WarmsDelegate(db, s, to, t)
    ensures AsBefore(db, s, t, to) && t.refund == s.refund
  {
    hide Same, GetCode, AsBefore, Delegation;
    var target := Delegation(GetCode(db, s, to));
    var u :| Same(db, s, u) && t == match target case None => u case Some(a) => WarmAddress(u, a);
    AsBeforeBySame(db, s, u, to);
    AsBeforeByObjects(db, u, t, to);
    AsBeforeTransitive(db, s, u, t, to);
    SameIsSeen(db, s, u);
  }

  lemma NonceRefund(db: Store, s: State, from: Address, t: State)
    requires RaisesNonce(db, s, from, t)
    ensures t.refund == s.refund
  {
    hide Same, Apply, GetNonce, InRange;
    var op := SetNonce(from, Wrap64(GetNonce(db, s, from) + 1));
    var u :| Same(db, s, u) && InRange(u.warm) && t == Apply(db, u, op);
    SameIsSeen(db, s, u);
    RefundAfter(db, u, op);
  }

  /** Delivering a plain transfer: just the value moves, and all the gas comes back. */
  lemma DeliveryPays(db: Store, env: Env, msg: Message, chainId: nat, depth: nat, gas: nat, s: State, d: Delivery)
    requires Delivers(db, env, msg, chainId, depth, gas, s, d) && msg.to.Some? && msg.authList == []
    requires depth <= CALL_CREATE_DEPTH && msg.to.value !in env.precompiles
    requires msg.value == 0 || GetBalance(db, s, msg.from) >= msg.value
    requires Receptive(db, s, msg.from, msg.to.value)
    ensures AnswerOf(d).status == Success && AnswerOf(d).left == gas && AnswerOf(d).end.refund == s.refund
    ensures Paid(db, s, msg.from, msg.to.value, msg.value, AnswerOf(d).end)
  {
    hide Calls, GetBalance, Receptive, RaisesNonce, WarmsDelegate, AsBefore, Paid;
    var to := msg.to.value;
    AsBeforeByNonce(db, s, msg.from, d.raised, to);
    NonceRefund(db, s, msg.from, d.raised);
    DelegateAsBefore(db, d.raised, to, d.calling.start);
    AsBeforeTransitive(db, s, d.raised, d.calling.start, to);
    StillReceptive(db, s, d.calling.start, msg.from, to);
    BalanceAsBefore(db, s, d.calling.start, to, msg.from);
    CallPays(db, env, d.calling);
    PaidLikewise(db, s, d.calling.start, msg.from, to, msg.value, d.calling.answer.end);
  }

  lemma BalanceAsBefore(db: Store, s: State, t: State, a: Address, b: Address)
    requires AsBefore(db, s, t, a)
    ensures GetBalance(db, t, b) == GetBalance(db, s, b)
  {
    hide GetBalance;
  }

  lemma PaidLikewise(db: Store, s: State, t: State, from: Address, to: Address, value: nat, u: State)
    requires AsBefore(db, s, t, to) && Paid(db, t, from, to, value, u)
    ensures Paid(db, s, from, to, value, u)
  {
    hide GetBalance, GetCode, HasSuicided, Known;
  }

  /** The purchase shows in the sender's balance alone. */
  lemma BoughtMeans(db: Store, s: State, msg: Message, b: Address)
    requires InRange(s.warm)
    ensures var t := Bought(db, s, msg);
            && Known(db, t, b) == Known(db, s, b) && GetCode(db, t, b) == GetCode(db, s, b)
            && HasSuicided(t, b) == HasSuicided(s, b)
            && GetBalance(db, t, b) == GetBalance(db, s, b)
               - if b == msg.from && Known(db, s, b) then msg.gasLimit * msg.prices.gasPrice else 0
  {
    hide GetBalance, Known, GetCode, HasSuicided, Same, Credit, LoadAccount;
    var u := Put(s, msg.from, LoadAccount(db, msg.from, Get(s, msg.from)).0);
    var cost := msg.gasLimit * msg.prices.gasPrice;
    Journal.ReadSame(db, s, ReadAccount(msg.from));
    AsBeforeBySame(db, s, u, b);
    CreditMeans(db, u, msg.from, 0 - cost, b);
    CreditKeeps(db, u, msg.from, 0 - cost, b);
  }

  /** Unused gas and tip show in the balances of sender and coinbase alone. */
  lemma PaidOutMeans(db: Store, s: State, from: Address, rest: int, coinbase: Address, tip: int, b: Address)
    ensures GetBalance(db, PaidOut(s, from, rest, coinbase, tip), b) ==
            GetBalance(db, s, b) + (if b == from && Known(db, s, b) then rest else 0)
            + (if b == coinbase && Known(db, s, b) then tip else 0)
  {
    hide GetBalance, Known, Credit;
    CreditMeans(db, s, from, rest, b);
    CreditMeans(db, Credit(s, from, rest), coinbase, tip, b);
  }

  lemma Unused(limit: int, used: int, price: int)
    ensures (limit - used) * price == limit * price - used * price
  {
  }

  /**
   A whole transaction that pays an account without code: the receiver has exactly the value more, the sender that
   much and the price of the gas used less, the coinbase the tip more, and nobody else anything.
   */
  lemma TransactionPays(db: Store, env: Env, msg: Message, rules: Rules, coinbase: Address, precompiles: seq<Address>,
                        chainId: nat, depth: nat, gas: nat, start: State, ready: State, d: Delivery, used: nat,
                        tip: int, end: State, b: Address)
    requires InRange(start.warm) && msg.to.Some? && msg.authList == [] && Receptive(db, start, msg.from, msg.to.value)
    requires msg.value == 0 || GetBalance(db, Bought(db, start, msg), msg.from) >= msg.value
    requires depth <= CALL_CREATE_DEPTH && msg.to.value !in env.precompiles
    requires Prepares(db, msg, rules, coinbase, precompiles, Bought(db, start, msg), ready)
    requires Delivers(db, env, msg, chainId, depth, gas, ready, d)
    requires end == PaidOut(AnswerOf(d).end, msg.from, (msg.gasLimit - used) * msg.prices.gasPrice, coinbase,
                            used * tip)
    ensures AnswerOf(d).status == Success && AnswerOf(d).left == gas
    ensures GetBalance(db, end, b) ==
            GetBalance(db, start, b) + (if b == msg.to.value then msg.value else 0)
            - (if b == msg.from then msg.value + used * msg.prices.gasPrice else 0)
            + (if b == coinbase && Known(db, start, b) then used * tip else 0)
  {
    hide GetBalance, Known, GetCode, HasSuicided, Prepares, Delivers, Bought, PaidOut, CodeAt;
    var bought, to := Bought(db, start, msg), msg.to.value;
    BoughtMeans(db, start, msg, msg.from);
    BoughtMeans(db, start, msg, to);
    BoughtMeans(db, start, msg, b);
    PreparedAsBefore(db, msg, rules, coinbase, precompiles, bought, ready, to);
    StillReceptive(db, bought, ready, msg.from, to);
    DeliveryPays(db, env, msg, chainId, depth, gas, ready, d);
    PaidOutMeans(db, AnswerOf(d).end, msg.from, (msg.gasLimit - used) * msg.prices.gasPrice, coinbase, used * tip, b);
    Unused(msg.gasLimit, used, msg.prices.gasPrice);
  }
}
