/**
 A whole transaction on the interpreter: the purchase of gas, the access list, nonce and authorisations, the
 outermost call or creation, and the settlement. The interpreter has the instruction set of Osaka, so Berlin's
 access lists are always in force; the fee rules are those of any fork.
 */
module Transaction {
  import opened Common
  import opened AccessLists
  import opened Accrual
  import opened CodeHashes
  import opened Effects
  import opened Deliveries
  import opened Evm
  import opened Fees
  import opened Semantics
  import opened Solvency
  import opened StateSpec
  import opened Balances
  import Journal
  import Opcodes
  import Refund
  import StateCaches
  import StateDB

  /** What an authorisation costs. */
  const AUTH_GAS := 25000

  /** The refund of an authorisation is paid for by its charge. */
  lemma AuthAccrues(db: Store, s: State, gas: nat)
    ensures Accrues(db, s, gas + AUTH_GAS, Change(s, AUTH_REFUND), gas)
  {
    hide Refund.Cleared;
    Refund.SameObjectsCleared(db, s, Change(s, AUTH_REFUND));
  }

  // ---------------------------------------------------------------- code too short to be a designator

  /** The code is there and too short to be compared with the prefix of a designator, which panics. */
  predicate TooShort(code: seq<byte>) {
    0 < |code| < 3
  }

  /** No code has become too short. */
  ghost predicate NoShorter(db: Store, s: State, t: State) {
    forall a :: TooShort(GetCode(db, t, a)) ==> TooShort(GetCode(db, s, a))
  }

  lemma NoShorterTransitive(db: Store, s: State, t: State, u: State)
    requires NoShorter(db, s, t) && NoShorter(db, t, u)
    ensures NoShorter(db, s, u)
  {
    hide GetCode;
  }

  lemma NoShorterBySame(db: Store, s: State, t: State)
    requires Same(db, s, t)
    ensures NoShorter(db, s, t)
  {
    hide GetCode, Same;
    SameIsSeen(db, s, t);
  }

  lemma NoShorterByCode(db: Store, s: State, t: State)
    requires forall a :: SameCode(s, t, a)
    ensures NoShorter(db, s, t)
  {
    forall a ensures GetCode(db, t, a) == GetCode(db, s, a) {
      assert SameCode(s, t, a);
    }
  }

  lemma NoShorterByOp(db: Store, s: State, op: Op)
    requires InRange(s.warm) && (TouchesNoObject(op) || op.SetNonce? || (op.SetCode? && !TooShort(op.bytes)))
    ensures NoShorter(db, s, Apply(db, s, op))
  {
    hide NoShorter, SameCode;
    var t := Apply(db, s, op);
    if op.SetCode? {
      NoShorterBySetCode(db, s, op.a, op.bytes);
    } else {
      forall a ensures SameCode(s, t, a) {
        if op.SetNonce? {
          CodeSpared(db, s, op, a);
        } else {
          ObjectsStay(db, s, op);
          SameObjectSameCode(s, t, a);
        }
      }
      NoShorterByCode(db, s, t);
    }
  }

  lemma SameObjectSameCode(s: State, t: State, a: Address)
    requires t.objects == s.objects
    ensures SameCode(s, t, a)
  {
  }

  lemma NoShorterBySetCode(db: Store, s: State, a: Address, code: seq<byte>)
    requires InRange(s.warm) && !TooShort(code)
    ensures NoShorter(db, s, Apply(db, s, SetCode(a, code)))
  {
    hide AccountOf;
    var t := Apply(db, s, SetCode(a, code));
    forall b | b != a ensures GetCode(db, t, b) == GetCode(db, s, b) {
      assert Get(t, b) == Get(s, b);
    }
  }

  lemma NoShorterByPurchase(db: Store, s: State, msg: Message)
    requires InRange(s.warm)
    ensures NoShorter(db, s, Bought(db, s, msg))
  {
    hide NoShorter, LoadAccount, Same, SameCode;
    var t := Put(s, msg.from, LoadAccount(db, msg.from, Get(s, msg.from)).0);
    Journal.ReadSame(db, s, ReadAccount(msg.from));
    NoShorterBySame(db, s, t);
    forall a ensures SameCode(t, Bought(db, s, msg), a) {
      CreditSparesCode(t, msg.from, 0 - msg.gasLimit * msg.prices.gasPrice, a);
    }
    NoShorterByCode(db, t, Bought(db, s, msg));
    NoShorterTransitive(db, s, t, Bought(db, s, msg));
  }

  /** What the purchase leaves alone. */
  lemma PurchaseKeeps(db: Store, s: State, msg: Message)
    requires Valid(s.warm) && InRange(s.warm)
    ensures Idle(db, s, Bought(db, s, msg)) && FitKept(db, s, Bought(db, s, msg)) && Bought(db, s, msg).warm == s.warm
  {
    hide Idle, AllFit, LoadAccount, Credit, Same, Orderly;
    var t := Put(s, msg.from, LoadAccount(db, msg.from, Get(s, msg.from)).0);
    var amount := 0 - msg.gasLimit * msg.prices.gasPrice;
    Journal.ReadSame(db, s, ReadAccount(msg.from));
    IdleBySame(db, s, t);
    OrderlyBySame(db, s, t);
    IdleByOp(db, t, AddBalance(msg.from, amount));
    IdleTransitive(db, s, t, Bought(db, s, msg));
    OrderlyCredit(db, t, msg.from, amount);
    OrderlyTransitive(db, s, t, Bought(db, s, msg));
    OrderlyFits(db, s, Bought(db, s, msg));
    CreditWarm(t, msg.from, amount);
  }

  lemma OrderlyFits(db: Store, s: State, t: State)
    requires Orderly(db, s, t)
    ensures FitKept(db, s, t)
  {
    hide AllFit;
  }

  lemma WarmingKeepsNonce(db: Store, s: State, t: State, a: Address)
    requires t.objects == s.objects
    ensures GetNonce(db, t, a) == GetNonce(db, s, a)
  {
  }

  lemma IsDelegated(db: Store, s: State, u: State, auth: Authorization, exist: bool, t: State)
    requires Same(db, s, u) && InRange(u.warm) && auth.authority.Some?
    requires exist == StateCaches.Exist(db, s, auth.authority.value)
    requires t == Delegated(db, u, auth.authority.value, auth, exist)
    ensures Delegates(db, s, auth, t)
  {
    hide Same, StateCaches.Exist, Delegated, InRange;
  }

  class StateTransition {
    const vm: Interpreter
    const msg: Message
    const rules: Rules
    const baseFee: Option<nat>
    const noBaseFee: bool
    const coinbase: Address
    const chainId: nat
    const precompiles: seq<Address>
    const gp: GasPool
    ghost const gasPrice: Option<nat> // the fees as they were asked for
    ghost const maxFee: Option<nat>
    ghost const maxTip: Option<nat>
    var gas: uint64
    var initialGas: uint64

    constructor (vm: Interpreter, msg: Message, rules: Rules, baseFee: Option<nat>, noBaseFee: bool, coinbase: Address,
                 chainId: nat, precompiles: seq<Address>, gp: GasPool, ghost gasPrice: Option<nat>,
                 ghost maxFee: Option<nat>, ghost maxTip: Option<nat>)
      ensures this.vm == vm && this.msg == msg && this.rules == rules && this.baseFee == baseFee
      ensures this.noBaseFee == noBaseFee && this.coinbase == coinbase && this.chainId == chainId
      ensures this.precompiles == precompiles && this.gp == gp && gas == 0 && initialGas == 0
      ensures this.gasPrice == gasPrice && this.maxFee == maxFee && this.maxTip == maxTip
    {
      this.vm, this.msg, this.rules, this.baseFee, this.noBaseFee := vm, msg, rules, baseFee, noBaseFee;
      this.coinbase, this.chainId, this.precompiles, this.gp := coinbase, chainId, precompiles, gp;
      this.gasPrice, this.maxFee, this.maxTip := gasPrice, maxFee, maxTip;
      gas, initialGas := 0, 0;
    }

    // -------------------------------------------------------------- before the execution

    /** The nonce must be that of the sender, where it is looked at. */
    method CheckNonce() returns (err: Option<Failure>)
      requires vm.Sound()
      modifies vm.sdb`objects
      ensures vm.Read(old(vm.sdb.Contents()))
      ensures err == NonceObjection(vm.sdb.db, old(vm.sdb.Contents()), msg)
    {
      hide Path, AllFit, Idle, Quiet, Valid, Consistent, Same, GetNonce;
      err := None;
      if msg.nonce.Some? {
        var nonce := vm.NonceOf(msg.from);
        if nonce < msg.nonce.value {
          err := Some(NonceTooHigh);
        } else if nonce > msg.nonce.value {
          err := Some(NonceTooLow);
        }
      } else {
        Journal.SameReflexive(vm.sdb.db, vm.sdb.Contents());
        vm.IsRead(vm.sdb.Contents());
      }
    }

    /** buyGas: the sender must cover the fee cap but pays the gas price. */
    method BuyGas() returns (err: Option<Failure>)
      requires gas == 0 && vm.Sound()
      modifies this, gp, vm.sdb, vm.sdb.accessList
      ensures var s := old(vm.sdb.Contents());
              && err == (if GetBalance(vm.sdb.db, s, msg.from) < msg.gasLimit * msg.prices.feeCap
                         then Some(InsufficientFunds)
                         else if old(gp.gas) < msg.gasLimit then Some(PoolExhausted)
                         else None)
              && (err.None? ==> vm.sdb.Contents() == Bought(vm.sdb.db, s, msg) && vm.Sound())
      ensures err.Some? ==> gp.gas == old(gp.gas)
      ensures err.None? ==> gas == initialGas == msg.gasLimit && gp.gas == old(gp.gas) - msg.gasLimit
    {
      hide Valid, Consistent, GetBalance, LoadAccount, Shift, Same;
      ghost var s := vm.sdb.Contents();
      Journal.ValidRange(s.warm);
      PurchaseKeeps(vm.sdb.db, s, msg);
      var have := vm.sdb.Balance(msg.from);
      if have < msg.gasLimit * msg.prices.feeCap {
        return Some(InsufficientFunds);
      }
      var ok := gp.SubGas(msg.gasLimit);
      if !ok {
        return Some(PoolExhausted);
      }
      gas, initialGas := msg.gasLimit, msg.gasLimit;
      vm.sdb.Do(SubBalance(msg.from, msg.gasLimit * msg.prices.gasPrice));
      return None;
    }

    /** The intrinsic charge and the floor; both are checked against the gas limit. */
    method PayIntrinsic() returns (err: Option<Failure>, floor: uint64)
      requires gas == msg.gasLimit && |msg.data| < TWO_63
      modifies `gas
      ensures err.None? ==> floor <= msg.gasLimit && floor == if rules.prague then Floor(msg.data) else 0
      ensures err.None? ==> gas == msg.gasLimit - Intrinsic(msg, rules)
      ensures err == Verdict(msg, rules)
    {
      hide DataGas, ListGas, Floor;
      floor := 0;
      var keys := Keys(msg.accessList);
      var intrinsic := IntrinsicGas(msg.data, |msg.accessList|, keys, |msg.authList|, msg.to.None?, rules);
      if intrinsic.None? {
        return Some(IntrinsicOverflow), 0;
      }
      if gas < intrinsic.value {
        return Some(IntrinsicTooHigh), 0;
      }
      if rules.prague {
        var f := FloorDataGas(msg.data);
        if f.None? {
          return Some(IntrinsicOverflow), 0;
        }
        if msg.gasLimit < f.value {
          return Some(FloorTooHigh), 0;
        }
        floor := f.value;
      }
      gas := gas - intrinsic.value;
      return None, floor;
    }

    /** An address becomes warm, and what was warm stays so. */
    method WarmUp(a: Address)
      requires vm.Sound()
      modifies vm.sdb, vm.sdb.accessList
      ensures vm.Went(old(vm.sdb.Contents()), false) && vm.Idled(old(vm.sdb.Contents()))
      ensures ContainsAddress(vm.sdb.Contents().warm, a) && Warms(old(vm.sdb.Contents()), vm.sdb.Contents(), {a}, {})
      ensures vm.sdb.Contents() == WarmAddress(old(vm.sdb.Contents()), a)
      ensures NoShorter(vm.sdb.db, old(vm.sdb.Contents()), vm.sdb.Contents())
    {
      hide Path, AllFit, Idle, Quiet, Valid, Consistent, NoShorter, Warms;
      vm.Do(AddAddressToAccessList(a));
      WarmsByOp(vm.sdb.db, old(vm.sdb.Contents()), AddAddressToAccessList(a));
      NoShorterByOp(vm.sdb.db, old(vm.sdb.Contents()), AddAddressToAccessList(a));
    }

    /** The slots of one entry of the access list. */
    method WarmSlots(a: Address, keys: seq<Hash>)
      requires vm.Sound()
      modifies vm.sdb, vm.sdb.accessList
      ensures vm.Went(old(vm.sdb.Contents()), false) && vm.Idled(old(vm.sdb.Contents()))
      ensures Warms(old(vm.sdb.Contents()), vm.sdb.Contents(), if keys == [] then {} else {a}, SlotsOf(a, keys))
      ensures NoShorter(vm.sdb.db, old(vm.sdb.Contents()), vm.sdb.Contents())
    {
      hide Path, AllFit, Idle, Quiet, Valid, Consistent, Apply, NoShorter, Warms;
      ghost var s := vm.sdb.Contents();
      PathNowhere(vm.sdb.db, s);
      Journal.SameReflexive(vm.sdb.db, s);
      NoShorterBySame(vm.sdb.db, s, s);
      WarmsNothing(s);
      for i := 0 to |keys|
        invariant vm.Went(s, false) && vm.Idled(s) && NoShorter(vm.sdb.db, s, vm.sdb.Contents())
        invariant Warms(s, vm.sdb.Contents(), if i == 0 then {} else {a}, SlotsOf(a, keys[..i]))
      {
        ghost var t := vm.sdb.Contents();
        vm.Do(AddSlotToAccessList(a, keys[i]));
        NoShorterByOp(vm.sdb.db, t, AddSlotToAccessList(a, keys[i]));
        vm.WentOn(s, t, false);
        NoShorterTransitive(vm.sdb.db, s, t, vm.sdb.Contents());
        WarmsByOp(vm.sdb.db, t, AddSlotToAccessList(a, keys[i]));
        WarmsOn(s, t, vm.sdb.Contents(), if i == 0 then {} else {a}, SlotsOf(a, keys[..i]), {a}, {(a, keys[i])});
        assert (if i == 0 then {} else {a}) + {a} == {a};
        assert keys[..i + 1][..i] == keys[..i];
      }
      assert keys[..|keys|] == keys;
    }

    /** PrepareAccessList: sender and receiver, precompiles, what the message lists, and the coinbase. */
    method PrepareAccessList()
      requires vm.Sound()
      modifies vm.sdb, vm.sdb.accessList
      ensures vm.Went(old(vm.sdb.Contents()), false) && vm.Idled(old(vm.sdb.Contents()))
      ensures ContainsAddress(vm.sdb.Contents().warm, msg.from)
      ensures msg.to.Some? ==> ContainsAddress(vm.sdb.Contents().warm, msg.to.value)
      ensures Warms(old(vm.sdb.Contents()), vm.sdb.Contents(), WarmFirst(msg, rules, coinbase, precompiles),
                    ListedSlots(msg.accessList))
      ensures NoShorter(vm.sdb.db, old(vm.sdb.Contents()), vm.sdb.Contents())
    {
      hide Path, AllFit, Idle, Quiet, Valid, Consistent, ContainsAddress, NoShorter, Warms, WarmAddress,
           ListedAddresses, ListedPrecompiles, ListedSlots;
      ghost var s := vm.sdb.Contents();
      WarmUp(msg.from);
      ghost var addresses := {msg.from};
      if msg.to.Some? {
        ghost var t := vm.sdb.Contents();
        WarmUp(msg.to.value);
        Further(s, t, addresses, {}, {msg.to.value}, {}, addresses + {msg.to.value}, {});
        vm.StaysWarm(t, msg.from);
        addresses := addresses + {msg.to.value};
      }
      ghost var t := vm.sdb.Contents();
      WarmPrecompiles();
      Further(s, t, addresses, {}, ListedPrecompiles(precompiles), {}, addresses + ListedPrecompiles(precompiles), {});
      Stay(t);
      addresses, t := addresses + ListedPrecompiles(precompiles), vm.sdb.Contents();
      WarmListed();
      Further(s, t, addresses, {}, ListedAddresses(msg.accessList), ListedSlots(msg.accessList),
              addresses + ListedAddresses(msg.accessList), ListedSlots(msg.accessList));
      Stay(t);
      addresses := addresses + ListedAddresses(msg.accessList);
      if rules.shanghai {
        t := vm.sdb.Contents();
        WarmUp(coinbase);
        Further(s, t, addresses, ListedSlots(msg.accessList), {coinbase}, {}, addresses + {coinbase},
                ListedSlots(msg.accessList));
        Stay(t);
        addresses := addresses + {coinbase};
      }
      assert addresses == WarmFirst(msg, rules, coinbase, precompiles);
    }

    /** One step further with the access list. */
    lemma Further(s: State, t: State, a: set<Address>, k: set<(Address, Hash)>, b: set<Address>,
                  l: set<(Address, Hash)>, c: set<Address>, m: set<(Address, Hash)>)
      requires Consistent(vm.sdb.db) && c == a + b && m == k + l
      requires Path(vm.sdb.db, s, t) && Path(vm.sdb.db, t, vm.sdb.Contents())
      requires Idle(vm.sdb.db, s, t) && Idle(vm.sdb.db, t, vm.sdb.Contents())
      requires NoShorter(vm.sdb.db, s, t) && NoShorter(vm.sdb.db, t, vm.sdb.Contents())
      requires Warms(s, t, a, k) && Warms(t, vm.sdb.Contents(), b, l)
      ensures vm.Went(s, false) && vm.Idled(s) && NoShorter(vm.sdb.db, s, vm.sdb.Contents())
      ensures Warms(s, vm.sdb.Contents(), c, m)
    {
      hide Path, AllFit, Idle, Quiet, Valid, Consistent, NoShorter, Warms;
      vm.WentOn(s, t, false);
      NoShorterTransitive(vm.sdb.db, s, t, vm.sdb.Contents());
      WarmsOn(s, t, vm.sdb.Contents(), a, k, b, l);
    }

    lemma Stay(t: State)
      requires Path(vm.sdb.db, t, vm.sdb.Contents())
      ensures ContainsAddress(t.warm, msg.from) ==> ContainsAddress(vm.sdb.Contents().warm, msg.from)
      ensures msg.to.Some? && ContainsAddress(t.warm, msg.to.value) ==>
                ContainsAddress(vm.sdb.Contents().warm, msg.to.value)
    {
      hide Path, ContainsAddress;
      if ContainsAddress(t.warm, msg.from) {
        vm.StaysWarm(t, msg.from);
      }
      if msg.to.Some? && ContainsAddress(t.warm, msg.to.value) {
        vm.StaysWarm(t, msg.to.value);
      }
    }

    method WarmPrecompiles()
      requires vm.Sound()
      modifies vm.sdb, vm.sdb.accessList
      ensures vm.Went(old(vm.sdb.Contents()), false) && vm.Idled(old(vm.sdb.Contents()))
      ensures Warms(old(vm.sdb.Contents()), vm.sdb.Contents(), ListedPrecompiles(precompiles), {})
      ensures NoShorter(vm.sdb.db, old(vm.sdb.Contents()), vm.sdb.Contents())
    {
      hide Path, AllFit, Idle, Quiet, Valid, Consistent, NoShorter, Warms, WarmAddress;
      ghost var s := vm.sdb.Contents();
      PathNowhere(vm.sdb.db, s);
      Journal.SameReflexive(vm.sdb.db, s);
      NoShorterBySame(vm.sdb.db, s, s);
      WarmsNothing(s);
      for i := 0 to |precompiles|
        invariant vm.Went(s, false) && vm.Idled(s) && NoShorter(vm.sdb.db, s, vm.sdb.Contents())
        invariant Warms(s, vm.sdb.Contents(), ListedPrecompiles(precompiles[..i]), {})
      {
        ghost var t := vm.sdb.Contents();
        WarmUp(precompiles[i]);
        assert precompiles[..i + 1][..i] == precompiles[..i];
        Further(s, t, ListedPrecompiles(precompiles[..i]), {}, {precompiles[i]}, {},
                ListedPrecompiles(precompiles[..i + 1]), {});
      }
      assert precompiles[..|precompiles|] == precompiles;
    }

    method WarmListed()
      requires vm.Sound()
      modifies vm.sdb, vm.sdb.accessList
      ensures vm.Went(old(vm.sdb.Contents()), false) && vm.Idled(old(vm.sdb.Contents()))
      ensures Warms(old(vm.sdb.Contents()), vm.sdb.Contents(), ListedAddresses(msg.accessList),
                    ListedSlots(msg.accessList))
      ensures NoShorter(vm.sdb.db, old(vm.sdb.Contents()), vm.sdb.Contents())
    {
      hide Path, AllFit, Idle, Quiet, Valid, Consistent, NoShorter, Warms, WarmAddress, SlotsOf;
      ghost var s, list := vm.sdb.Contents(), msg.accessList;
      PathNowhere(vm.sdb.db, s);
      Journal.SameReflexive(vm.sdb.db, s);
      NoShorterBySame(vm.sdb.db, s, s);
      WarmsNothing(s);
      for i := 0 to |msg.accessList|
        invariant vm.Went(s, false) && vm.Idled(s) && NoShorter(vm.sdb.db, s, vm.sdb.Contents())
        invariant Warms(s, vm.sdb.Contents(), ListedAddresses(list[..i]), ListedSlots(list[..i]))
      {
        ghost var t := vm.sdb.Contents();
        WarmEntry(msg.accessList[i]);
        assert list[..i + 1][..i] == list[..i];
        Further(s, t, ListedAddresses(list[..i]), ListedSlots(list[..i]), {list[i].address},
                SlotsOf(list[i].address, list[i].keys), ListedAddresses(list[..i + 1]), ListedSlots(list[..i + 1]));
      }
      assert list[..|list|] == list;
    }

    /** An address of the list and its slots. */
    method WarmEntry(entry: Access)
      requires vm.Sound()
      modifies vm.sdb, vm.sdb.accessList
      ensures vm.Went(old(vm.sdb.Contents()), false) && vm.Idled(old(vm.sdb.Contents()))
      ensures Warms(old(vm.sdb.Contents()), vm.sdb.Contents(), {entry.address}, SlotsOf(entry.address, entry.keys))
      ensures NoShorter(vm.sdb.db, old(vm.sdb.Contents()), vm.sdb.Contents())
    {
      hide Path, AllFit, Idle, Quiet, Valid, Consistent, NoShorter, Warms, WarmAddress, SlotsOf;
      ghost var s := vm.sdb.Contents();
      WarmUp(entry.address);
      ghost var t, more := vm.sdb.Contents(), if entry.keys == [] then {} else {entry.address};
      WarmSlots(entry.address, entry.keys);
      Further(s, t, {entry.address}, {}, more, SlotsOf(entry.address, entry.keys), {entry.address},
              SlotsOf(entry.address, entry.keys));
    }

    // -------------------------------------------------------------- the execution

    /** The sender's nonce goes up. */
    method NextNonce()
      requires vm.Sound()
      modifies vm.sdb, vm.sdb.accessList
      ensures vm.Went(old(vm.sdb.Contents()), false) && vm.Idled(old(vm.sdb.Contents()))
      ensures RaisesNonce(vm.sdb.db, old(vm.sdb.Contents()), msg.from, vm.sdb.Contents())
      ensures NoShorter(vm.sdb.db, old(vm.sdb.Contents()), vm.sdb.Contents())
    {
      hide Path, AllFit, Idle, Quiet, Valid, Consistent, Same, GetNonce, NoShorter;
      ghost var s := vm.sdb.Contents();
      var nonce := vm.NonceOf(msg.from);
      ghost var t := vm.sdb.Contents();
      Journal.ValidRange(t.warm);
      vm.Do(SetNonce(msg.from, Wrap64((nonce as int) + 1)));
      vm.WentOn(s, t, false);
      NoShorterBySame(vm.sdb.db, s, t);
      NoShorterByOp(vm.sdb.db, t, SetNonce(msg.from, Wrap64((nonce as int) + 1)));
      NoShorterTransitive(vm.sdb.db, s, t, vm.sdb.Contents());
    }

    /** An authority whose code is too short. */
    ghost predicate ShortAuthority(s: State) {
      exists i :: 0 <= i < |msg.authList| && msg.authList[i].authority.Some?
                  && TooShort(GetCode(vm.sdb.db, s, msg.authList[i].authority.value))
    }

    /** applyAuthorization: an invalid one is skipped; `gas` is what is left behind its charge. */
    method ApplyAuthorization(auth: Authorization, ghost gas: nat) returns (panics: bool)
      requires vm.Sound()
      modifies vm.sdb, vm.sdb.accessList
      ensures vm.Went(old(vm.sdb.Contents()), false) && vm.Accrued(old(vm.sdb.Contents()), gas + AUTH_GAS, gas)
      ensures panics ==>
                auth.authority.Some? && TooShort(GetCode(vm.sdb.db, old(vm.sdb.Contents()), auth.authority.value))
      ensures !panics ==> Authorises(vm.sdb.db, chainId, old(vm.sdb.Contents()), auth, vm.sdb.Contents())
      ensures NoShorter(vm.sdb.db, old(vm.sdb.Contents()), vm.sdb.Contents())
    {
      hide Path, AllFit, Idle, Quiet, Valid, Consistent, Same, GetCode, GetNonce, Accrues, NoShorter, Inspects,
           Delegates;
      ghost var s := vm.sdb.Contents();
      PathNowhere(vm.sdb.db, s);
      Journal.SameReflexive(vm.sdb.db, s);
      NoShorterBySame(vm.sdb.db, s, s);
      AccruesIdle(vm.sdb.db, s, gas + AUTH_GAS, s, gas);
      if (auth.chainId != 0 && auth.chainId != chainId) || auth.authority.None? {
        return false;
      }
      var authority := auth.authority.value;
      var code, nonce := Inspect(authority);
      ghost var t := vm.sdb.Contents();
      AccruesIdle(vm.sdb.db, s, gas + AUTH_GAS, t, gas);
      if TooShort(code) {
        return true;
      }
      if (code != [] && code[..3] != [0xef, 0x01, 0x00]) || nonce != auth.nonce {
        return false;
      }
      Delegate(authority, auth, gas);
      vm.WentOn(s, t, false);
      NoShorterTransitive(vm.sdb.db, s, t, vm.sdb.Contents());
      AccruesIdle(vm.sdb.db, s, gas + AUTH_GAS, t, gas + AUTH_GAS);
      AccruesTransitive(vm.sdb.db, s, gas + AUTH_GAS, t, gas + AUTH_GAS, vm.sdb.Contents(), gas);
      return false;
    }

    /** The authority is warm, and its code and nonce are looked up. */
    method Inspect(authority: Address) returns (code: seq<byte>, nonce: uint64)
      requires vm.Sound()
      modifies vm.sdb, vm.sdb.accessList
      ensures vm.Went(old(vm.sdb.Contents()), false) && vm.Idled(old(vm.sdb.Contents()))
      ensures code == GetCode(vm.sdb.db, old(vm.sdb.Contents()), authority)
      ensures nonce == GetNonce(vm.sdb.db, old(vm.sdb.Contents()), authority)
      ensures Inspects(vm.sdb.db, old(vm.sdb.Contents()), authority, vm.sdb.Contents())
      ensures NoShorter(vm.sdb.db, old(vm.sdb.Contents()), vm.sdb.Contents())
    {
      hide Path, AllFit, Idle, Quiet, Valid, Consistent, Same, GetCode, LoadCode, ContainsAddress, NoShorter, GetNonce;
      ghost var s := vm.sdb.Contents();
      vm.Do(AddAddressToAccessList(authority));
      ghost var t := vm.sdb.Contents();
      NoShorterByOp(vm.sdb.db, s, AddAddressToAccessList(authority));
      WarmingKeepsCode(vm.sdb.db, s, t, authority);
      ghost var warmed := t;
      code := vm.CodeAt(authority);
      vm.WentOn(s, t, false);
      NoShorterBySame(vm.sdb.db, t, vm.sdb.Contents());
      NoShorterTransitive(vm.sdb.db, s, t, vm.sdb.Contents());
      t := vm.sdb.Contents();
      SameIsSeen(vm.sdb.db, warmed, t);
      WarmingKeepsNonce(vm.sdb.db, s, warmed, authority);
      nonce := vm.NonceOf(authority);
      Journal.SameTransitive(vm.sdb.db, warmed, t, vm.sdb.Contents());
      vm.WentOn(s, t, false);
      NoShorterBySame(vm.sdb.db, t, vm.sdb.Contents());
      NoShorterTransitive(vm.sdb.db, s, t, vm.sdb.Contents());
    }

    /** A valid authorisation: a refund if the authority exists, its new code and its next nonce. */
    method Delegate(authority: Address, auth: Authorization, ghost gas: nat)
      requires vm.Sound() && auth.authority == Some(authority)
      modifies vm.sdb, vm.sdb.accessList
      ensures vm.Went(old(vm.sdb.Contents()), false) && vm.Accrued(old(vm.sdb.Contents()), gas + AUTH_GAS, gas)
      ensures Delegates(vm.sdb.db, old(vm.sdb.Contents()), auth, vm.sdb.Contents())
      ensures NoShorter(vm.sdb.db, old(vm.sdb.Contents()), vm.sdb.Contents())
    {
      hide Path, AllFit, Idle, Quiet, Valid, Consistent, Same, StateCaches.Exist, Accrues, Apply, NoShorter,
           FixedBytes, Delegates;
      ghost var s := vm.sdb.Contents();
      var exist := vm.Exists(authority);
      ghost var t := vm.sdb.Contents();
      Journal.ValidRange(t.warm);
      PathNowhere(vm.sdb.db, t);
      NoShorterBySame(vm.sdb.db, s, t);
      Journal.SameReflexive(vm.sdb.db, t);
      NoShorterBySame(vm.sdb.db, t, t);
      AccruesIdle(vm.sdb.db, t, gas + AUTH_GAS, t, gas);
      if exist {
        Reward();
        AuthAccrues(vm.sdb.db, t, gas);
      }
      vm.WentOn(s, t, false);
      AccruesIdle(vm.sdb.db, s, gas + AUTH_GAS, t, gas + AUTH_GAS);
      AccruesTransitive(vm.sdb.db, s, gas + AUTH_GAS, t, gas + AUTH_GAS, vm.sdb.Contents(), gas);
      NoShorterTransitive(vm.sdb.db, s, t, vm.sdb.Contents());
      ghost var u := vm.sdb.Contents();
      vm.Do(SetCode(authority, Designator(auth.address)));
      NoShorterByOp(vm.sdb.db, u, SetCode(authority, Designator(auth.address)));
      ghost var v := vm.sdb.Contents();
      vm.Do(SetNonce(authority, Wrap64((auth.nonce as int) + 1)));
      NoShorterByOp(vm.sdb.db, v, SetNonce(authority, Wrap64((auth.nonce as int) + 1)));
      NoShorterTransitive(vm.sdb.db, u, v, vm.sdb.Contents());
      NoShorterTransitive(vm.sdb.db, s, u, vm.sdb.Contents());
      vm.WentOn(u, v, false);
      vm.WentOn(s, u, false);
      AccruesIdle(vm.sdb.db, u, gas, vm.sdb.Contents(), gas);
      AccruesTransitive(vm.sdb.db, s, gas + AUTH_GAS, u, gas, vm.sdb.Contents(), gas);
      IsDelegated(vm.sdb.db, s, t, auth, exist, vm.sdb.Contents());
    }

    method Reward()
      requires vm.Sound()
      modifies vm.sdb, vm.sdb.accessList
      ensures vm.Went(old(vm.sdb.Contents()), false)
      ensures vm.sdb.Contents() == Change(old(vm.sdb.Contents()), AUTH_REFUND)
      ensures NoShorter(vm.sdb.db, old(vm.sdb.Contents()), vm.sdb.Contents())
    {
      hide Path, AllFit, Idle, Quiet, Valid, Consistent, NoShorter;
      vm.Do(AddRefund(AUTH_REFUND));
      NoShorterByOp(vm.sdb.db, old(vm.sdb.Contents()), AddRefund(AUTH_REFUND));
    }

    lemma ShortBefore(s: State, t: State, i: nat)
      requires NoShorter(vm.sdb.db, s, t) && i < |msg.authList| && msg.authList[i].authority.Some?
      requires TooShort(GetCode(vm.sdb.db, t, msg.authList[i].authority.value))
      ensures ShortAuthority(s)
    {
      hide GetCode, TooShort;
    }

    lemma ShortEarlier(s: State, t: State)
      requires NoShorter(vm.sdb.db, s, t) && ShortAuthority(t)
      ensures ShortAuthority(s)
    {
      hide GetCode, TooShort, NoShorter;
      var i :| 0 <= i < |msg.authList| && msg.authList[i].authority.Some?
               && TooShort(GetCode(vm.sdb.db, t, msg.authList[i].authority.value));
      ShortBefore(s, t, i);
    }

    /** All authorisations, whose charge was paid with the intrinsic gas. */
    method ApplyAll(ghost gas: nat) returns (panics: bool)
      requires vm.Sound()
      modifies vm.sdb, vm.sdb.accessList
      ensures vm.Went(old(vm.sdb.Contents()), false)
      ensures vm.Accrued(old(vm.sdb.Contents()), gas + AUTH_GAS * |msg.authList|, gas)
      ensures panics ==> ShortAuthority(old(vm.sdb.Contents()))
      ensures !panics ==>
                AuthorisesAll(vm.sdb.db, chainId, old(vm.sdb.Contents()), msg.authList, vm.sdb.Contents())
      ensures NoShorter(vm.sdb.db, old(vm.sdb.Contents()), vm.sdb.Contents())
    {
      hide Path, AllFit, Idle, Quiet, Valid, Consistent, Accrues, NoShorter, Authorises;
      ghost var s, n := vm.sdb.Contents(), |msg.authList|;
      PathNowhere(vm.sdb.db, s);
      Journal.SameReflexive(vm.sdb.db, s);
      NoShorterBySame(vm.sdb.db, s, s);
      AccruesIdle(vm.sdb.db, s, gas + AUTH_GAS * n, s, gas + AUTH_GAS * n);
      panics := false;
      for i := 0 to |msg.authList|
        invariant vm.Went(s, false) && !panics && NoShorter(vm.sdb.db, s, vm.sdb.Contents())
        invariant vm.Accrued(s, gas + AUTH_GAS * n, gas + AUTH_GAS * (n - i))
        invariant AuthorisesAll(vm.sdb.db, chainId, s, msg.authList[..i], vm.sdb.Contents())
      {
        ghost var t, rest: nat := vm.sdb.Contents(), gas + AUTH_GAS * (n - i - 1);
        panics := ApplyAuthorization(msg.authList[i], rest);
        vm.WentOn(s, t, false);
        NoShorterTransitive(vm.sdb.db, s, t, vm.sdb.Contents());
        AccruesTransitive(vm.sdb.db, s, gas + AUTH_GAS * n, t, rest + AUTH_GAS, vm.sdb.Contents(), rest);
        if panics {
          ShortBefore(s, t, i);
          AccruesWithin(vm.sdb.db, s, gas + AUTH_GAS * n, vm.sdb.Contents(), rest, 0, gas + AUTH_GAS * n, gas);
          return;
        }
        assert msg.authList[..i + 1][..i] == msg.authList[..i];
      }
      assert msg.authList[..n] == msg.authList;
    }

    /** What the outermost call or creation came to. */
    ghost predicate Delivered(s: State, gas: nat, ret: seq<byte>, left: nat, status: Status, d: Delivery)
      reads vm, vm.sdb, vm.sdb.accessList
    {
      && Delivers(vm.sdb.db, vm.env, msg, chainId, vm.depth, gas, s, d)
      && AnswerOf(d) == Answer(ret, left, status, vm.sdb.Contents())
    }

    /** Nonce, authorisations and the receiver's delegation, then the outermost call; or the outermost creation. */
    method Execute() returns (ret: seq<byte>, status: Status, ghost d: Delivery)
      requires vm.Sound() && vm.Cached() && !vm.readOnly && ContainsAddress(vm.sdb.Contents().warm, msg.from)
      requires msg.to.Some? ==> ContainsAddress(vm.sdb.Contents().warm, msg.to.value)
      modifies `gas, vm, vm.sdb, vm.sdb.accessList, vm.jumpdests
      ensures vm.Went(old(vm.sdb.Contents()), false) && vm.Steady() && gas <= old(gas)
      ensures !status.Panicked? ==>
                vm.Accrued(old(vm.sdb.Contents()), old(gas) + AUTH_GAS * |msg.authList|, gas)
      ensures status.Panicked? ==> !vm.honest || ShortAuthority(old(vm.sdb.Contents()))
      ensures !status.Panicked? ==> Delivered(old(vm.sdb.Contents()), old(gas), ret, gas, status, d)
    {
      hide Path, AllFit, Idle, Quiet, Valid, Consistent, Accrues, ContainsAddress, Interpreter.Inverse, NoShorter,
           StateTransition.Delivered, RaisesNonce, AuthorisesAll, WarmsDelegate, Interpreter.Trusted;
      ghost var s, more := vm.sdb.Contents(), AUTH_GAS * |msg.authList|;
      if msg.to.None? {
        ret, status, d := Deploy(s, more);
        return;
      }
      NextNonce();
      ghost var t := vm.sdb.Contents();
      ghost var raised := t;
      Stay(s);
      AccruesIdle(vm.sdb.db, s, gas + more, t, gas + more);
      var panics := ApplyAll(gas);
      vm.WentOn(s, t, false);
      Stay(t);
      AccruesTransitive(vm.sdb.db, s, gas + more, t, gas + more, vm.sdb.Contents(), gas);
      if panics {
        ShortEarlier(s, t);
        ret, status := [], Panicked;
        d := *;
        return;
      }
      t := vm.sdb.Contents();
      ghost var authorised := t;
      WarmDelegate(msg.to.value);
      vm.WentOn(s, t, false);
      Stay(t);
      AccruesIdle(vm.sdb.db, t, gas, vm.sdb.Contents(), gas);
      AccruesTransitive(vm.sdb.db, s, gas + more, t, gas, vm.sdb.Contents(), gas);
      vm.StaysTrusted();
      ret, status, d := Enter(s, more, raised, authorised);
    }

    /** The outermost creation. */
    method Deploy(ghost s: State, ghost more: nat) returns (ret: seq<byte>, status: Status, ghost d: Delivery)
      requires vm.Sound() && vm.Cached() && !vm.readOnly && msg.to.None? && s == vm.sdb.Contents()
      modifies `gas, vm, vm.sdb, vm.sdb.accessList, vm.jumpdests
      ensures vm.Went(s, false) && vm.Steady() && gas <= old(gas) && (status.Panicked? ==> !vm.honest)
      ensures !status.Panicked? ==> vm.Accrued(s, old(gas) + more, gas)
      ensures Delivered(s, old(gas), ret, gas, status, d)
    {
      hide Path, AllFit, Idle, Quiet, Valid, Consistent, Accrues, Interpreter.Inverse, Interpreter.Trusted, Creates,
           FairCreating, Same, GetNonce, StateDB.Database.Contents;
      var address, left;
      ghost var k;
      address, ret, left, status, k := vm.Spawn(Opcodes.CREATE, msg.from, 0, msg.data, gas, msg.value);
      if !status.Panicked? {
        AccruesWithin(vm.sdb.db, s, gas, vm.sdb.Contents(), left, 0, gas + more, left);
      }
      gas, d := left, Deployed(k);
    }

    /** The outermost call. */
    method Enter(ghost s: State, ghost more: nat, ghost raised: State, ghost authorised: State)
      returns (ret: seq<byte>, status: Status, ghost d: Delivery)
      requires vm.Went(s, false) && vm.Cached() && !vm.readOnly && msg.to.Some?
      requires ContainsAddress(vm.sdb.Contents().warm, msg.to.value) && vm.Accrued(s, gas + more, gas)
      requires RaisesNonce(vm.sdb.db, s, msg.from, raised)
      requires AuthorisesAll(vm.sdb.db, chainId, raised, msg.authList, authorised)
      requires WarmsDelegate(vm.sdb.db, authorised, msg.to.value, vm.sdb.Contents())
      modifies `gas, vm, vm.sdb, vm.sdb.accessList, vm.jumpdests
      ensures vm.Went(s, false) && vm.Steady() && gas <= old(gas) && (status.Panicked? ==> !vm.honest)
      ensures !status.Panicked? ==> vm.Accrued(s, old(gas) + more, gas)
      ensures Delivered(s, old(gas), ret, gas, status, d)
    {
      hide Path, AllFit, Idle, Quiet, Valid, Consistent, Accrues, ContainsAddress, Interpreter.Inverse, Calls,
           FairCalling, RaisesNonce, AuthorisesAll, WarmsDelegate, StateDB.Database.Contents, Interpreter.Trusted;
      ghost var t := vm.sdb.Contents();
      ghost var q := Request(Opcodes.CALL, msg.from, msg.from, 0, msg.to.value, msg.data, gas, msg.value, false,
                             vm.depth);
      var left;
      ghost var k;
      ret, left, status, k := vm.Call(msg.from, msg.to.value, msg.data, gas, msg.value, q);
      vm.WentOn(s, t, false);
      if !status.Panicked? {
        AccruesTransitive(vm.sdb.db, s, gas + more, t, gas, vm.sdb.Contents(), left);
      }
      gas, d := left, Handed(raised, authorised, k);
    }

    /** The target of the receiver's delegation becomes warm. */
    method WarmDelegate(to: Address)
      requires vm.Sound()
      modifies vm.sdb, vm.sdb.accessList
      ensures vm.Went(old(vm.sdb.Contents()), false) && vm.Idled(old(vm.sdb.Contents()))
      ensures WarmsDelegate(vm.sdb.db, old(vm.sdb.Contents()), to, vm.sdb.Contents())
    {
      hide Path, AllFit, Idle, Quiet, Valid, Consistent, Same, GetCode, LoadCode, ContainsAddress, Warms, Delegation,
           WarmAddress;
      ghost var s := vm.sdb.Contents();
      var code := vm.CodeAt(to);
      var target := Delegation(code);
      if target.Some? {
        ghost var t := vm.sdb.Contents();
        WarmUp(target.value);
        vm.WentOn(s, t, false);
      }
    }

    // -------------------------------------------------------------- the settlement

    /** Refund, floor, the return of unused gas to sender and pool, and the tip. */
    method Settle(floor: uint64) returns (used: uint64)
      requires vm.sdb.Sound() && gas <= initialGas == msg.gasLimit && floor <= msg.gasLimit
      requires (gp.gas as int) + msg.gasLimit < TWO_64
      modifies this, gp, vm.sdb, vm.sdb.accessList
      ensures used <= msg.gasLimit
      ensures used == Charged(msg.gasLimit, old(gas), old(vm.sdb.Contents()).refund, Quotient(rules), floor)
      ensures gp.gas == old(gp.gas) + (msg.gasLimit - used)
      ensures vm.sdb.Contents() ==
              PaidOut(old(vm.sdb.Contents()), msg.from, (msg.gasLimit - used) * msg.prices.gasPrice,
                      coinbase, used * EffectiveTip(msg.prices, rules, baseFee))
    {
      hide Credit, EffectiveTip;
      ghost var s := vm.sdb.Contents();
      var refund: nat := (initialGas - gas) / Quotient(rules);
      if refund > vm.sdb.refund {
        refund := vm.sdb.refund;
      }
      gas := (gas as int) + refund;
      if initialGas - gas < floor {
        gas := initialGas - floor;
      }
      vm.sdb.Do(AddBalance(msg.from, gas * msg.prices.gasPrice));
      CreditWarm(s, msg.from, gas * msg.prices.gasPrice);
      gp.AddGas(gas);
      used := initialGas - gas;
      vm.sdb.Do(AddBalance(coinbase, used * EffectiveTip(msg.prices, rules, baseFee)));
    }

    // -------------------------------------------------------------- the whole

    /** The checks and the purchase; `start` is the state with the sender's nonce looked up. */
    method Check() returns (err: Option<Failure>, floor: uint64, ghost start: State)
      requires gas == 0 && |msg.data| < TWO_63 && vm.Sound()
      modifies this, gp, vm.sdb, vm.sdb.accessList
      ensures err.None? ==>
                && Same(vm.sdb.db, old(vm.sdb.Contents()), start)
                && FeesPass(msg.prices, rules, baseFee, noBaseFee) && Verdict(msg, rules).None?
                && GetBalance(vm.sdb.db, start, msg.from) >= msg.gasLimit * msg.prices.feeCap
                && vm.Sound() && vm.sdb.Contents() == Bought(vm.sdb.db, start, msg)
                && vm.Kept(old(vm.sdb.Contents())) && vm.Idled(old(vm.sdb.Contents()))
                && NoShorter(vm.sdb.db, old(vm.sdb.Contents()), vm.sdb.Contents())
      ensures err.None? ==>
                && floor == (if rules.prague then Floor(msg.data) else 0) && floor <= msg.gasLimit
                && gas == msg.gasLimit - Intrinsic(msg, rules) && initialGas == msg.gasLimit
                && gp.gas == old(gp.gas) - msg.gasLimit
      ensures err.Some? ==> gp.gas == old(gp.gas) || gp.gas == old(gp.gas) - msg.gasLimit
      ensures err == Objection(vm.sdb.db, old(vm.sdb.Contents()), msg, rules, baseFee, noBaseFee, old(gp.gas))
    {
      hide Path, AllFit, Idle, Quiet, Valid, Consistent, Same, GetBalance, Bought, Floor, Intrinsic, Verdict,
           NoShorter, NonceObjection, FeesPass;
      ghost var s := vm.sdb.Contents();
      floor, start := 0, s;
      err := CheckNonce();
      if err.Some? {
        return;
      }
      if !FeesPass(msg.prices, rules, baseFee, noBaseFee) {
        return Some(FeeError), floor, start;
      }
      start := vm.sdb.Contents();
      SameIsSeen(vm.sdb.db, s, start);
      Journal.ValidRange(start.warm);
      PurchaseKeeps(vm.sdb.db, start, msg);
      err := BuyGas();
      if err.Some? {
        return;
      }
      IdleTransitive(vm.sdb.db, s, start, vm.sdb.Contents());
      NoShorterBySame(vm.sdb.db, s, start);
      NoShorterByPurchase(vm.sdb.db, start, msg);
      NoShorterTransitive(vm.sdb.db, s, start, vm.sdb.Contents());
      err, floor := PayIntrinsic();
    }

    /** What may still fail behind the purchase, then the access list. */
    method Prepare() returns (err: Option<Failure>)
      requires vm.Sound()
      modifies vm.sdb, vm.sdb.accessList
      ensures vm.Went(old(vm.sdb.Contents()), false) && vm.Idled(old(vm.sdb.Contents()))
      ensures err.None? ==>
                && ContainsAddress(vm.sdb.Contents().warm, msg.from)
                && (msg.to.Some? ==> ContainsAddress(vm.sdb.Contents().warm, msg.to.value))
      ensures err == LateObjection(vm.sdb.db, old(vm.sdb.Contents()), msg, rules)
      ensures err.None? ==> Prepares(vm.sdb.db, msg, rules, coinbase, precompiles, old(vm.sdb.Contents()),
                                     vm.sdb.Contents())
      ensures NoShorter(vm.sdb.db, old(vm.sdb.Contents()), vm.sdb.Contents())
    {
      hide Path, AllFit, Idle, Quiet, Valid, Consistent, Same, GetBalance, ContainsAddress, NoShorter, Warms, WarmFirst,
           ListedSlots;
      ghost var s := vm.sdb.Contents();
      PathNowhere(vm.sdb.db, s);
      Journal.SameReflexive(vm.sdb.db, s);
      NoShorterBySame(vm.sdb.db, s, s);
      if msg.value > 0 {
        var balance := vm.BalanceOf(msg.from);
        NoShorterBySame(vm.sdb.db, s, vm.sdb.Contents());
        if balance < msg.value {
          return Some(InsufficientFundsForTransfer);
        }
      }
      if rules.shanghai && msg.to.None? && |msg.data| > MAX_INIT_CODE_SIZE {
        return Some(InitCodeTooLarge);
      }
      ghost var t := vm.sdb.Contents();
      PrepareAccessList();
      vm.WentOn(s, t, false);
      NoShorterTransitive(vm.sdb.db, s, t, vm.sdb.Contents());
      return None;
    }

    /** What the request asked for gave these prices. */
    ghost predicate Priced() {
      ToMessage(gasPrice, maxFee, maxTip, baseFee) == Some(msg.prices)
    }

    /** What the transaction is rejected for, if anything. */
    ghost function Objections(s: State, pool: nat): Option<Failure> {
      var early := Objection(vm.sdb.db, s, msg, rules, baseFee, noBaseFee, pool);
      if early.Some? then early else LateObjection(vm.sdb.db, Bought(vm.sdb.db, s, msg), msg, rules)
    }

    /** A plain transfer: to a known account without code, without authorisations. */
    ghost predicate Plain(s: State)
      reads vm
    {
      && msg.to.Some? && msg.authList == [] && vm.depth <= CALL_CREATE_DEPTH && msg.to.value !in vm.env.precompiles
      && Receptive(vm.sdb.db, s, msg.from, msg.to.value)
    }

    /** The receiver has the value, the sender has paid it and the gas, the coinbase has its tip. */
    ghost predicate Transferred(s: State, used: nat)
      requires msg.to.Some?
      reads vm.sdb, vm.sdb.accessList
    {
      var db, tip := vm.sdb.db, EffectiveTip(msg.prices, rules, baseFee);
      forall b :: GetBalance(db, vm.sdb.Contents(), b) ==
                  GetBalance(db, s, b) + (if b == msg.to.value then msg.value else 0)
                  - (if b == msg.from then msg.value + used * msg.prices.gasPrice else 0)
                  + (if b == coinbase && Known(db, s, b) then used * tip else 0)
    }

    /** From the purchase to the end of execution: the access list, then what the message asks for. */
    ghost predicate Happened(start: State, ready: State, d: Delivery, ret: seq<byte>, failed: bool, left: nat,
                             ran: State)
      reads vm
    {
      && msg.gasLimit >= Intrinsic(msg, rules)
      && Prepares(vm.sdb.db, msg, rules, coinbase, precompiles, Bought(vm.sdb.db, start, msg), ready)
      && Delivers(vm.sdb.db, vm.env, msg, chainId, vm.depth, msg.gasLimit - Intrinsic(msg, rules), ready, d)
      && AnswerOf(d) == Answer(ret, left, AnswerOf(d).status, ran) && failed == !AnswerOf(d).status.Success?
      && (msg.value == 0 || GetBalance(vm.sdb.db, Bought(vm.sdb.db, start, msg), msg.from) >= msg.value)
    }

    lemma PlainPays(s: State, start: State, ready: State, d: Delivery, ret: seq<byte>, failed: bool, left: nat,
                    ran: State, used: nat)
      requires Same(vm.sdb.db, s, start) && InRange(start.warm)
      requires Happened(start, ready, d, ret, failed, left, ran) && Plain(s)
      requires vm.sdb.Contents() == PaidOut(ran, msg.from, (msg.gasLimit - used) * msg.prices.gasPrice,
                                            coinbase, used * EffectiveTip(msg.prices, rules, baseFee))
      ensures !failed && left == msg.gasLimit - Intrinsic(msg, rules) && Transferred(s, used)
    {
      hide Same, Prepares, Delivers, Bought, GetBalance, PaidOut, Intrinsic, EffectiveTip, InRange, Receptive, Known;
      var db, to, tip := vm.sdb.db, msg.to.value, EffectiveTip(msg.prices, rules, baseFee);
      AsBeforeBySame(db, s, start, to);
      StillReceptive(db, s, start, msg.from, to);
      forall b ensures GetBalance(db, vm.sdb.Contents(), b) ==
                       GetBalance(db, s, b) + (if b == to then msg.value else 0)
                       - (if b == msg.from then msg.value + used * msg.prices.gasPrice else 0)
                       + (if b == coinbase && Known(db, s, b) then used * tip else 0)
      {
        TransactionPays(db, vm.env, msg, rules, coinbase, precompiles, chainId, vm.depth,
                        msg.gasLimit - Intrinsic(msg, rules), start, ready, d, used, tip, vm.sdb.Contents(), b);
        BalanceAsBefore(db, s, start, to, b);
        SameIsKnown(db, s, start, b);
      }
      TransactionPays(db, vm.env, msg, rules, coinbase, precompiles, chainId, vm.depth,
                      msg.gasLimit - Intrinsic(msg, rules), start, ready, d, used, tip, vm.sdb.Contents(), 0);
    }

    /**
     TransitionDb. The gas used is the floor or what execution took less the capped refund, within the limit, and
     the pool falls by exactly that. `ran` is the state after the execution, which is the delivery of the message from
     the purchase on, on a path that overdraws no account and makes no ether; with unused gas and tip paid out it is
     the final state. A panic needs a code hash that does not fit its code, or an authority with code of one or two
     bytes.
     */
    method TransitionDb()
      returns (r: Result, ghost start: State, ghost ready: State, ghost d: Delivery, ghost ran: State, ghost left: nat)
      requires gas == 0 && |msg.data| < TWO_63 && vm.Sound() && vm.Cached() && !vm.readOnly
      modifies this, gp, vm, vm.sdb, vm.sdb.accessList, vm.jumpdests
      ensures r.Used? ==>
                && Same(vm.sdb.db, old(vm.sdb.Contents()), start)
                && FeesPass(msg.prices, rules, baseFee, noBaseFee) && Verdict(msg, rules).None?
                && GetBalance(vm.sdb.db, start, msg.from) >= msg.gasLimit * msg.prices.feeCap
                && Path(vm.sdb.db, Bought(vm.sdb.db, start, msg), ran)
                && left + Intrinsic(msg, rules) <= msg.gasLimit
      ensures r.Used? ==>
                var floor := if rules.prague then Floor(msg.data) else 0;
                && floor <= r.gas <= msg.gasLimit
                && r.gas == Charged(msg.gasLimit, left, ran.refund, Quotient(rules), floor)
                && gp.gas == old(gp.gas) - r.gas
                && vm.sdb.Contents() == PaidOut(ran, msg.from, (msg.gasLimit - r.gas) * msg.prices.gasPrice,
                                                coinbase, r.gas * EffectiveTip(msg.prices, rules, baseFee))
      ensures r.Used? && DataGas(msg.data, msg.to.None?, rules) + Lists(msg) < TWO_64 ==>
                Accrues(vm.sdb.db, old(vm.sdb.Contents()), msg.gasLimit, ran, left)
      ensures r.Used? && Priced() ==> Burnt(old(vm.sdb.Contents()), ran, r.gas)
      ensures r.Rejected? ==> gp.gas == old(gp.gas) || gp.gas == old(gp.gas) - msg.gasLimit
      ensures var objection := Objections(old(vm.sdb.Contents()), old(gp.gas));
              if objection.Some? then r == Rejected(objection.value) else !r.Rejected?
      ensures r.Crashed? ==> !vm.honest || ShortAuthority(old(vm.sdb.Contents()))
      ensures old(vm.honest) && old(vm.Trusted()) && !r.Rejected? ==> vm.honest
      ensures r.Used? ==> Happened(start, ready, d, r.ret, r.failed, left, ran)
      ensures r.Used? && Plain(old(vm.sdb.Contents())) ==> !r.failed && Transferred(old(vm.sdb.Contents()), r.gas)
    {
      hide Path, AllFit, Idle, Quiet, Valid, Consistent, Same, GetBalance, Bought, Floor, Intrinsic, Verdict, Accrues,
           ContainsAddress, Interpreter.Inverse, EffectiveTip, PaidOut, DataGas, ListGas, NoShorter, Prepares, Delivers,
           StateTransition.Plain, StateTransition.Transferred, StateTransition.Burnt, Receptive, InRange, Objection,
           FeesPass;
      ghost var s := vm.sdb.Contents();
      Journal.ValidRange(s.warm);
      start, ready, ran, left := s, s, s, 0;
      d := *;
      var err, floor;
      err, floor, start := Check();
      if err.Some? {
        return Rejected(err.value), start, ready, d, ran, left;
      }
      ghost var bought := vm.sdb.Contents();
      SameWarmth(vm.sdb.db, s, start);
      ObjectionsSame(vm.sdb.db, s, start, msg, rules);
      err := Prepare();
      if err.Some? {
        return Rejected(err.value), start, ready, d, ran, left;
      }
      ghost var supply := gas;
      ready := vm.sdb.Contents();
      var ret, status;
      ret, status, d := Execute();
      vm.WentOn(bought, ready, false);
      if status.Panicked? {
        NoShorterTransitive(vm.sdb.db, s, bought, ready);
        if vm.honest {
          ShortEarlier(s, ready);
        }
        return Crashed, start, ready, d, ran, left;
      }
      ran, left := vm.sdb.Contents(), gas;
      Paid(s, bought, ready, ran, supply, left);
      Journal.ValidRange(ran.warm);
      var used := Settle(floor);
      if Priced() {
        MakesNoEther(s, start, ran, used);
      }
      r := Used(used, ret, !status.Success?);
      if Plain(s) {
        PlainPays(s, start, ready, d, ret, r.failed, left, ran, used);
      }
    }

    /**
     From a solvent state at least the base fee of the gas used leaves the total, and no account is overdrawn. The one
     exception is a coinbase that a zero-fee call debits.
     */
    ghost predicate Burnt(s: State, ran: State, used: nat)
      reads vm.sdb, vm.sdb.accessList
    {
      var tip := EffectiveTip(msg.prices, rules, baseFee);
      Solvent(vm.sdb.db, s) && (tip >= 0 || Known(vm.sdb.db, ran, coinbase)) ==>
        && (exists involved :: Burns(vm.sdb.db, s, vm.sdb.Contents(), used * Base(rules, baseFee), involved))
        && (tip >= 0 ==> Solvent(vm.sdb.db, vm.sdb.Contents()))
    }

    lemma MakesNoEther(s: State, start: State, ran: State, used: nat)
      requires Priced() && used <= msg.gasLimit && Same(vm.sdb.db, s, start)
      requires GetBalance(vm.sdb.db, start, msg.from) >= msg.gasLimit * msg.prices.feeCap
      requires Path(vm.sdb.db, Bought(vm.sdb.db, start, msg), ran)
      requires vm.sdb.Contents() == PaidOut(ran, msg.from, (msg.gasLimit - used) * msg.prices.gasPrice,
                                            coinbase, used * EffectiveTip(msg.prices, rules, baseFee))
      ensures Burnt(s, ran, used)
    {
      hide Same, GetBalance, Known, PaidOut, Bought, EffectiveTip, ToMessage, Moves, Orderly, Solvent, TotalOf;
      var db, end := vm.sdb.db, vm.sdb.Contents();
      if Solvent(db, s) && (EffectiveTip(msg.prices, rules, baseFee) >= 0 || Known(db, ran, coinbase)) {
        FrugalBySame(db, s, start);
        TransactionsMakeNoEther(db, start, msg, ran, used, coinbase, gasPrice, maxFee, maxTip, rules, baseFee);
        var involved :| Burns(db, start, end, used * Base(rules, baseFee), involved);
        forall accounts: set<Address> | involved <= accounts
          ensures TotalOf(db, end, accounts) <= TotalOf(db, s, accounts) - used * Base(rules, baseFee)
        {
          SameTotal(db, s, start, accounts);
        }
        assert Burns(db, s, end, used * Base(rules, baseFee), involved);
      }
    }

    /** The authorisations were paid for with the intrinsic gas, unless its list part wrapped. */
    lemma Paid(s: State, bought: State, ready: State, ran: State, supply: nat, left: nat)
      requires Idle(vm.sdb.db, s, bought) && Idle(vm.sdb.db, bought, ready)
      requires msg.gasLimit == supply + Intrinsic(msg, rules)
      requires Accrues(vm.sdb.db, ready, supply + AUTH_GAS * |msg.authList|, ran, left)
      ensures DataGas(msg.data, msg.to.None?, rules) + Lists(msg) < TWO_64 ==>
                Accrues(vm.sdb.db, s, msg.gasLimit, ran, left)
    {
      hide Idle, Accrues, NonZero;
      var more := supply + AUTH_GAS * |msg.authList|;
      IdleTransitive(vm.sdb.db, s, bought, ready);
      AccruesIdle(vm.sdb.db, s, more, ready, more);
      AccruesTransitive(vm.sdb.db, s, more, ready, more, ran, left);
      if DataGas(msg.data, msg.to.None?, rules) + Lists(msg) < TWO_64 {
        AccruesWithin(vm.sdb.db, s, more, ran, left, 0, msg.gasLimit, left);
      }
    }
  }
}
