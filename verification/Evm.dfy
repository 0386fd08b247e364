/**
 The interpreter and the call and create operations around it. Gas is the termination measure of the whole
 mutual recursion. What it does is proved against the trees of `Semantics`, which its methods return as ghost values.
 Every frame can be undone to its start, overdraws no account and makes no ether; a failed one is undone, and a
 static one is quiet.
 */
module Evm {
  import opened Common
  import opened AccessLists
  import opened StateSpec
  import opened StateDB
  import opened Effects
  import opened Scopes
  import opened Semantics
  import opened Opcodes
  import opened CallGas
  import Journal
  import Memory
  import Sstore
  import SstoreGas
  import StateCaches
  import opened Accrual
  import opened CodeHashes
  import opened Solvency
  import Balances
  import JumpCache

  /**
   How a call finds its code and the hash of that code: CALL resolves the code first and asks for the hash only of
   code to run, CALLCODE and DELEGATECALL resolve the hash first, STATICCALL does not follow delegations.
   */
  datatype Lookup = CodeFirst | HashFirst | Direct

  /** Exactly when the beginning of a call keeps the total of the balances. */
  lemma CallKeepsTotal(db: StateSpec.Store, s: State, caller: Address, addr: Address, value: nat, created: bool,
                       begun: State, accounts: set<Address>)
    requires CallBegins(db, s, caller, addr, value, created, begun) && caller in accounts && addr in accounts
    requires value == 0 || GetBalance(db, s, caller) >= value
    ensures Balances.TotalOf(db, begun, accounts) == Balances.TotalOf(db, s, accounts)
            <==> && (value == 0 || created || Known(db, s, addr))
                 && !(created && HasSuicided(s, addr) && GetBalance(db, s, addr) != 0)
  {
    hide Same, Moved, Apply, Known, GetBalance, HasSuicided, StateCaches.Exist, Balances.TotalOf, InRange;
    var t, u :|
      && Same(db, s, t) && Same(db, t, u) && InRange(u.warm) && created == !StateCaches.Exist(db, t, addr)
      && begun == Moved(if created then Apply(db, u, CreateAccount(addr)) else u, caller, addr, value);
    Journal.SameTransitive(db, s, t, u);
    Balances.CallTotal(db, s, u, caller, addr, value, created, accounts);
  }

  /** A self-destruct marks an account and moves nothing. */
  lemma DestroyKeepsBalance(db: StateSpec.Store, s: State, a: Address, b: Address)
    requires InRange(s.warm)
    ensures GetBalance(db, Apply(db, s, SelfDestruct6780(a)), b) == GetBalance(db, s, b)
  {
    hide GetBalance, Known, Apply;
    FundsSpared(db, s, SelfDestruct6780(a), b);
    FundsDecide(db, s, Apply(db, s, SelfDestruct6780(a)), b);
  }

  lemma WarmingKeepsCode(db: StateSpec.Store, s: State, t: State, addr: Address)
    requires t.objects == s.objects
    ensures GetCode(db, t, addr) == GetCode(db, s, addr)
  {
  }

  lemma SstorePath(db: StateSpec.Store, s: State, a: Address, k: Hash, xs: seq<int>, t: State)
    requires Valid(s.warm) && InRange(s.warm) && SstoreGas.Settled(db, WarmSlot(s, a, k), xs, t)
    ensures Path(db, s, t)
  {
    hide Journal.Unwinds, Valid, WarmSlot, Same, Frugal, Orderly;
    var u := WarmSlot(s, a, k);
    assert u == Apply(db, s, AddSlotToAccessList(a, k));
    PathByOp(db, s, AddSlotToAccessList(a, k));
    var v := Sstore.ChangeAll(u, xs);
    Sstore.ChangesUnwind(db, u, xs, |s.journal|, s);
    Sstore.ChangesKeepObjects(u, xs);
    FrugalByObjects(db, u, v);
    FrugalTransitive(db, s, u, v);
    OrderlyByObjects(db, u, v);
    OrderlyTransitive(db, s, u, v);
    assert Path(db, s, v);
    PathValid(db, s, v);
    PathBySame(db, v, t);
    PathTransitive(db, s, v, t);
  }

  lemma SstoreCosts(original: Hash, current: Hash, value: Hash)
    ensures Sstore.Cost(Sstore.EIP3529, original, current, value) >= 100
  {
  }

  /** What the price function of an operation has to answer. */
  ghost predicate Billed(db: StateSpec.Store, a: Address, op: byte, c: Config, cost: Option<uint64>, share: nat,
                         t: State) {
    if Affordable(db, a, op, c) then
      && share == Share(op, c.stack, c.gas - Price(db, a, op, c))
      && cost == Some(Price(db, a, op, c) - Table(op).value.gas + share) && Price(db, a, op, c) + share <= c.gas
      && PaysState(db, a, op, c.stack, c.state, t)
    else Enough(op, c.stack) && (cost.Some? ==> cost.value > c.gas - Table(op).value.gas)
  }

  lemma NotBilled(db: StateSpec.Store, a: Address, op: byte, c: Config, cost: Option<uint64>, share: nat, t: State)
    requires Billed(db, a, op, c, cost, share, t) && Enough(op, c.stack)
    requires cost.Some? ==> cost.value > c.gas - Table(op).value.gas
    ensures !Affordable(db, a, op, c)
  {
    hide Affordable, Price, PaysState, AllBut64th;
    if Affordable(db, a, op, c) {
      AffordableMemory(db, a, op, c);
    }
  }

  lemma BilledPays(db: StateSpec.Store, a: Address, op: byte, c: Config, size: nat, cost: Option<uint64>, share: nat,
                   p: Config)
    requires Enough(op, c.stack) && Billed(db, a, op, c, cost, share, p.state)
    requires MemorySize(op, c.stack).Some? && size == Rounded(MemorySize(op, c.stack).value)
    requires cost.Some? && cost.value <= c.gas - Table(op).value.gas
    requires p.gas == c.gas - Table(op).value.gas - cost.value && p.pc == c.pc && p.stack == c.stack
    requires c.memory <= p.memory && |p.memory| == if size > |c.memory| then size else |c.memory|
    requires forall i :: |c.memory| <= i < |p.memory| ==> p.memory[i] == 0
    ensures Affordable(db, a, op, c) && Pays(db, a, op, c, p, share)
  {
    hide Affordable, Price, PaysState, MemorySize;
    AffordableMemory(db, a, op, c);
    var more := if size > |c.memory| then size - |c.memory| else 0;
    assert p.memory == c.memory + seq(more, _ => 0);
  }

  lemma AffordableMemory(db: StateSpec.Store, a: Address, op: byte, c: Config)
    requires Enough(op, c.stack) && Affordable(db, a, op, c)
    ensures MemorySize(op, c.stack).Some? && Price(db, a, op, c) <= c.gas
  {
    hide Price, MemorySize;
  }

  /** The constant charge alone, or memory beyond the limit, is too dear. */
  lemma TooDear(db: StateSpec.Store, a: Address, op: byte, c: Config)
    requires Enough(op, c.stack)
    ensures Affordable(db, a, op, c) ==>
              && Table(op).value.gas <= c.gas && MemorySize(op, c.stack).Some?
              && 32 * Memory.ToWordSize(MemorySize(op, c.stack).value) < TWO_64
  {
    hide Dynamic, MemorySize, Growth;
    if Affordable(db, a, op, c) {
      GrowthRises(|c.memory|, Rounded(MemorySize(op, c.stack).value));
      WordsRounded(MemorySize(op, c.stack).value);
    }
  }

  lemma WordsRounded(size: uint64)
    ensures 32 * Memory.ToWordSize(size) == Rounded(size)
  {
    Memory.WordsOf(size);
  }

  class Interpreter {
    const env: Env
    const sdb: Database
    var depth: nat
    var readOnly: bool
    var callGasTemp: uint64
    var returnData: seq<byte>

    ghost const codeOf: JumpCache.CodeOf
    const jumpdests: JumpCache.Jumpdests
    ghost var honest: bool // so far every frame with a code hash ran the code that belongs to it

    constructor (env: Env, sdb: Database, ghost codeOf: JumpCache.CodeOf)
      ensures this.env == env && this.sdb == sdb && depth == 0 && !readOnly
      ensures this.codeOf == codeOf && honest && Cached() && fresh(jumpdests)
    {
      this.env, this.sdb, depth, readOnly, callGasTemp, returnData := env, sdb, 0, false, 0, [];
      this.codeOf, honest := codeOf, true;
      jumpdests := new JumpCache.Jumpdests();
    }

    ghost predicate Sound()
      reads sdb, sdb.accessList
    {
      Valid(sdb.Contents().warm) && Consistent(sdb.db)
    }

    /** The shared jump analyses are sound, and right as long as every hash belonged to one code. */
    ghost predicate Cached()
      reads `honest, jumpdests
    {
      jumpdests.Valid() && (honest ==> jumpdests.Right(codeOf))
    }

    /** No two codes have one hash: `codeOf` undoes hashing. */
    ghost predicate Inverse() {
      forall code: seq<byte> :: codeOf(sdb.db.keccak(code)) == code
    }

    /** Nothing can go wrong with jumps: hashing is injective, and every account reports a hash that fits its code. */
    ghost predicate Trusted()
      reads sdb, sdb.accessList
    {
      Inverse() && AllFit(sdb.db, sdb.Contents())
    }

    /** A trusted state stays one. */
    twostate lemma StaysTrusted()
      requires Kept(old(sdb.Contents()))
      ensures old(Trusted()) ==> Trusted()
    {
      hide AllFit, Interpreter.Inverse;
    }

    /** What every piece of execution leaves as it found it; from a trusted state this is also `honest`. */
    twostate predicate Steady()
      reads this, jumpdests, sdb, sdb.accessList
    {
      && readOnly == old(readOnly) && depth == old(depth) && Cached()
      && (honest ==> old(honest)) && (old(honest) && old(Trusted()) ==> honest)
    }

    // -------------------------------------------------------------- the state database

    method Do(op: Op)
      requires Sound() && Free(op) && MaySetCode(sdb.db, sdb.Contents(), op)
      modifies sdb, sdb.accessList
      ensures Sound() && InRange(old(sdb.Contents()).warm) && Kept(old(sdb.Contents()))
      ensures Sstore.IsPlain(op) || op.CreateAccount? ==> Idled(old(sdb.Contents()))
      ensures sdb.Contents() == Apply(sdb.db, old(sdb.Contents()), op)
      ensures Path(sdb.db, old(sdb.Contents()), sdb.Contents())
    {
      hide Apply, Valid, Consistent, Path, AllFit, Idle;
      Journal.ValidRange(sdb.Contents().warm);
      sdb.Do(op);
      PathByOp(sdb.db, old(sdb.Contents()), op);
      PathFits(sdb.db, old(sdb.Contents()), sdb.Contents());
      if Sstore.IsPlain(op) || op.CreateAccount? {
        IdleByOp(sdb.db, old(sdb.Contents()), op);
      }
      PathValid(sdb.db, old(sdb.Contents()), sdb.Contents());
    }

    /** A debit and a credit, which a solvent state must cover. */
    method Pay(from: Address, to: Address, amount: int)
      requires Sound()
      requires Solvent(sdb.db, sdb.Contents()) ==>
                 0 <= amount && (amount == 0 || from == to || GetBalance(sdb.db, sdb.Contents(), from) >= amount)
      modifies sdb, sdb.accessList
      ensures Sound() && InRange(old(sdb.Contents()).warm)
      ensures sdb.Contents() == Moved(old(sdb.Contents()), from, to, amount)
      ensures Path(sdb.db, old(sdb.Contents()), sdb.Contents())
      ensures Kept(old(sdb.Contents())) && Idled(old(sdb.Contents()))
    {
      hide Valid, Consistent, Path, AllFit, Idle, Solvent, GetBalance;
      ghost var s := sdb.Contents();
      Journal.ValidRange(s.warm);
      PathByTransfer(sdb.db, s, from, to, amount);
      PathValid(sdb.db, s, Moved(s, from, to, amount));
      PathFits(sdb.db, s, Moved(s, from, to, amount));
      sdb.Do(SubBalance(from, amount));
      sdb.Do(AddBalance(to, amount));
    }

    /** Fitting code hashes still fit. */
    ghost predicate Kept(s: State)
      reads sdb, sdb.accessList
    {
      FitKept(sdb.db, s, sdb.Contents())
    }

    /** Nothing was done to the refund counter. */
    ghost predicate Idled(s: State)
      reads sdb, sdb.accessList
    {
      Idle(sdb.db, s, sdb.Contents())
    }

    /** Gas was spent and refunds were added that it pays for. */
    ghost predicate Accrued(s: State, gas: int, left: int)
      reads sdb, sdb.accessList
    {
      Accrues(sdb.db, s, gas, sdb.Contents(), left)
    }

    /** Reads fill caches and nothing else. */
    ghost predicate Read(s: State)
      reads sdb, sdb.accessList
    {
      && Sound() && Same(sdb.db, s, sdb.Contents()) && Path(sdb.db, s, sdb.Contents())
      && Quiet(sdb.db, s, sdb.Contents()) && Kept(s) && Idled(s)
    }

    lemma IsRead(s: State)
      requires Valid(s.warm) && Consistent(sdb.db) && Same(sdb.db, s, sdb.Contents())
      ensures Read(s)
    {
      hide Valid, Consistent, SameObjects, SameTransient, Path, Quiet, AllFit, Idle;
      PathBySame(sdb.db, s, sdb.Contents());
      PathFits(sdb.db, s, sdb.Contents());
    }

    method Exists(a: Address) returns (r: bool)
      requires Sound()
      modifies sdb`objects
      ensures r == StateCaches.Exist(sdb.db, old(sdb.Contents()), a) && Read(old(sdb.Contents()))
    {
      hide Valid, Consistent, Same, StateCaches.Exist, Read;
      Journal.ValidRange(sdb.Contents().warm);
      r := sdb.Exists(a);
      IsRead(old(sdb.Contents()));
    }

    method IsEmpty(a: Address) returns (r: bool)
      requires Sound()
      modifies sdb`objects
      ensures r == StateCaches.Empty(sdb.db, old(sdb.Contents()), a) && Read(old(sdb.Contents()))
    {
      hide Valid, Consistent, Same, Read, StateCaches.Empty;
      Journal.ValidRange(sdb.Contents().warm);
      r := sdb.Empty(a);
      IsRead(old(sdb.Contents()));
    }

    method BalanceOf(a: Address) returns (r: int)
      requires Sound()
      modifies sdb`objects
      ensures r == GetBalance(sdb.db, old(sdb.Contents()), a) && Read(old(sdb.Contents()))
    {
      hide Valid, Consistent, Same, Read, GetBalance;
      Journal.ValidRange(sdb.Contents().warm);
      r := sdb.Balance(a);
      IsRead(old(sdb.Contents()));
    }

    method NonceOf(a: Address) returns (r: uint64)
      requires Sound()
      modifies sdb`objects
      ensures r == GetNonce(sdb.db, old(sdb.Contents()), a) && Read(old(sdb.Contents()))
    {
      hide Valid, Consistent, Same, Read, GetNonce;
      Journal.ValidRange(sdb.Contents().warm);
      r := sdb.Nonce(a);
      IsRead(old(sdb.Contents()));
    }

    method CodeAt(a: Address) returns (r: seq<byte>)
      requires Sound()
      modifies sdb`objects
      ensures r == GetCode(sdb.db, old(sdb.Contents()), a) && Read(old(sdb.Contents()))
      ensures var s := old(sdb.Contents()); sdb.Contents() == Put(s, a, LoadCode(sdb.db, a, Get(s, a)).0)
    {
      hide Valid, Consistent, Same, Read, GetCode, LoadCode;
      Journal.ValidRange(sdb.Contents().warm);
      r := sdb.CodeBytes(a);
      IsRead(old(sdb.Contents()));
    }

    method CodeHashAt(a: Address) returns (r: Hash)
      requires Sound()
      modifies sdb`objects
      ensures r == StateCaches.CodeHash(sdb.db, a, Get(old(sdb.Contents()), a)) && Read(old(sdb.Contents()))
    {
      hide Valid, Consistent, Same, Read, StateCaches.CodeHash;
      Journal.ValidRange(sdb.Contents().warm);
      r := sdb.CodeHashAt(a);
      IsRead(old(sdb.Contents()));
    }

    method SlotAt(a: Address, k: Hash) returns (r: Hash)
      requires Sound()
      modifies sdb`objects
      ensures r == GetState(sdb.db, old(sdb.Contents()), a, k) && Read(old(sdb.Contents()))
    {
      hide Valid, Consistent, Same, Read, GetState;
      Journal.ValidRange(sdb.Contents().warm);
      r := sdb.Slot(a, k);
      IsRead(old(sdb.Contents()));
    }

    /** The state went from `s` on a path that can be undone, and quietly if asked. */
    ghost predicate Went(s: State, quietly: bool)
      reads sdb, sdb.accessList
    {
      Sound() && Path(sdb.db, s, sdb.Contents()) && (quietly ==> Quiet(sdb.db, s, sdb.Contents())) && Kept(s)
    }

    /** A further leg of the path. */
    lemma WentOn(s: State, t: State, quietly: bool)
      requires Consistent(sdb.db) && Path(sdb.db, s, t) && Path(sdb.db, t, sdb.Contents())
      requires quietly ==> Quiet(sdb.db, s, t) && Quiet(sdb.db, t, sdb.Contents())
      ensures Went(s, quietly)
      ensures Idle(sdb.db, s, t) && Idle(sdb.db, t, sdb.Contents()) ==> Idled(s)
    {
      hide Path, AllFit, Idle, Quiet, Valid, Consistent;
      PathTransitive(sdb.db, s, t, sdb.Contents());
      PathValid(sdb.db, s, sdb.Contents());
      PathFits(sdb.db, s, sdb.Contents());
      if Idle(sdb.db, s, t) && Idle(sdb.db, t, sdb.Contents()) {
        IdleTransitive(sdb.db, s, t, sdb.Contents());
      }
      if quietly {
        QuietTransitive(sdb.db, s, t, sdb.Contents());
      }
    }

    // -------------------------------------------------------------- dynamic gas

    /** The access-list surcharge of a call (EIP-2929) and of resolving a delegation (EIP-7702). */
    method AccessCost(addr: Address, gas: uint64) returns (access: Option<uint64>)
      requires Sound()
      modifies sdb, sdb.accessList
      ensures Went(old(sdb.Contents()), true) && Idled(old(sdb.Contents()))
      ensures ContainsAddress(sdb.Contents().warm, addr)
      ensures var total := AccessOf(sdb.db, old(sdb.Contents()), addr);
              access == if total <= gas then Some(total) else None
      ensures access.Some? ==> sdb.Contents() == AccessState(sdb.db, old(sdb.Contents()), addr)
    {
      hide Path, AllFit, Idle, Quiet, Valid, Consistent, Apply, Same, GetCode, LoadCode;
      ghost var s := sdb.Contents();
      var total := Warm(addr, COLD_ACCOUNT - WARM_READ, 0);
      if gas < total {
        return None;
      }
      ghost var t := sdb.Contents();
      WarmingKeepsCode(sdb.db, s, t, addr);
      var code := CodeAt(addr);
      WentOn(s, t, true);
      StaysWarm(t, addr);
      SameWarm(t);
      var target := Delegation(code);
      if target.Some? {
        ghost var u := sdb.Contents();
        var cost := Warm(target.value, COLD_ACCOUNT, WARM_READ);
        WentOn(s, u, true);
        StaysWarm(u, addr);
        if gas - total < cost {
          return None;
        }
        total := total + cost;
      }
      return Some(total);
    }

    lemma SameWarm(s: State)
      requires Same(sdb.db, s, sdb.Contents())
      ensures sdb.Contents().warm == s.warm
    {
    }

    lemma StaysWarm(s: State, a: Address)
      requires Path(sdb.db, s, sdb.Contents()) && ContainsAddress(s.warm, a)
      ensures ContainsAddress(sdb.Contents().warm, a)
    {
    }

    /** Warms an address; the charge depends on whether it was cold. */
    method Warm(a: Address, cold: uint64, warm: uint64) returns (cost: uint64)
      requires Sound()
      modifies sdb, sdb.accessList
      ensures Went(old(sdb.Contents()), true) && Idled(old(sdb.Contents()))
      ensures sdb.Contents() == WarmAddress(old(sdb.Contents()), a)
      ensures cost == if ContainsAddress(old(sdb.Contents()).warm, a) then warm else cold
    {
      hide Path, AllFit, Idle, Quiet, Valid, Consistent;
      if a in sdb.accessList.addresses {
        PathNowhere(sdb.db, sdb.Contents());
        return warm;
      }
      Journal.ValidRange(sdb.Contents().warm);
      QuietWarm(sdb.db, sdb.Contents(), AddAddressToAccessList(a));
      Do(AddAddressToAccessList(a));
      return cold;
    }

    /** The 25000 for a new account and the 9000 for a transfer, before memory. */
    method CallBase(op: byte, addr: Address, value: nat) returns (base: nat)
      requires Sound()
      modifies sdb`objects
      ensures Read(old(sdb.Contents())) && base == BaseOf(sdb.db, old(sdb.Contents()), op, addr, value)
    {
      hide Path, AllFit, Idle, Quiet, Valid, Consistent, Same, StateCaches.Empty;
      base := 0;
      if op == CALL && value != 0 {
        var empty := IsEmpty(addr);
        base := if empty then NEW_ACCOUNT else 0;
      } else {
        Journal.SameReflexive(sdb.db, sdb.Contents());
        IsRead(sdb.Contents());
      }
      if (op == CALL || op == CALLCODE) && value != 0 {
        base := base + VALUE_TRANSFER;
      }
    }

    /** The gas an operation has to pay beyond its constant charge and the callee's share. */
    ghost function Due(s: State, scope: Scope, op: byte, size: nat): int
      requires Enough(op, scope.stack)
      reads scope, scope.mem
    {
      Growth(|scope.mem.store|, size) + Dynamic(sdb.db, s, scope.address, op, scope.stack)
    }

    /** A price function from state `s`: exactly what has to be paid, and what paying does to the state. */
    ghost predicate Settles(s: State, scope: Scope, op: byte, size: nat, cost: Option<uint64>)
      requires Enough(op, scope.stack)
      reads this, sdb, sdb.accessList, scope, scope.mem
    {
      var due := Due(s, scope, op, size);
      if WithinLimits(op, scope.stack, size, scope.gas) && due <= scope.gas then
        var share := Share(op, scope.stack, scope.gas - due);
        && cost == Some(due + share) && due + share <= scope.gas && (IsCall(op) ==> callGasTemp == share)
        && PaysState(sdb.db, scope.address, op, scope.stack, s, sdb.Contents())
      else cost.Some? ==> cost.value > scope.gas
    }

    /** gasCall and its variants, under EIP-7702: access, then base and memory, then the callee's share. */
    method CallCost(scope: Scope, op: byte, memorySize: uint64) returns (cost: Option<uint64>)
      requires Sound() && IsCall(op) && Enough(op, scope.stack) && memorySize % 32 == 0 && scope.mem.Paid()
      modifies `callGasTemp, sdb, sdb.accessList, scope.mem`lastGasCost
      ensures Went(old(sdb.Contents()), true) && Idled(old(sdb.Contents()))
      ensures ContainsAddress(sdb.Contents().warm, Callee(scope.stack))
      ensures cost.Some? ==> scope.mem.PaidFor(memorySize)
      ensures Settles(old(sdb.Contents()), scope, op, memorySize, cost)
      ensures cost.Some? && cost.value <= scope.gas ==>
                callGasTemp + (if Carried(op, scope.stack) != 0 then VALUE_TRANSFER else 0) <= cost.value
    {
      hide Path, AllFit, Idle, Quiet, Valid, Consistent, Same, Variant7702, Memory.Fee, AccessOf, AccessState, BaseOf,
           AllBut64th, Growth, Interpreter.Settles;
      var addr, value, request := Callee(scope.stack), Carried(op, scope.stack), Back(scope.stack, 0);
      ghost var s := sdb.Contents();
      var access := AccessCost(addr, scope.gas);
      ghost var asked := sdb.Contents();
      if access.None? {
        CallTooDear(s, scope, op, memorySize);
        return None;
      }
      var base: nat := CallBase(op, addr, value);
      WentOn(s, asked, true);
      StaysWarm(asked, addr);
      var fee := scope.mem.GasCost(memorySize);
      if fee.None? {
        CallTooDear(s, scope, op, memorySize);
        return None;
      }
      Memory.WholeWords(memorySize);
      PaidGrowth(scope, memorySize, fee.value, old(scope.mem.lastGasCost));
      BaseBound(asked, op, addr, value);
      base := base + fee.value;
      var r := Variant7702(scope.gas, access.value, base, request);
      if r.Some? {
        callGasTemp := r.value.1;
      }
      CallSettles(s, scope, op, memorySize, access.value, base, r);
      return if r.None? then None else Some(r.value.0);
    }

    lemma CallTooDear(s: State, scope: Scope, op: byte, size: nat)
      requires IsCall(op) && Enough(op, scope.stack)
      requires size > Memory.MAX_SIZE || AccessOf(sdb.db, s, Callee(scope.stack)) > scope.gas
      ensures Settles(s, scope, op, size, None)
    {
      hide AccessOf, AccessState, BaseOf, Growth, PaysState;
      GrowthRises(|scope.mem.store|, size);
    }

    /** The price of a call once access, base and memory are known. */
    lemma CallSettles(s: State, scope: Scope, op: byte, size: nat, access: uint64, base: uint64,
                      r: Option<(uint64, uint64)>)
      requires IsCall(op) && Enough(op, scope.stack) && size <= Memory.MAX_SIZE
      requires access == AccessOf(sdb.db, s, Callee(scope.stack)) && base < MAX_BASE
      requires base == BaseOf(sdb.db, AccessState(sdb.db, s, Callee(scope.stack)), op, Callee(scope.stack),
                              Carried(op, scope.stack)) + Growth(|scope.mem.store|, size)
      requires r == Variant7702(scope.gas, access, base, Back(scope.stack, 0)) && (r.Some? ==> callGasTemp == r.value.1)
      requires Same(sdb.db, AccessState(sdb.db, s, Callee(scope.stack)), sdb.Contents())
      ensures Settles(s, scope, op, size, if r.None? then None else Some(r.value.0))
      ensures r.Some? && r.value.0 <= scope.gas ==> callGasTemp + base <= r.value.0
    {
      hide AccessOf, AccessState, BaseOf, Growth, Variant7702, Same, AllBut64th, Interpreter.Due, PaysState, Callee,
           Carried;
      AccessBound(s, Callee(scope.stack));
      DueOfCall(s, scope, op, size);
      CallAffordable(scope.gas, access, base, Back(scope.stack, 0));
    }

    lemma DueOfCall(s: State, scope: Scope, op: byte, size: nat)
      requires IsCall(op) && Enough(op, scope.stack)
      ensures var addr := Callee(scope.stack);
              && Due(s, scope, op, size) == AccessOf(sdb.db, s, addr)
                 + (BaseOf(sdb.db, AccessState(sdb.db, s, addr), op, addr, Carried(op, scope.stack))
                    + Growth(|scope.mem.store|, size))
              && (Same(sdb.db, AccessState(sdb.db, s, addr), sdb.Contents()) ==>
                    PaysState(sdb.db, scope.address, op, scope.stack, s, sdb.Contents()))
    {
      hide AccessOf, AccessState, BaseOf, Growth, Same;
    }

    /** The fee for memory is what it grows by. */
    lemma PaidGrowth(scope: Scope, size: nat, fee: nat, last: nat)
      requires scope.mem.PaidFor(size) && scope.mem.lastGasCost == last + fee
      requires last == Memory.Fee(|scope.mem.store| / 32)
      ensures fee == Growth(|scope.mem.store|, size)
    {
      hide Memory.Fee;
    }

    lemma AccessBound(s: State, addr: Address)
      ensures AccessOf(sdb.db, s, addr) <= 2 * COLD_ACCOUNT
    {
      hide GetCode;
    }

    lemma BaseBound(s: State, op: byte, addr: Address, value: nat)
      ensures BaseOf(sdb.db, s, op, addr, value) <= NEW_ACCOUNT + VALUE_TRANSFER
      ensures value != 0 && (op == CALL || op == CALLCODE) ==> BaseOf(sdb.db, s, op, addr, value) >= VALUE_TRANSFER
    {
      hide StateCaches.Empty;
    }

    /** memoryGasCost, and the per-word charges of MCOPY and of init code. */
    method MemoryCost(scope: Scope, memorySize: uint64, extra: nat) returns (cost: Option<uint64>)
      requires memorySize % 32 == 0 && scope.mem.Paid()
      requires extra < TWO_64 && (memorySize <= Memory.MAX_SIZE ==> extra < TWO_63)
      modifies scope.mem`lastGasCost
      ensures cost.Some? <==> memorySize <= Memory.MAX_SIZE
      ensures cost.Some? ==> scope.mem.PaidFor(memorySize)
      ensures cost.Some? ==> cost.value == Growth(|scope.mem.store|, memorySize) + extra
    {
      hide Memory.Fee;
      var fee := scope.mem.GasCost(memorySize);
      Memory.WholeWords(memorySize);
      if fee.None? {
        return None;
      }
      PaidGrowth(scope, memorySize, fee.value, old(scope.mem.lastGasCost));
      cost := SafeAdd(fee.value, extra);
    }

    /** SLOAD: 2100 for a cold slot, which becomes warm, and 100 for a warm one. */
    method SloadCost(a: Address, k: Hash) returns (cost: uint64)
      requires Sound()
      modifies sdb, sdb.accessList
      ensures Went(old(sdb.Contents()), true) && Idled(old(sdb.Contents()))
      ensures cost == SloadPrice(old(sdb.Contents()), a, k) && InRange(old(sdb.Contents()).warm)
      ensures sdb.Contents() == if ContainsSlot(old(sdb.Contents()).warm, a, k) then old(sdb.Contents())
                                else WarmSlot(old(sdb.Contents()), a, k)
    {
      hide Path, AllFit, Idle, Quiet, Consistent, WarmSlot;
      Journal.ValidRange(sdb.Contents().warm);
      var addressPresent, slotPresent := sdb.accessList.Contains(a, k);
      if slotPresent {
        PathNowhere(sdb.db, sdb.Contents());
        return 100;
      }
      QuietWarm(sdb.db, sdb.Contents(), AddSlotToAccessList(a, k));
      Do(AddSlotToAccessList(a, k));
      return 2100;
    }

    /** Once the slot is written, the refunds are paid for. */
    ghost predicate WillAccrue(scope: Scope, s: State, gas: int, left: int)
      reads sdb, sdb.accessList, scope`stack
    {
      var t := sdb.Contents();
      InRange(t.warm) && |scope.stack| >= 2 &&
      Accrues(sdb.db, s, gas,
              Apply(sdb.db, t, SetState(scope.address, Back(scope.stack, 0), Back(scope.stack, 1))), left)
    }

    /** SSTORE settles its refund here, before it is known whether the frame may write. */
    method SstoreCost(scope: Scope) returns (cost: Option<uint64>)
      requires Sound() && |scope.stack| >= 2 && ContainsAddress(sdb.Contents().warm, scope.address)
      modifies sdb, sdb.accessList
      ensures Went(old(sdb.Contents()), false)
      ensures cost.Some? ==> cost.value >= 100
      ensures cost.Some? ==> WillAccrue(scope, old(sdb.Contents()), scope.gas, scope.gas - cost.value)
      ensures var s, a := old(sdb.Contents()), scope.address;
              var k, v := Back(scope.stack, 0), Back(scope.stack, 1);
              var original, current := GetCommittedState(sdb.db, s, a, k), GetState(sdb.db, s, a, k);
              && InRange(s.warm)
              && (cost.None? <==> scope.gas <= SstoreGas.SENTRY)
              && (cost.None? ==> sdb.Contents() == s)
              && (cost.Some? ==>
                    && cost.value == SstorePrice(sdb.db, s, a, k, v)
                    && SstoreGas.Settled(sdb.db, WarmSlot(s, a, k),
                                         Sstore.Refunds(Sstore.EIP3529, original, current, v), sdb.Contents()))
    {
      hide Path, AllFit, Idle, Quiet, Consistent, Sstore.Cost, SstoreGas.Settled, WarmSlot, GetState,
           GetCommittedState;
      var k, v := Back(scope.stack, 0), Back(scope.stack, 1);
      ghost var s := sdb.Contents();
      Journal.ValidRange(s.warm);
      var r := SstoreGas.GasSStoreEIP2929(sdb, Sstore.EIP3529, scope.gas, scope.address, k, v);
      ghost var original := GetCommittedState(sdb.db, s, scope.address, k);
      ghost var current := GetState(sdb.db, s, scope.address, k);
      if r.None? {
        PathNowhere(sdb.db, s);
        return None;
      }
      SstorePath(sdb.db, s, scope.address, k, Sstore.Refunds(Sstore.EIP3529, original, current, v), sdb.Contents());
      PathValid(sdb.db, s, sdb.Contents());
      PathFits(sdb.db, s, sdb.Contents());
      SstoreCosts(original, current, v);
      CostFits(original, current, v);
      SstoreAccrues(sdb.db, s, scope.address, k, v, sdb.Contents(), scope.gas, r.value);
      return Some(r.value);
    }

    static lemma CostFits(original: Hash, current: Hash, value: Hash)
      ensures Sstore.Cost(Sstore.EIP3529, original, current, value) + 2100 < TWO_64
    {
    }

    /** makeSelfdestructGasFn without refunds (EIP-3529). */
    method SelfdestructCost(scope: Scope) returns (cost: uint64)
      requires Sound() && |scope.stack| >= 1
      modifies sdb, sdb.accessList
      ensures Went(old(sdb.Contents()), true) && Idled(old(sdb.Contents()))
      ensures var s, beneficiary := old(sdb.Contents()), ToAddress(Back(scope.stack, 0));
              && cost == SelfdestructPrice(sdb.db, s, scope.address, beneficiary)
              && Same(sdb.db, WarmAddress(s, beneficiary), sdb.Contents())
    {
      hide Path, AllFit, Idle, Quiet, Valid, Consistent, Same, GetBalance, StateCaches.Empty;
      var beneficiary := ToAddress(Back(scope.stack, 0));
      ghost var s := sdb.Contents();
      cost := Warm(beneficiary, COLD_ACCOUNT, 0);
      ghost var t := sdb.Contents();
      ObjectsDecide(s, t, beneficiary, scope.address);
      var empty := IsEmpty(beneficiary);
      WentOn(s, t, true);
      if empty {
        ghost var u := sdb.Contents();
        SameIsSeen(sdb.db, t, u);
        var balance := BalanceOf(scope.address);
        Journal.SameTransitive(sdb.db, t, u, sdb.Contents());
        WentOn(s, u, true);
        if balance != 0 {
          cost := cost + 25000;
        }
      }
    }

    /** memoryCopierGas, gasCreateEip3860, gasCreate2Eip3860 and pureMemoryGascost. */
    method WordCost(scope: Scope, op: byte, memorySize: uint64) returns (cost: Option<uint64>)
      requires Enough(op, scope.stack) && (IsMemoryOp(op) || IsCreate(op) || op == RETURN || op == REVERT)
      requires memorySize % 32 == 0 && scope.mem.Paid()
      requires MemorySize(op, scope.stack).Some? && memorySize == Rounded(MemorySize(op, scope.stack).value)
      modifies scope.mem`lastGasCost
      ensures cost.Some? ==> scope.mem.PaidFor(memorySize)
      ensures cost.Some? <==> WithinLimits(op, scope.stack, memorySize, scope.gas)
      ensures cost.Some? ==> cost.value == Growth(|scope.mem.store|, memorySize) + PerWord(op, scope.stack)
    {
      hide Memory.Fee, Growth;
      if op == MCOPY {
        if Back(scope.stack, 2) >= TWO_64 {
          return None;
        }
        var words: nat := Memory.ToWordSize(Back(scope.stack, 2));
        Memory.WordsOf(Back(scope.stack, 2));
        if 3 * words >= TWO_64 {
          return None;
        }
        cost := MemoryCost(scope, memorySize, 3 * words);
      } else if IsCreate(op) {
        if Back(scope.stack, 2) > MAX_INIT_CODE_SIZE {
          return None;
        }
        var words := (Back(scope.stack, 2) + 31) / 32;
        cost := MemoryCost(scope, memorySize, if op == CREATE then 2 * words else 8 * words);
      } else {
        cost := MemoryCost(scope, memorySize, 0);
      }
    }

    lemma ObjectsDecide(s: State, t: State, a: Address, b: Address)
      requires t.objects == s.objects
      ensures StateCaches.Empty(sdb.db, t, a) == StateCaches.Empty(sdb.db, s, a)
      ensures GetBalance(sdb.db, t, b) == GetBalance(sdb.db, s, b)
    {
    }

    /** The callee is warm, and what it gets is part of the cost. */
    ghost predicate CallReady(scope: Scope, op: byte, cost: Option<uint64>)
      requires Enough(op, scope.stack) && IsCall(op)
      reads this, sdb, sdb.accessList, scope
    {
      && ContainsAddress(sdb.Contents().warm, Callee(scope.stack))
      && (cost.Some? && cost.value <= scope.gas ==>
            callGasTemp + (if Carried(op, scope.stack) != 0 then VALUE_TRANSFER else 0) <= cost.value)
    }

    /** What the dynamic gas function promises the rest of the step. */
    method DynamicCost(scope: Scope, op: byte, memorySize: uint64) returns (cost: Option<uint64>)
      requires Sound() && Enough(op, scope.stack) && memorySize % 32 == 0 && scope.mem.Paid()
      requires MemorySize(op, scope.stack).Some? && memorySize == Rounded(MemorySize(op, scope.stack).value)
      requires ContainsAddress(sdb.Contents().warm, scope.address)
      modifies `callGasTemp, sdb, sdb.accessList, scope.mem`lastGasCost
      ensures Went(old(sdb.Contents()), op != SSTORE) && (op != SSTORE ==> Idled(old(sdb.Contents())))
      ensures op == SSTORE && cost.Some? ==> WillAccrue(scope, old(sdb.Contents()), scope.gas, scope.gas - cost.value)
      ensures cost.Some? ==> scope.mem.PaidFor(memorySize)
      ensures cost.Some? && (op == SLOAD || op == SSTORE) ==> cost.value >= 100
      ensures Settles(old(sdb.Contents()), scope, op, memorySize, cost)
      ensures IsCall(op) ==> CallReady(scope, op, cost)
    {
      hide Path, AllFit, Idle, Quiet, Valid, Consistent, Memory.Fee, Memory.CalcMemSize, PerWord, AccessOf, BaseOf,
           Variant7702, Accrues, Apply, Growth, SstorePrice, SelfdestructPrice, Interpreter.Settles,
           GetState, GetCommittedState, SstoreGas.Settled, WarmSlot, WarmAddress, Same;
      ghost var s := sdb.Contents();
      PathNowhere(sdb.db, s);
      if IsCall(op) {
        cost := CallCost(scope, op, memorySize);
      } else if op == SLOAD {
        var c := SloadCost(scope.address, Back(scope.stack, 0));
        cost := Some(c);
        SettlesState(s, scope, op, memorySize, cost);
      } else if op == SSTORE {
        cost := SstoreCost(scope);
        SettlesState(s, scope, op, memorySize, cost);
      } else if op == SELFDESTRUCT {
        var c := SelfdestructCost(scope);
        cost := Some(c);
        SettlesState(s, scope, op, memorySize, cost);
      } else if IsMemoryOp(op) || IsCreate(op) || op == RETURN || op == REVERT {
        cost := WordCost(scope, op, memorySize);
        SettlesWords(s, scope, op, memorySize, cost);
      } else {
        cost := Some(0);
        NoWords(op, scope.stack, |scope.mem.store|);
        SettlesWords(s, scope, op, memorySize, cost);
      }
    }

    /** Operations on the state use no memory. */
    lemma SettlesState(s: State, scope: Scope, op: byte, size: nat, cost: Option<uint64>)
      requires op == SLOAD || op == SSTORE || op == SELFDESTRUCT
      requires Enough(op, scope.stack) && size == Rounded(MemorySize(op, scope.stack).value)
      requires (cost.Some? <==> WithinLimits(op, scope.stack, size, scope.gas))
      requires cost.Some? ==>
                 && cost.value == Dynamic(sdb.db, s, scope.address, op, scope.stack)
                 && PaysState(sdb.db, scope.address, op, scope.stack, s, sdb.Contents())
      ensures Settles(s, scope, op, size, cost)
    {
      hide SloadPrice, SstorePrice, SelfdestructPrice, Same, SstoreGas.Settled, WarmSlot, Memory.Fee;
    }

    lemma SettlesWords(s: State, scope: Scope, op: byte, size: nat, cost: Option<uint64>)
      requires Enough(op, scope.stack) && !IsCall(op) && op != SLOAD && op != SSTORE && op != SELFDESTRUCT
      requires cost.Some? <==> WithinLimits(op, scope.stack, size, scope.gas)
      requires cost.Some? ==> cost.value == Growth(|scope.mem.store|, size) + PerWord(op, scope.stack)
      requires sdb.Contents() == s
      ensures Settles(s, scope, op, size, cost)
    {
      hide Growth, PerWord;
    }

    static lemma NoWords(op: byte, stack: seq<nat>, have: nat)
      requires Enough(op, stack) && !IsCall(op) && !IsMemoryOp(op) && !IsCreate(op) && op != RETURN && op != REVERT
      ensures PerWord(op, stack) == 0 && MemorySize(op, stack) == Some(0) && Growth(have, Rounded(0)) == 0
    {
    }

    // -------------------------------------------------------------- frames

    /** How a frame ends: on an error the state is reverted, and the gas is gone unless it was a REVERT. */
    method Finish(ghost s: State, snapshot: nat, gas: uint64, status: Status) returns (left: uint64)
      requires snapshot == |s.journal| && Went(s, false) && Valid(s.warm) && !status.Panicked?
      modifies sdb, sdb.accessList
      ensures status.Success? ==> sdb.Contents() == old(sdb.Contents())
      ensures !status.Success? ==> Read(s)
      ensures left == if status.Failed? then 0 else gas
    {
      hide Path, AllFit, Idle, Quiet, Valid, Consistent, Same, Read, StateSpec.Revert, Moves;
      if !status.Success? {
        PathMoves(sdb.db, s, sdb.Contents());
        RevertMoves(sdb.db, s, sdb.Contents());
        MovesLonger(s);
        sdb.RevertTo(snapshot);
        IsRead(s);
      }
      left := if status.Failed? then 0 else gas;
    }

    lemma MovesLonger(s: State)
      requires Path(sdb.db, s, sdb.Contents())
      ensures |s.journal| <= |sdb.journal|
    {
    }

    /** RunPrecompiledContract */
    method RunPrecompiled(addr: Address, input: seq<byte>, gas: uint64)
      returns (ret: seq<byte>, left: uint64, status: Status)
      ensures left <= gas
      ensures var cost, output := env.requiredGas(addr, input), env.runPrecompile(addr, input);
              if gas < cost then left == 0 && status == Failed && ret == []
              else if output.None? then left == gas - cost && status == Failed && ret == []
              else left == gas - cost && status == Success && ret == output.value
    {
      var cost := env.requiredGas(addr, input);
      if gas < cost {
        return [], 0, Failed;
      }
      var output := env.runPrecompile(addr, input);
      match output {
        case Some(bytes) => return bytes, gas - cost, Success;
        case None => return [], gas - cost, Failed;
      }
    }

    /** resolveCode: one level of delegation is followed. */
    method ResolveCode(addr: Address) returns (code: seq<byte>)
      requires Sound()
      modifies sdb`objects
      ensures Read(old(sdb.Contents())) && code == ResolvedCode(sdb.db, old(sdb.Contents()), addr)
    {
      hide Path, AllFit, Idle, Quiet, Valid, Consistent, Same, GetCode;
      ghost var s := sdb.Contents();
      code := CodeAt(addr);
      var target := Delegation(code);
      if target.Some? {
        ghost var t := sdb.Contents();
        SameIsSeen(sdb.db, s, t);
        code := CodeAt(target.value);
        Journal.SameTransitive(sdb.db, s, t, sdb.Contents());
        IsRead(s);
      }
    }

    /** resolveCodeHash: the hash the caches have for the account whose code is run. */
    method ResolveHash(addr: Address) returns (hash: Hash)
      requires Sound()
      modifies sdb`objects
      ensures Read(old(sdb.Contents()))
      ensures Fitting(sdb.db, sdb.Contents(), ResolvedCode(sdb.db, old(sdb.Contents()), addr), hash)
      ensures var s := old(sdb.Contents());
              var delegate := Delegation(GetCode(sdb.db, s, addr));
              var a := if delegate.Some? then delegate.value else addr;
              hash == StateCaches.CodeHash(sdb.db, a, Get(Put(s, addr, LoadCode(sdb.db, addr, Get(s, addr)).0), a))
    {
      hide Path, AllFit, Idle, Quiet, Valid, Consistent, Same, GetCode, LoadCode, StateCaches.CodeHash, Fitting;
      ghost var s := sdb.Contents();
      var code := CodeAt(addr);
      ghost var t := sdb.Contents();
      var target := Delegation(code);
      if target.Some? {
        hash := CodeHashAt(target.value);
      } else {
        hash := CodeHashAt(addr);
      }
      SameIsSeen(sdb.db, s, t);
      ghost var a := if target.Some? then target.value else addr;
      ReportedFits(sdb.db, t, a);
      FittingSame(sdb.db, t, sdb.Contents(), GetCode(sdb.db, t, a), hash);
      Journal.SameTransitive(sdb.db, s, t, sdb.Contents());
      IsRead(s);
    }

    /** What a frame did, from state `s`. */
    ghost predicate Did(f: Frame, s: State, gas: nat, ret: seq<byte>, left: nat, status: Status, run: Run)
      reads `honest, sdb, sdb.accessList
    {
      && run == Semantics.Run(f, s, gas, run.past, run.last, Answer(ret, left, status, sdb.Contents()))
      && Runs(sdb.db, env, run) && (honest ==> FairRun(run))
    }

    /** EVMInterpreter.Run on a fresh frame. */
    method Run(address: Address, caller: Address, value: nat, code: seq<byte>, codeHash: Hash, gas: uint64,
               isStatic: bool)
      returns (ret: seq<byte>, left: uint64, status: Status, ghost run: Run)
      requires Sound() && Cached() && ContainsAddress(sdb.Contents().warm, address)
      requires Trusted() && !Inert(code) && codeHash != 0 ==> code == codeOf(codeHash)
      modifies this, sdb, sdb.accessList, jumpdests
      ensures Went(old(sdb.Contents()), (old(readOnly) || isStatic) && status.Success?)
      ensures left <= gas && Steady() && (status.Panicked? ==> !honest)
      ensures status.Success? ==> Accrued(old(sdb.Contents()), gas, left)
      ensures Did(Frame(address, caller, value, code, readOnly || isStatic, depth + 1), old(sdb.Contents()), gas,
                  ret, left, status, run)
      decreases gas, 3
    {
      hide Path, AllFit, Idle, Quiet, Valid, Consistent, JumpCache.Jumpdests.Valid, JumpCache.Jumpdests.Right,
           Database.Contents, ContainsAddress, Accrues, Interpreter.Inverse, Interpreter.Did, Interpreter.Trusted,
           Inert, Interpreter.Sound;
      ghost var f := Frame(address, caller, value, code, readOnly || isStatic, depth + 1);
      honest := honest && (!Inert(code) && codeHash != 0 ==> code == codeOf(codeHash));
      depth, returnData := depth + 1, [];
      var sets := isStatic && !readOnly;
      readOnly := readOnly || sets;
      ret, left, status, run := Interpret(address, caller, value, code, codeHash, gas, f);
      readOnly := readOnly && !sets;
      depth := depth - 1;
    }

    /** Without code there is nothing to do. */
    method Interpret(address: Address, caller: Address, value: nat, code: seq<byte>, codeHash: Hash, gas: uint64,
                     ghost f: Frame)
      returns (ret: seq<byte>, left: uint64, status: Status, ghost run: Run)
      requires Sound() && Cached() && ContainsAddress(sdb.Contents().warm, address)
      requires honest && !Inert(code) && codeHash != 0 ==> code == codeOf(codeHash)
      requires f == Frame(address, caller, value, code, readOnly, depth)
      modifies this, sdb, sdb.accessList, jumpdests
      ensures Went(old(sdb.Contents()), readOnly && status.Success?)
      ensures left <= gas && Steady() && (status.Panicked? ==> !honest)
      ensures status.Success? ==> Accrued(old(sdb.Contents()), gas, left)
      ensures Did(f, old(sdb.Contents()), gas, ret, left, status, run)
      decreases gas, 3, 0
    {
      hide Path, AllFit, Idle, Quiet, Valid, Consistent, JumpCache.Jumpdests.Valid, JumpCache.Jumpdests.Right,
           Database.Contents, ContainsAddress, Accrues, Interpreter.Inverse, Interpreter.Did, Interpreter.Trusted;
      if 0 < |code| < TWO_63 {
        ret, left, status, run := Loop(address, caller, value, code, codeHash, gas, f);
      } else {
        PathNowhere(sdb.db, sdb.Contents());
        AccruesIdle(sdb.db, sdb.Contents(), gas, sdb.Contents(), gas);
        ret, left, status := [], gas, if code == [] then Success else Failed;
        run := NoTurn(f, gas, status);
      }
    }

    lemma NoTurn(f: Frame, gas: nat, status: Status) returns (run: Run)
      requires if f.code == [] then status == Success else |f.code| >= TWO_63 && status == Failed
      ensures Did(f, sdb.Contents(), gas, [], gas, status, run)
    {
      run := Semantics.Run(f, sdb.Contents(), gas, Beginning, None, Answer([], gas, status, sdb.Contents()));
    }

    /**
     The main loop: each turn that goes on leaves less gas. As long as every code hash met so far belonged to one
     code, the program counter is at an instruction at every turn and no turn panics. What it answers is what the
     turns from the first instruction on lead to.
     */
    method Loop(address: Address, caller: Address, value: nat, code: seq<byte>, codeHash: Hash, gas: uint64,
                ghost f: Frame)
      returns (ret: seq<byte>, left: uint64, status: Status, ghost run: Run)
      requires Sound() && Cached() && ContainsAddress(sdb.Contents().warm, address) && 0 < |code| < TWO_63
      requires honest && !Inert(code) && codeHash != 0 ==> code == codeOf(codeHash)
      requires f == Frame(address, caller, value, code, readOnly, depth)
      modifies this, sdb, sdb.accessList, jumpdests
      ensures Went(old(sdb.Contents()), readOnly && status.Success?)
      ensures left <= gas && Steady() && (status.Panicked? ==> !honest)
      ensures status.Success? ==> Accrued(old(sdb.Contents()), gas, left)
      ensures Did(f, old(sdb.Contents()), gas, ret, left, status, run)
      decreases gas, 2
    {
      hide Path, AllFit, Idle, Quiet, Valid, Consistent, JumpCache.Analysed, JumpCache.Jumpdests.Valid,
           JumpCache.Jumpdests.Right, Accrues, Interpreter.Inverse, Reaches, FairPast, Interpreter.Did,
           Interpreter.Turned, Table, Memory.Fee, CodeBitmap.IsStart, ContainsAddress, Database.Contents;
      ghost var s := sdb.Contents();
      PathNowhere(sdb.db, s);
      var scope := new Scope(address, caller, value, code, codeHash, gas, jumpdests);
      var out := Continue;
      ghost var past, last: Option<Turn> := Beginning, None;
      AccruesIdle(sdb.db, s, gas, s, gas);
      AtFirst(scope, f);
      while out.Continue?
        invariant fresh(scope) && fresh(scope.mem) && fresh(scope.contract) && scope.contract.jumpdests == jumpdests
        invariant scope.address == address && scope.gas <= gas && Steady() && f == FrameOf(scope)
        invariant Went(s, readOnly && (out.Continue? || out.Halt?))
        invariant out.Continue? ==> scope.Ready() && (honest ==> scope.OnTrack(codeOf) || Table(scope.Op()).None?)
        invariant out.Panic? ==> !honest
        invariant out.Continue? || out.Halt? ==> Accrued(s, gas, scope.gas)
        invariant ContainsAddress(sdb.Contents().warm, address)
        invariant out.Continue? ==> Reached(f, past, Config(s, 0, gas, [], []), Now(scope))
        invariant !out.Continue? ==>
                    && last.Some? && Reached(f, past, Config(s, 0, gas, [], []), last.value.before)
                    && Turned(scope, f, last.value.before, out, last.value)
        decreases out.Continue?, scope.gas
      {
        ghost var t, c := sdb.Contents(), Now(scope);
        ghost var turn;
        out, turn := Step(scope, f, c);
        if out.Continue? || out.Halt? {
          AccruesTransitive(sdb.db, s, gas, t, c.gas, sdb.Contents(), scope.gas);
        }
        WentOn(s, t, readOnly && (out.Continue? || out.Halt?));
        StaysWarm(t, address);
        past, last := Onward(scope, f, past, Config(s, 0, gas, [], []), c, out, turn);
      }
      left := scope.gas;
      match out {
        case Halt(r) => ret, status := r, Success;
        case Revert(r) => ret, status := r, Reverted;
        case Fail => ret, status := [], Failed;
        case Panic => ret, status := [], Panicked;
        case Continue => assert false;
      }
      run := AtLast(scope, f, past, s, gas, last.value, out, ret, left, status);
    }

    /** The turns so far. */
    ghost predicate Reached(f: Frame, past: Past, first: Config, c: Config)
      reads `honest
    {
      Reaches(sdb.db, env, f, past, first, c) && (honest ==> FairPast(f, past))
    }

    /** What a turn did. */
    ghost predicate Turned(scope: Scope, f: Frame, c: Config, out: Outcome, t: Turn)
      reads `honest, sdb, sdb.accessList, scope, scope.mem
    {
      && t == Turn(c, t.paid, t.share, t.deed, out, Now(scope)) && Turns(sdb.db, env, f, t)
      && (honest ==> FairTurn(f, t))
    }

    lemma AtFirst(scope: Scope, f: Frame)
      ensures Reached(f, Beginning, Now(scope), Now(scope))
    {
    }

    /** A turn that goes on is one more of the past, any other the last. */
    lemma Onward(scope: Scope, f: Frame, past: Past, first: Config, c: Config, out: Outcome, t: Turn)
      returns (later: Past, last: Option<Turn>)
      requires Reached(f, past, first, c) && Turned(scope, f, c, out, t)
      ensures out.Continue? ==> Reached(f, later, first, Now(scope))
      ensures !out.Continue? ==> last == Some(t) && t.before == c && Reached(f, later, first, c)
    {
      hide Turns, FairTurn;
      if out.Continue? {
        later, last := Then(past, t), None;
      } else {
        later, last := past, Some(t);
      }
    }

    lemma AtLast(scope: Scope, f: Frame, past: Past, s: State, gas: nat, t: Turn, out: Outcome, ret: seq<byte>,
                 left: nat, status: Status)
      returns (run: Run)
      requires 0 < |f.code| < TWO_63 && Reached(f, past, Config(s, 0, gas, [], []), t.before)
      requires Turned(scope, f, t.before, out, t) && left == scope.gas
      requires match out
               case Halt(r) => ret == r && status == Success
               case Revert(r) => ret == r && status == Reverted
               case Fail => ret == [] && status == Failed
               case Panic => ret == [] && status == Panicked
               case Continue => false
      ensures Did(f, s, gas, ret, left, status, run)
    {
      hide Turns, FairTurn, Reaches, FairPast;
      run := Semantics.Run(f, s, gas, past, Some(t), Answer(ret, left, status, sdb.Contents()));
    }

    /** The frame that a scope executes. */
    ghost function FrameOf(scope: Scope): Frame
      reads this
    {
      Frame(scope.address, scope.caller, scope.value, scope.code, readOnly, depth)
    }

    /** The configuration of a frame between two operations. */
    ghost function Now(scope: Scope): Config
      reads sdb, sdb.accessList, scope, scope.mem
    {
      Config(sdb.Contents(), scope.pc, scope.gas, scope.stack, scope.mem.store)
    }

    /** What a call operation has set aside for its callee. */
    ghost function Shared(op: byte): nat
      reads this
    {
      if IsCall(op) then callGasTemp else 0
    }

    /** Operands, memory and the callee are in place. */
    ghost predicate ReadyFor(scope: Scope, op: byte, head: nat)
      reads this, sdb, sdb.accessList, scope, scope.mem
    {
      && Enough(op, scope.stack) && scope.mem.Paid() && WindowsInside(op, scope.stack, |scope.mem.store|)
      && SetAside(scope, op, head) && (IsCall(op) ==> ContainsAddress(sdb.Contents().warm, Callee(scope.stack)))
    }

    /** Constant gas, memory size, dynamic gas and resize: what an operation pays before it is executed. */
    method Charge(scope: Scope, op: byte, ghost c: Config) returns (ok: bool)
      requires Sound() && Enough(op, scope.stack) && scope.mem.Paid() && c == Now(scope)
      requires ContainsAddress(sdb.Contents().warm, scope.address)
      modifies `callGasTemp, sdb, sdb.accessList, scope`gas, scope.mem
      ensures Went(old(sdb.Contents()), op != SSTORE) && ContainsAddress(sdb.Contents().warm, scope.address)
      ensures scope.gas <= old(scope.gas)
      ensures ok <==> Affordable(sdb.db, scope.address, op, c)
      ensures ok ==> Pays(sdb.db, scope.address, op, c, Now(scope), Shared(op))
      ensures ok ==> if op == SSTORE then WillAccrue(scope, old(sdb.Contents()), old(scope.gas), scope.gas)
                     else Idled(old(sdb.Contents()))
      ensures ok ==> ReadyFor(scope, op, old(scope.gas)) && (scope.gas < old(scope.gas) || IsHalt(op))
    {
      hide Path, AllFit, Idle, Quiet, Valid, Consistent, Memory.Fee, MemorySize, WindowsInside, Accrues, Apply,
           Interpreter.Settles, Affordable, Pays, Billed, Interpreter.ReadyFor, Interpreter.WillAccrue, Table,
           ToAddress, Database.Contents, ContainsAddress, Rounded;
      ghost var s := sdb.Contents();
      PathNowhere(sdb.db, s);
      TooDear(sdb.db, scope.address, op, c);
      ok := scope.UseGas(Table(op).value.gas);
      if !ok {
        return;
      }
      var size := MemorySize(op, scope.stack);
      if size.None? || 32 * Memory.ToWordSize(size.value) >= TWO_64 {
        return false;
      }
      var memorySize := 32 * Memory.ToWordSize(size.value);
      WordsRounded(size.value);
      var cost := DynamicCost(scope, op, memorySize);
      Bill(c, scope, op, memorySize, cost);
      StaysWarm(s, scope.address);
      if cost.None? {
        NotBilled(sdb.db, scope.address, op, c, cost, Shared(op), sdb.Contents());
        return false;
      }
      ghost var gas := scope.gas;
      ok := scope.UseGas(cost.value);
      if !ok {
        NotBilled(sdb.db, scope.address, op, c, cost, Shared(op), sdb.Contents());
      }
      if ok {
        if op == SSTORE {
          AccruesMore(scope, s, gas, gas - cost.value, old(scope.gas));
        }
        scope.mem.Resize(memorySize);
        ResizedForWindows(op, scope.stack, |scope.mem.store|);
        Equipped(scope, op, old(scope.gas), gas, cost.value);
        BilledPays(sdb.db, scope.address, op, c, memorySize, cost, Shared(op), Now(scope));
      }
    }

    lemma Equipped(scope: Scope, op: byte, head: nat, gas: nat, cost: nat)
      requires Enough(op, scope.stack) && scope.mem.Paid() && WindowsInside(op, scope.stack, |scope.mem.store|)
      requires scope.gas == gas - cost && gas == head - Table(op).value.gas
      requires IsCall(op) ==>
                 && ContainsAddress(sdb.Contents().warm, Callee(scope.stack))
                 && callGasTemp + (if Carried(op, scope.stack) != 0 then VALUE_TRANSFER else 0) <= cost
      ensures ReadyFor(scope, op, head)
    {
      hide WindowsInside, ToAddress;
    }

    /** The price function's answer in terms of the configuration before the step. */
    lemma Bill(c: Config, scope: Scope, op: byte, size: nat, cost: Option<uint64>)
      requires Enough(op, c.stack) && scope.stack == c.stack && scope.mem.store == c.memory
      requires scope.gas == c.gas - Table(op).value.gas
      requires MemorySize(op, c.stack).Some? && size == Rounded(MemorySize(op, c.stack).value)
      requires Settles(c.state, scope, op, size, cost)
      ensures Billed(sdb.db, scope.address, op, c, cost, Shared(op), sdb.Contents())
    {
      hide Growth, Dynamic, MemorySize, PaysState;
    }

    lemma AccruesMore(scope: Scope, s: State, gas: int, left: int, head: int)
      requires WillAccrue(scope, s, gas, left) && gas <= head
      ensures WillAccrue(scope, s, head, left)
    {
      hide Apply, Accrues;
      var t := Apply(sdb.db, sdb.Contents(), SetState(scope.address, Back(scope.stack, 0), Back(scope.stack, 1)));
      AccruesWithin(sdb.db, s, gas, t, left, 0, head, left);
    }

    /** One turn of the loop. */
    method Step(scope: Scope, ghost f: Frame, ghost c: Config) returns (out: Outcome, ghost t: Turn)
      requires Sound() && Cached() && scope.Ready() && scope.contract.jumpdests == jumpdests
      requires honest ==> scope.OnTrack(codeOf) || Table(scope.Op()).None?
      requires ContainsAddress(sdb.Contents().warm, scope.address) && f == FrameOf(scope) && c == Now(scope)
      modifies this, sdb, sdb.accessList, jumpdests, scope, scope.mem, scope.contract
      ensures Went(old(sdb.Contents()), readOnly && (out.Continue? || out.Halt?))
      ensures Steady() && scope.gas <= old(scope.gas) && (out.Panic? ==> !honest)
      ensures out.Continue? || out.Halt? ==> Accrued(old(sdb.Contents()), old(scope.gas), scope.gas)
      ensures out.Continue? ==> scope.Ready() && scope.gas < old(scope.gas) && (honest ==> scope.OnTrack(codeOf))
      ensures Turned(scope, f, c, out, t)
      decreases scope.gas, 1
    {
      hide Path, AllFit, Idle, Quiet, Valid, Consistent, CodeBitmap.IsStart, Memory.Fee, WindowsInside,
           JumpCache.Analysed, JumpCache.Jumpdests.Valid, JumpCache.Jumpdests.Right, Database.Contents,
           ContainsAddress, Accrues, Interpreter.Inverse, Apply, Affordable, Pays, Interpreter.SetAside,
           Interpreter.Turned, Interpreter.Acted, Interpreter.ReadyFor, Interpreter.WillAccrue, Interpreter.Stored;
      ghost var s, head := sdb.Contents(), scope.gas;
      PathNowhere(sdb.db, s);
      var op := scope.Op();
      var entry := Table(op);
      if || entry.None? || |scope.stack| < entry.value.pops
         || |scope.stack| > STACK_LIMIT + entry.value.pops - entry.value.pushes {
        t := FailedTurn(scope, f, c);
        return Fail, t;
      }
      var ok := Charge(scope, op, c);
      if !ok {
        t := FailedTurn(scope, f, c);
        return Fail, t;
      }
      ghost var u, blank := sdb.Contents(), Turn(c, Now(scope), Shared(op), Alone, Fail, c);
      ghost var stored := if op == SSTORE then WillStore(scope, s, head) else u;
      out, t := Perform(scope, op, head, f, blank);
      WentOn(s, u, readOnly && (out.Continue? || out.Halt?));
      if op != SSTORE {
        if out.Continue? || out.Halt? {
          AccruesIdle(sdb.db, s, head, u, head);
          AccruesTransitive(sdb.db, s, head, u, head, sdb.Contents(), scope.gas);
        }
      } else if out.Continue? {
        StoredAs(scope, u, old(scope.stack), blank.paid.gas, stored);
      }
      ActedTurns(scope, f, op, blank, out, t);
    }

    /** The operation, then the increment of the program counter. */
    method Perform(scope: Scope, op: byte, ghost head: nat, ghost f: Frame, ghost blank: Turn)
      returns (out: Outcome, ghost t: Turn)
      requires Sound() && Cached() && op == scope.Op() && ReadyFor(scope, op, head)
      requires |scope.stack| <= STACK_LIMIT + Table(op).value.pops - Table(op).value.pushes
      requires |scope.code| < TWO_63 && scope.pc <= |scope.code| + 33
      requires scope.contract.code == scope.code && scope.contract.Own() && scope.contract.jumpdests == jumpdests
      requires honest ==> scope.OnTrack(codeOf)
      requires ContainsAddress(sdb.Contents().warm, scope.address)
      requires scope.gas <= head < TWO_64 && (scope.gas < head || IsHalt(op))
      requires f == FrameOf(scope) && blank.paid == Now(scope) && blank.share == Shared(op)
      modifies this, sdb, sdb.accessList, jumpdests, scope, scope.mem, scope.contract
      ensures Went(old(sdb.Contents()), readOnly && (out.Continue? || out.Halt?))
      ensures Steady() && scope.gas <= head && (out.Panic? ==> !honest)
      ensures (out.Continue? || out.Halt?) && op != SSTORE ==> Accrued(old(sdb.Contents()), head, scope.gas)
      ensures op == SSTORE ==> !out.Halt? && (readOnly ==> out.Fail?)
      ensures out.Continue? && op == SSTORE ==> Stored(scope, old(sdb.Contents()), old(scope.stack), old(scope.gas))
      ensures out.Continue? ==> scope.Ready() && scope.gas < head && (honest ==> scope.OnTrack(codeOf))
      ensures Acted(scope, f, op, blank, out, t)
      decreases head, 0, 3
    {
      hide Path, AllFit, Idle, Quiet, Valid, Consistent, CodeBitmap.IsStart, Memory.Fee, JumpCache.Analysed,
           JumpCache.Jumpdests.Valid, JumpCache.Jumpdests.Right, Database.Contents, ContainsAddress, Accrues,
           Interpreter.Inverse, Apply, Acts, FairTurn, Interpreter.ReadyFor, Interpreter.Stored, Interpreter.Trusted,
           Table;
      out, t := Execute(scope, op, head, f, blank);
      if out.Continue? {
        scope.pc := Wrap64((scope.pc as int) + 1);
      }
    }

    /** The turn is done: the frame is where the operation led. */
    ghost predicate Acted(scope: Scope, f: Frame, op: byte, blank: Turn, out: Outcome, t: Turn)
      reads `honest, sdb, sdb.accessList, scope, scope.mem
    {
      && t == blank.(deed := t.deed, out := out, after := Now(scope)) && Acts(sdb.db, env, f, op, t)
      && (honest ==> FairTurn(f, t))
    }

    /** The state once SSTORE has written its slot. */
    ghost function WillStore(scope: Scope, s: State, head: nat): (t: State)
      requires WillAccrue(scope, s, head, scope.gas)
      reads sdb, sdb.accessList, scope
      ensures Accrues(sdb.db, s, head, t, scope.gas)
      ensures InRange(sdb.Contents().warm) && |scope.stack| >= 2
      ensures t == Apply(sdb.db, sdb.Contents(), SetState(scope.address, Back(scope.stack, 0), Back(scope.stack, 1)))
    {
      Apply(sdb.db, sdb.Contents(), SetState(scope.address, Back(scope.stack, 0), Back(scope.stack, 1)))
    }

    lemma StoredAs(scope: Scope, s: State, stack: seq<nat>, gas: nat, t: State)
      requires Stored(scope, s, stack, gas)
      requires InRange(s.warm) && |stack| >= 2
      requires t == Apply(sdb.db, s, SetState(scope.address, Back(stack, 0), Back(stack, 1)))
      ensures sdb.Contents() == t && scope.gas == gas
    {
      hide Apply;
    }

    /** Without an operation, without room on the stack or without gas, the turn fails. */
    lemma FailedTurn(scope: Scope, f: Frame, c: Config) returns (t: Turn)
      requires var op := OpAt(f.code, c.pc); !Fits(op, c.stack) || !Affordable(sdb.db, f.address, op, c)
      ensures Turned(scope, f, c, Fail, t)
    {
      hide Affordable;
      t := Turn(c, c, 0, Alone, Fail, Now(scope));
    }

    /** A paid turn that did what its operation means is a turn of the frame. */
    lemma ActedTurns(scope: Scope, f: Frame, op: byte, blank: Turn, out: Outcome, t: Turn)
      requires Acted(scope, f, op, blank, out, t) && op == OpAt(f.code, blank.before.pc) && Fits(op, blank.before.stack)
      requires Affordable(sdb.db, f.address, op, blank.before)
      requires Pays(sdb.db, f.address, op, blank.before, blank.paid, blank.share)
      ensures Turned(scope, f, blank.before, out, t)
    {
      hide Affordable, Pays, Acts, FairTurn;
    }

    /** The gas a call operation has set aside is still covered by the gas at the start of the step. */
    ghost predicate SetAside(scope: Scope, op: byte, head: nat)
      requires Enough(op, scope.stack)
      reads this, scope
    {
      IsCall(op) ==>
        scope.gas + callGasTemp + (if Carried(op, scope.stack) != 0 then VALUE_TRANSFER else 0) + 100 <= head
    }

    /** The configuration behind an operation; one that goes on is followed by the increment. */
    ghost function After(scope: Scope, out: Outcome): Config
      reads sdb, sdb.accessList, scope, scope.mem
    {
      if out.Continue? then Now(scope).(pc := Wrap64((scope.pc as int) + 1)) else Now(scope)
    }

    /** The operation did what it means: `blank` is the turn before. */
    ghost predicate Took(scope: Scope, f: Frame, op: byte, blank: Turn, out: Outcome, t: Turn)
      reads `honest, sdb, sdb.accessList, scope, scope.mem
    {
      && t == blank.(deed := t.deed, out := out, after := After(scope, out)) && Acts(sdb.db, env, f, op, t)
      && (honest ==> FairTurn(f, t))
    }

    method Execute(scope: Scope, op: byte, ghost head: nat, ghost f: Frame, ghost blank: Turn)
      returns (out: Outcome, ghost t: Turn)
      requires Sound() && Cached() && op == scope.Op() && ReadyFor(scope, op, head)
      requires |scope.stack| <= STACK_LIMIT + Table(op).value.pops - Table(op).value.pushes
      requires |scope.code| < TWO_63 && scope.pc <= |scope.code| + 33
      requires scope.contract.code == scope.code && scope.contract.Own() && scope.contract.jumpdests == jumpdests
      requires honest ==> scope.OnTrack(codeOf)
      requires ContainsAddress(sdb.Contents().warm, scope.address)
      requires scope.gas <= head < TWO_64 && (scope.gas < head || IsHalt(op))
      requires f == FrameOf(scope) && blank.paid == Now(scope) && blank.share == Shared(op)
      modifies this, sdb, sdb.accessList, jumpdests, scope, scope.mem, scope.contract
      ensures Went(old(sdb.Contents()), readOnly && (out.Continue? || out.Halt?))
      ensures Steady() && scope.gas <= head && (out.Panic? ==> !honest)
      ensures Took(scope, f, op, blank, out, t)
      ensures readOnly && op == SSTORE ==> out.Fail?
      ensures (out.Continue? || out.Halt?) && op != SSTORE ==> Accrued(old(sdb.Contents()), head, scope.gas)
      ensures out.Halt? ==> IsHalt(op)
      ensures out.Continue? && op == SSTORE ==> Stored(scope, old(sdb.Contents()), old(scope.stack), old(scope.gas))
      ensures out.Continue? ==>
                && scope.gas < head && scope.mem.Paid() && |scope.stack| <= STACK_LIMIT && scope.NextInRange(scope.pc)
                && scope.contract.Own()
                && (honest ==> scope.NextAtInstruction(scope.pc) && scope.contract.Honest(codeOf))
      decreases head, 0, 2
    {
      hide Path, AllFit, Idle, Quiet, Valid, Consistent, CodeBitmap.IsStart, Memory.Fee, WindowsInside,
           JumpCache.Analysed, JumpCache.Judged, JumpCache.Jumpdests.Valid, JumpCache.Jumpdests.Right,
           Database.Contents, ContainsAddress, Accrues, Interpreter.Inverse, Apply, Interpreter.Trusted,
           Interpreter.Took;
      PathNowhere(sdb.db, sdb.Contents());
      if IsHalt(op) {
        out, t := ExecuteHalt(scope, op, f, blank);
      } else {
        scope.StepOver();
        if IsStackOp(op) {
          out, t := ExecuteStack(scope, op, f, blank);
        } else if IsMemoryOp(op) {
          t := ExecuteMemory(scope, op, f, blank);
          out := Continue;
        } else if op == SLOAD || op == TLOAD {
          t := ExecuteLoad(scope, op, f, blank);
          out := Continue;
        } else if op == SSTORE || op == TSTORE {
          out, t := ExecuteStore(scope, op, f, blank);
        } else if IsCall(op) {
          out, t := ExecuteCall(scope, op, head, f, blank);
        } else {
          out, t := ExecuteCreate(scope, op, head, f, blank);
        }
      }
      if (out.Continue? || out.Halt?) && !IsCall(op) && !IsCreate(op) && op != SSTORE {
        AccruesIdle(sdb.db, old(sdb.Contents()), head, sdb.Contents(), scope.gas);
      }
    }

    /** SSTORE wrote its slot and used no further gas. */
    ghost predicate Stored(scope: Scope, s: State, stack: seq<nat>, gas: nat)
      reads sdb, sdb.accessList, scope`gas
    {
      && scope.gas == gas && InRange(s.warm) && |stack| >= 2
      && sdb.Contents() == Apply(sdb.db, s, SetState(scope.address, Back(stack, 0), Back(stack, 1)))
    }

    /** The stack operations of the scope. */
    method ExecuteStack(scope: Scope, op: byte, ghost f: Frame, ghost blank: Turn) returns (out: Outcome, ghost t: Turn)
      requires Cached() && IsStackOp(op) && Enough(op, scope.stack)
      requires |scope.code| < TWO_63 && scope.pc < |scope.code| && op == scope.code[scope.pc]
      requires scope.contract.code == scope.code && scope.contract.Own() && scope.contract.jumpdests == jumpdests
      requires honest ==> scope.OnTrack(codeOf)
      requires f == FrameOf(scope) && blank.paid == Now(scope)
      modifies jumpdests, scope`pc, scope`stack, scope.contract
      ensures Cached() && Took(scope, f, op, blank, out, t)
      ensures |scope.stack| == |old(scope.stack)| - Table(op).value.pops + Table(op).value.pushes
      ensures (out == Continue || out == Fail || out == Panic) && (out.Panic? ==> !honest)
      ensures out.Continue? ==>
                && scope.NextInRange(scope.pc) && scope.contract.Own()
                && (honest ==> scope.NextAtInstruction(scope.pc) && scope.contract.Honest(codeOf))
    {
      hide CodeBitmap.IsStart, JumpCache.Analysed, JumpCache.Judged, JumpCache.IsJumpdest, Scope.Pushed, Stacked, IsAlu,
           StackEntry, Table, AluEntry, Interpreter.Took, Database.Contents, MemoryActs, StateActs, HaltActs;
      Scope.StackOperands(op, scope.stack);
      StackTable(op);
      ghost var jumps := scope.Jumps(op);
      ghost var judged := if jumps then JumpCache.Judged(scope.contract.Subject(), scope.code, Back(scope.stack, 0))
                          else None;
      OwnJudge(scope, op);
      if op != JUMP && op != JUMPI {
        PushedStacks(scope, op, f);
      }
      out := scope.ExecuteStack(env, op, codeOf);
      t := blank.(deed := if jumps then Asked(judged) else Alone, out := out, after := After(scope, out));
      assert t.after == t.paid.(pc := t.after.pc, stack := scope.stack);
      Plainly(scope, f, op, blank, out, t);
    }

    /** An operation that starts no frame did what it means. */
    lemma Plainly(scope: Scope, f: Frame, op: byte, blank: Turn, out: Outcome, t: Turn)
      requires !IsCall(op) && !IsCreate(op) && PlainActs(sdb.db, env, f, op, t)
      requires t == blank.(deed := t.deed, out := out, after := After(scope, out)) && (honest ==> Fairly(f, t))
      ensures Took(scope, f, op, blank, out, t)
    {
      hide PlainActs, JumpCache.IsJumpdest, Database.Contents;
    }

    /** A jump, if it was one, was judged by its own code. */
    ghost predicate Fairly(f: Frame, t: Turn) {
      || t.deed == Alone
      || (t.deed.Asked? && t.paid.stack != []
          && t.deed.valid == Some(JumpCache.IsJumpdest(f.code, Back(t.paid.stack, 0))))
    }

    static lemma StackTable(op: byte)
      requires IsStackOp(op)
      ensures Table(op) == Some(StackEntry(op))
      ensures !IsCall(op) && !IsCreate(op) && (IsAlu(op) ==> op != JUMP && op != JUMPI)
    {
    }

    /** With honest hashes a jump is judged by the code it is in. */
    lemma OwnJudge(scope: Scope, op: byte)
      requires Cached() && IsStackOp(op) && Enough(op, scope.stack) && scope.contract.jumpdests == jumpdests
      requires scope.contract.code == scope.code && (honest ==> scope.OnTrack(codeOf))
      ensures honest && scope.Jumps(op) ==>
                JumpCache.Judged(scope.contract.Subject(), scope.code, Back(scope.stack, 0))
                == Some(JumpCache.IsJumpdest(scope.code, Back(scope.stack, 0)))
    {
      hide CodeBitmap.IsStart, JumpCache.Analysed, JumpCache.Judged, JumpCache.IsJumpdest;
      if honest && scope.Jumps(op) {
        JumpCache.OwnAnalysis(scope.code, Back(scope.stack, 0));
      }
    }

    /** Popping the operands and pushing the results is what the operation means. */
    lemma PushedStacks(scope: Scope, op: byte, f: Frame)
      requires IsStackOp(op) && Enough(op, scope.stack) && op != JUMP && op != JUMPI && f == FrameOf(scope)
      ensures |scope.stack| >= StackEntry(op).pops
      ensures scope.stack[..|scope.stack| - StackEntry(op).pops] + scope.Pushed(env, op)
              == Stacked(env, f, op, Now(scope))
    {
      hide Database.Contents;
      if DUP1 <= op <= SWAP16 {
        scope.MovedWords(env, op);
      } else {
        assert scope.stack[..|scope.stack|] == scope.stack;
      }
    }

    /** The memory operations of the scope. */
    method ExecuteMemory(scope: Scope, op: byte, ghost f: Frame, ghost blank: Turn) returns (ghost t: Turn)
      requires IsMemoryOp(op) && Enough(op, scope.stack) && WindowsInside(op, scope.stack, |scope.mem.store|)
      requires scope.mem.Paid() && scope.pc < TWO_64 - 1 && blank.paid == Now(scope)
      modifies scope`stack, scope.mem`store
      ensures scope.mem.Paid() && Took(scope, f, op, blank, Continue, t)
      ensures |scope.stack| == |old(scope.stack)| - Table(op).value.pops + Table(op).value.pushes
    {
      hide Table, Memory.Fee, WindowsInside, Remembers, Interpreter.Took, Database.Contents, StackActs, StateActs,
           HaltActs;
      scope.ExecuteMemory(op);
      t := blank.(deed := Alone, out := Continue, after := After(scope, Continue));
      Plainly(scope, f, op, blank, Continue, t);
    }

    /** STOP, RETURN, REVERT and SELFDESTRUCT (EIP-6780). */
    method ExecuteHalt(scope: Scope, op: byte, ghost f: Frame, ghost blank: Turn) returns (out: Outcome, ghost t: Turn)
      requires Sound() && IsHalt(op) && Enough(op, scope.stack) && WindowsInside(op, scope.stack, |scope.mem.store|)
      requires f == FrameOf(scope) && blank.paid == Now(scope)
      modifies sdb, sdb.accessList
      ensures Went(old(sdb.Contents()), readOnly && out.Halt?) && Idled(old(sdb.Contents()))
      ensures !out.Continue? && !out.Panic? && Took(scope, f, op, blank, out, t)
    {
      hide Path, AllFit, Idle, Quiet, Valid, Consistent, Same, Destructs, Interpreter.Took, ToAddress, StackActs,
           StateActs, MemoryActs;
      ghost var s := sdb.Contents();
      PathNowhere(sdb.db, s);
      if op == STOP {
        out := Halt([]);
      } else if op == SELFDESTRUCT {
        if readOnly {
          out := Fail;
        } else {
          ghost var _ := Selfdestruct(scope.address, ToAddress(Back(scope.stack, 0)));
          out := Halt([]);
        }
      } else {
        var offset, size := Back(scope.stack, 0), Back(scope.stack, 1);
        var bytes := scope.mem.Get(offset, size);
        InputIsWindow(bytes, scope.mem.store, offset, size);
        out := if op == RETURN then Halt(bytes) else Outcome.Revert(bytes);
      }
      t := blank.(deed := Alone, out := out, after := After(scope, out));
      Plainly(scope, f, op, blank, out, t);
    }

    /**
     opSelfdestruct6780: the balance moves, the account goes only if it was made in this transaction. The total of
     the balances is kept exactly when there was nothing to move or the beneficiary has a record.
     */
    method Selfdestruct(address: Address, beneficiary: Address) returns (ghost t: State)
      requires Sound()
      modifies sdb, sdb.accessList
      ensures Went(old(sdb.Contents()), false) && Idled(old(sdb.Contents()))
      ensures Same(sdb.db, old(sdb.Contents()), t)
      ensures var balance := GetBalance(sdb.db, old(sdb.Contents()), address);
              var moved := Moved(t, address, beneficiary, balance);
              InRange(moved.warm) && sdb.Contents() == Apply(sdb.db, moved, SelfDestruct6780(address))
      ensures Destructs(sdb.db, old(sdb.Contents()), address, beneficiary, sdb.Contents())
      ensures var s := old(sdb.Contents());
              !Get(s, address).created && !HasSuicided(s, address) ==>
                && !HasSuicided(sdb.Contents(), address)
                && SameBut(sdb.db, s, sdb.Contents(), address)
                && SameBut(sdb.db, s, Finalise(sdb.Contents()), address)
      ensures forall accounts: set<Address> :: address in accounts && beneficiary in accounts ==>
                var db, s := sdb.db, old(sdb.Contents());
                (Balances.TotalOf(db, sdb.Contents(), accounts) == Balances.TotalOf(db, s, accounts)
                 <==> GetBalance(db, s, address) == 0 || Known(db, s, beneficiary))
    {
      hide Path, AllFit, Idle, Quiet, Valid, Consistent, Same, GetBalance, Known, Balances.TotalOf, Destroy, Shift,
           Finalise, SameBut, Apply, Moved;
      ghost var s := sdb.Contents();
      var balance := BalanceOf(address);
      t := sdb.Contents();
      SameIsSeen(sdb.db, s, t);
      SolventReads(t, address);
      Pay(address, beneficiary, balance);
      WentOn(s, t, false);
      ghost var v := sdb.Contents();
      Do(SelfDestruct6780(address));
      WentOn(s, v, false);
      ghost var end := sdb.Contents();
      DestructsMarks(sdb.db, s, address, beneficiary, end, address);
      forall b ensures GetBalance(sdb.db, end, b) == GetBalance(sdb.db, v, b) {
        DestroyKeepsBalance(sdb.db, v, address, b);
      }
      forall accounts: set<Address> | address in accounts && beneficiary in accounts
        ensures Balances.TotalOf(sdb.db, end, accounts) == Balances.TotalOf(sdb.db, s, accounts)
                <==> GetBalance(sdb.db, s, address) == 0 || Known(sdb.db, s, beneficiary)
      {
        Balances.SelfdestructTotal(sdb.db, s, t, address, beneficiary, end, accounts);
      }
    }

    /** SLOAD and TLOAD. */
    method ExecuteLoad(scope: Scope, op: byte, ghost f: Frame, ghost blank: Turn) returns (ghost t: Turn)
      requires Sound() && (op == SLOAD || op == TLOAD) && Enough(op, scope.stack) && scope.pc < TWO_64 - 1
      requires f == FrameOf(scope) && blank.paid == Now(scope)
      modifies sdb`objects, scope`stack
      ensures Read(old(sdb.Contents()))
      ensures |scope.stack| == |old(scope.stack)| - Table(op).value.pops + Table(op).value.pushes
      ensures Took(scope, f, op, blank, Continue, t)
    {
      hide Path, AllFit, Idle, Quiet, Valid, Consistent, Same, GetState, Interpreter.Took, StackActs, HaltActs,
           MemoryActs, Interpreter.Read;
      ghost var s := sdb.Contents();
      Journal.ValidRange(s.warm);
      var k := Back(scope.stack, 0);
      if op == SLOAD {
        var v := SlotAt(scope.address, k);
        scope.Replace(1, [v]);
      } else {
        Journal.SameReflexive(sdb.db, s);
        IsRead(s);
        var m := sdb.transient;
        var v: nat := FindTransient(m, scope.address, k);
        scope.Replace(1, [v]);
      }
      t := blank.(deed := Alone, out := Continue, after := After(scope, Continue));
      ReadIsSame(s);
      Plainly(scope, f, op, blank, Continue, t);
    }

    lemma ReadIsSame(s: State)
      requires Read(s)
      ensures Same(sdb.db, s, sdb.Contents())
    {
    }

    /** SSTORE and TSTORE. */
    method ExecuteStore(scope: Scope, op: byte, ghost f: Frame, ghost blank: Turn) returns (out: Outcome, ghost t: Turn)
      requires Sound() && (op == SSTORE || op == TSTORE) && Enough(op, scope.stack) && scope.pc < TWO_64 - 1
      requires f == FrameOf(scope) && blank.paid == Now(scope)
      modifies sdb, sdb.accessList, scope`stack
      ensures Went(old(sdb.Contents()), readOnly && out.Continue?) && (op != SSTORE ==> Idled(old(sdb.Contents())))
      ensures out == if readOnly then Fail else Continue
      ensures out.Continue? ==> |scope.stack| == |old(scope.stack)| - Table(op).value.pops + Table(op).value.pushes
      ensures out.Continue? && op == SSTORE ==> Stored(scope, old(sdb.Contents()), old(scope.stack), old(scope.gas))
      ensures Took(scope, f, op, blank, out, t)
    {
      hide Path, AllFit, Idle, Quiet, Valid, Consistent, Same, Apply, GetState, Interpreter.Took, StackActs,
           HaltActs, MemoryActs;
      PathNowhere(sdb.db, sdb.Contents());
      Journal.ValidRange(sdb.Contents().warm);
      var k, v := Back(scope.stack, 0), Back(scope.stack, 1);
      out := Fail;
      if !readOnly {
        Do(if op == SSTORE then SetState(scope.address, k, v) else SetTransientState(scope.address, k, v));
        scope.Replace(2, []);
        out := Continue;
      }
      t := blank.(deed := Alone, out := out, after := After(scope, out));
      Plainly(scope, f, op, blank, out, t);
    }

    /** What a call came to. */
    ghost predicate Replied(q: Request, s: State, ret: seq<byte>, left: nat, status: Status, k: Calling)
      reads `honest, sdb, sdb.accessList
    {
      && k == Calling(q, s, k.course, Answer(ret, left, status, sdb.Contents())) && Calls(sdb.db, env, k)
      && (honest ==> FairCalling(k))
    }

    /** opCall, opCallCode, opDelegateCall and opStaticCall. */
    method ExecuteCall(scope: Scope, op: byte, ghost head: nat, ghost f: Frame, ghost blank: Turn)
      returns (out: Outcome, ghost t: Turn)
      requires Sound() && Cached() && IsCall(op) && ReadyFor(scope, op, head) && head < TWO_64 && scope.pc < TWO_64 - 1
      requires ContainsAddress(sdb.Contents().warm, scope.address)
      requires f == FrameOf(scope) && blank.paid == Now(scope) && blank.share == Shared(op)
      modifies this, sdb, sdb.accessList, jumpdests, scope`stack, scope`gas, scope.mem`store
      ensures Went(old(sdb.Contents()), readOnly && out.Continue?) && (out == Continue || out == Fail || out == Panic)
      ensures Steady() && scope.gas < head && scope.mem.Paid() && (out.Panic? ==> !honest)
      ensures out.Continue? ==> Accrued(old(sdb.Contents()), head, scope.gas)
      ensures out.Continue? ==> |scope.stack| == |old(scope.stack)| - Table(op).value.pops + 1
      ensures Took(scope, f, op, blank, out, t)
      decreases head, 0, 0
    {
      hide Path, AllFit, Idle, Quiet, Valid, Consistent, Memory.Fee, Table, WindowsInside, JumpCache.Jumpdests.Valid,
           JumpCache.Jumpdests.Right, Database.Contents, ContainsAddress, Accrues, Interpreter.Inverse,
           Interpreter.Trusted, Interpreter.Took, Calls, FairCalling, Requested, CallResumes, ToAddress;
      ghost var s, p := sdb.Contents(), Now(scope);
      PathNowhere(sdb.db, s);
      CallOperands(op, scope.stack, |scope.mem.store|);
      var addr, value := Callee(scope.stack), Carried(op, scope.stack);
      var shift := if op == CALL || op == CALLCODE then 3 else 2;
      var input := scope.mem.Get(Back(scope.stack, shift), Back(scope.stack, shift + 1));
      InputIsWindow(input, scope.mem.store, Back(scope.stack, shift), Back(scope.stack, shift + 1));
      var retOffset, retSize := Back(scope.stack, shift + 2), Back(scope.stack, shift + 3);
      if op == CALL && readOnly && value != 0 {
        t := Forbidden(scope, f, op, blank);
        return Fail, t;
      }
      var gas: uint64 := callGasTemp + if value != 0 then STIPEND else 0;
      ghost var q := Request(op, scope.address, scope.caller, scope.value, addr, input, gas, value, readOnly, depth);
      IsRequested(f, op, p, Shared(op), q);
      out, t := Send(scope, op, addr, input, gas, value, retOffset, retSize, head, f, blank, q);
    }

    /** The call itself, and what the caller makes of its answer. */
    method Send(scope: Scope, op: byte, addr: Address, input: seq<byte>, gas: uint64, value: nat, retOffset: nat,
                retSize: nat, ghost head: nat, ghost f: Frame, ghost blank: Turn, ghost q: Request)
      returns (out: Outcome, ghost t: Turn)
      requires Sound() && Cached() && IsCall(op) && head < TWO_64 && scope.pc < TWO_64 - 1 && scope.mem.Paid()
      requires Enough(op, scope.stack) && WindowsInside(op, scope.stack, |scope.mem.store|)
      requires ContainsAddress(sdb.Contents().warm, scope.address) && ContainsAddress(sdb.Contents().warm, addr)
      requires value == Carried(op, scope.stack) && !(op == CALL && readOnly && value != 0) && scope.gas + gas < head
      requires var shift := if op == CALL || op == CALLCODE then 3 else 2;
               && |scope.stack| >= shift + 4
               && retOffset == Back(scope.stack, shift + 2) && retSize == Back(scope.stack, shift + 3)
      requires f == FrameOf(scope) && blank.paid == Now(scope)
      requires q == Request(op, scope.address, scope.caller, scope.value, addr, input, gas, value, readOnly, depth)
      requires q == Requested(f, op, blank.paid, blank.share)
      modifies this, sdb, sdb.accessList, jumpdests, scope`stack, scope`gas, scope.mem`store
      ensures Went(old(sdb.Contents()), readOnly && out.Continue?) && (out == Continue || out == Panic)
      ensures Steady() && scope.gas < head && scope.mem.Paid() && (out.Panic? ==> !honest)
      ensures out.Continue? ==> Accrued(old(sdb.Contents()), head, scope.gas)
      ensures out.Continue? ==> |scope.stack| == |old(scope.stack)| - Table(op).value.pops + 1
      ensures Took(scope, f, op, blank, out, t)
      decreases head, 0, 0, 0
    {
      hide Path, AllFit, Idle, Quiet, Valid, Consistent, Memory.Fee, Table, WindowsInside, JumpCache.Jumpdests.Valid,
           JumpCache.Jumpdests.Right, Database.Contents, ContainsAddress, Accrues, Interpreter.Inverse,
           Interpreter.Trusted, Interpreter.Took, Calls, FairCalling, Requested, CallResumes, ToAddress;
      ghost var s, p := sdb.Contents(), Now(scope);
      ghost var k;
      var ret, left, status;
      ret, left, status, k := Dispatch(op, scope.address, scope.caller, scope.value, addr, input, gas, value, q);
      ghost var answer := Answer(ret, left, status, sdb.Contents());
      if status.Panicked? {
        t := CallPanics(scope, f, op, blank, q, answer, k);
        return Panic, t;
      }
      AccruesWithin(sdb.db, s, gas, sdb.Contents(), left, scope.gas, head, scope.gas + left);
      Resume(scope, op, ret, left, status, retOffset, retSize, p);
      returnData := ret;
      t := CallGoesOn(scope, f, op, blank, q, answer, k);
      return Continue, t;
    }

    /** The caller goes on behind its call. */
    method Resume(scope: Scope, op: byte, ret: seq<byte>, left: uint64, status: Status, retOffset: nat, retSize: nat,
                  ghost p: Config)
      requires IsCall(op) && Enough(op, scope.stack) && WindowsInside(op, scope.stack, |scope.mem.store|)
      requires p == Now(scope).(state := p.state) && scope.mem.Paid() && scope.pc < TWO_64 - 1
      requires var shift := if op == CALL || op == CALLCODE then 3 else 2;
               && |scope.stack| >= shift + 4
               && retOffset == Back(scope.stack, shift + 2) && retSize == Back(scope.stack, shift + 3)
      requires scope.gas + left < TWO_64 && !status.Panicked?
      modifies scope`stack, scope`gas, scope.mem`store
      ensures scope.mem.Paid() && scope.gas == old(scope.gas) + left
      ensures |scope.stack| == |old(scope.stack)| - Table(op).value.pops + 1
      ensures CallResumes(op, p, Answer(ret, left, status, sdb.Contents()), Continue, After(scope, Continue))
    {
      hide Memory.Fee, Table, WindowsInside, Received, Database.Contents;
      CallOperands(op, scope.stack, |scope.mem.store|);
      Return(scope, if op == CALL || op == CALLCODE then 7 else 6, ret, left, status, retOffset, retSize);
    }

    lemma Forbidden(scope: Scope, f: Frame, op: byte, blank: Turn) returns (t: Turn)
      requires Enough(op, blank.paid.stack) && WindowsInside(op, blank.paid.stack, |blank.paid.memory|)
      requires f.readOnly && if op == CALL then Carried(op, blank.paid.stack) != 0 else IsCreate(op)
      ensures Took(scope, f, op, blank, Fail, t)
    {
      hide WindowsInside, Database.Contents;
      t := blank.(deed := Alone, out := Fail, after := After(scope, Fail));
      assert if op == CALL then CallActs(sdb.db, env, f, op, t) else CreateActs(sdb.db, env, f, op, t);
    }

    static lemma IsRequested(f: Frame, op: byte, p: Config, share: nat, q: Request)
      requires IsCall(op) && Enough(op, p.stack) && WindowsInside(op, p.stack, |p.memory|)
      requires q.op == op && q.self == f.address && q.caller == f.caller && q.own == f.value
      requires q.target == Callee(p.stack) && q.value == Carried(op, p.stack)
      requires q.gas == share + (if q.value != 0 then STIPEND else 0) && q.readOnly == f.readOnly && q.depth == f.depth
      requires var at := if op == CALL || op == CALLCODE then 3 else 2;
               && |p.stack| >= at + 2 && Inside(Back(p.stack, at), Back(p.stack, at + 1), |p.memory|)
               && q.input == Window(p.memory, Back(p.stack, at), Back(p.stack, at + 1))
      ensures q == Requested(f, op, p, share)
    {
      hide WindowsInside, Table;
    }

    lemma CallPanics(scope: Scope, f: Frame, op: byte, blank: Turn, q: Request, answer: Answer, k: Calling)
      returns (t: Turn)
      requires IsCall(op) && Enough(op, blank.paid.stack)
      requires WindowsInside(op, blank.paid.stack, |blank.paid.memory|)
      requires !(op == CALL && f.readOnly && Carried(op, blank.paid.stack) != 0)
      requires q == Requested(f, op, blank.paid, blank.share)
      requires k == Calling(q, blank.paid.state, k.course, answer) && answer.status.Panicked?
      requires Calls(sdb.db, env, k) && (honest ==> FairCalling(k))
      ensures Took(scope, f, op, blank, Panic, t)
    {
      hide WindowsInside, Table, Calls, FairCalling, Requested, Received;
      t := blank.(deed := Called(k), out := Panic, after := After(scope, Panic));
      assert CallActs(sdb.db, env, f, op, t);
    }

    /** Back in the caller. */
    lemma CallGoesOn(scope: Scope, f: Frame, op: byte, blank: Turn, q: Request, answer: Answer, k: Calling)
      returns (t: Turn)
      requires IsCall(op) && Enough(op, blank.paid.stack)
      requires WindowsInside(op, blank.paid.stack, |blank.paid.memory|)
      requires !(op == CALL && f.readOnly && Carried(op, blank.paid.stack) != 0)
      requires q == Requested(f, op, blank.paid, blank.share)
      requires k == Calling(q, blank.paid.state, k.course, answer) && !answer.status.Panicked?
      requires Calls(sdb.db, env, k) && (honest ==> FairCalling(k))
      requires CallResumes(op, blank.paid, answer, Continue, After(scope, Continue))
      ensures Took(scope, f, op, blank, Continue, t)
    {
      hide WindowsInside, Table, Calls, FairCalling, Requested, CallResumes;
      t := blank.(deed := Called(k), out := Continue, after := After(scope, Continue));
      assert CallActs(sdb.db, env, f, op, t);
    }

    /** Back in the caller: the flag, the return data and the gas that is left. */
    method Return(scope: Scope, pops: nat, ret: seq<byte>, left: uint64, status: Status, retOffset: nat, retSize: nat)
      requires scope.mem.Paid() && Inside(retOffset, retSize, |scope.mem.store|) && pops <= |scope.stack|
      requires scope.gas + left < TWO_64 && !status.Panicked?
      modifies scope`stack, scope`gas, scope.mem`store
      ensures scope.mem.Paid() && scope.gas == old(scope.gas) + left && |scope.mem.store| == |old(scope.mem.store)|
      ensures scope.stack == old(scope.stack)[..|old(scope.stack)| - pops] + [if status.Success? then 1 else 0]
      ensures scope.mem.store == Received(old(scope.mem.store), retOffset, retSize, ret, status)
    {
      hide Memory.Fee;
      scope.Replace(pops, [if status.Success? then 1 else 0]);
      if !status.Failed? {
        scope.mem.Set(retOffset, retSize, ret);
        ghost var bytes := if |ret| < retSize then ret else ret[..retSize];
        assert |bytes| > 0 ==> scope.mem.store[retOffset..retOffset + |bytes|] == bytes;
        IsWritten(old(scope.mem.store), retOffset, bytes, scope.mem.store);
      }
      scope.gas := (scope.gas as int) + left;
    }

    /** Where the operands of the call operations are, and that both windows lie in memory. */
    static lemma CallOperands(op: byte, stack: seq<nat>, size: nat)
      requires IsCall(op) && Enough(op, stack) && WindowsInside(op, stack, size)
      ensures var shift := if op == CALL || op == CALLCODE then 3 else 2;
              && Table(op).value == Entry(shift + 4, 1, 100) && |stack| >= shift + 4
              && Inside(Back(stack, shift), Back(stack, shift + 1), size)
              && Inside(Back(stack, shift + 2), Back(stack, shift + 3), size)
    {
    }

    method Dispatch(op: byte, address: Address, caller: Address, own: nat, addr: Address, input: seq<byte>, gas: uint64,
                    value: nat, ghost q: Request)
      returns (ret: seq<byte>, left: uint64, status: Status, ghost k: Calling)
      requires Sound() && Cached() && IsCall(op) && (op == CALL && readOnly ==> value == 0)
      requires ContainsAddress(sdb.Contents().warm, address) && ContainsAddress(sdb.Contents().warm, addr)
      requires q == Request(op, address, caller, own, addr, input, gas, value, readOnly, depth)
      modifies this, sdb, sdb.accessList, jumpdests
      ensures Went(old(sdb.Contents()), readOnly && !status.Panicked?)
      ensures left <= gas && Steady() && (status.Panicked? ==> !honest)
      ensures !status.Panicked? ==> Accrued(old(sdb.Contents()), gas, left)
      ensures Replied(q, old(sdb.Contents()), ret, left, status, k)
      decreases gas, 6
    {
      hide Path, AllFit, Idle, Quiet, Valid, Consistent, JumpCache.Jumpdests.Valid, JumpCache.Jumpdests.Right,
           Accrues, Interpreter.Inverse, Interpreter.Trusted, Interpreter.Replied;
      if op == CALL {
        ret, left, status, k := Call(address, addr, input, gas, value, q);
      } else if op == CALLCODE {
        ret, left, status, k := CallCode(address, addr, input, gas, value, q);
      } else if op == DELEGATECALL {
        ret, left, status, k := DelegateCall(address, caller, own, addr, input, gas, q);
      } else {
        ret, left, status, k := StaticCall(address, addr, input, gas, q);
      }
    }

    /** Transfer: nothing at all for an amount of zero. */
    method Transfer(from: Address, to: Address, amount: nat)
      requires Sound() && (amount == 0 || from == to || GetBalance(sdb.db, sdb.Contents(), from) >= amount)
      modifies sdb, sdb.accessList
      ensures Went(old(sdb.Contents()), amount == 0) && Idled(old(sdb.Contents()))
      ensures InRange(old(sdb.Contents()).warm) && sdb.Contents() == Moved(old(sdb.Contents()), from, to, amount)
    {
      hide Path, AllFit, Idle, Quiet, Valid, Consistent, Shift, GetBalance, Solvent;
      PathNowhere(sdb.db, sdb.Contents());
      Pay(from, to, amount);
    }

    lemma SolventReads(s: State, a: Address)
      ensures Solvent(sdb.db, s) ==> GetBalance(sdb.db, s, a) >= 0
    {
    }

    lemma ZeroAmount(s: State, a: Address)
      requires Valid(s.warm)
      ensures InRange(s.warm)
      ensures Apply(sdb.db, s, SubBalance(a, 0)) == s && Apply(sdb.db, s, AddBalance(a, 0)) == s
    {
    }

    /**
     The part the four call methods share: a precompile or the code of the target, then the revert on an
     error. `s` is the state at the snapshot, `q` what was asked for.
     */
    method Enter(ghost s: State, snapshot: nat, target: Address, input: seq<byte>, address: Address, caller: Address,
                 value: nat, gas: uint64, lookup: Lookup, ghost q: Request)
      returns (ret: seq<byte>, left: uint64, status: Status, ghost run: Option<Run>)
      requires Cached() && snapshot == |s.journal| && Valid(s.warm) && Went(s, readOnly || lookup.Direct?)
      requires ContainsAddress(sdb.Contents().warm, address) && Idled(s)
      requires q.target == target && q.input == input && q.gas == gas && (lookup.Direct? <==> q.op == STATICCALL)
      requires FrameFor(q, []) == Frame(address, caller, value, [], readOnly || lookup.Direct?, depth + 1)
      modifies this, sdb, sdb.accessList, jumpdests
      ensures Went(s, (readOnly || lookup.Direct?) && !status.Panicked?)
      ensures status.Reverted? || status.Failed? ==> Same(sdb.db, s, sdb.Contents())
      ensures status.Success? ==> Path(sdb.db, old(sdb.Contents()), sdb.Contents())
      ensures left <= gas && Steady() && (status.Panicked? ==> !honest)
      ensures !status.Panicked? ==> Accrued(s, gas, left)
      ensures Visited(q, s, old(sdb.Contents()), ret, left, status, run)
      decreases gas, 4
    {
      hide Path, AllFit, Idle, Quiet, Valid, Consistent, Same, JumpCache.Jumpdests.Valid, JumpCache.Jumpdests.Right,
           Accrues, Interpreter.Inverse, Interpreter.Visited, GetCode, ResolvedCode, Interpreter.Trusted, Entering,
           FairRun, FrameFor, Database.Contents, ContainsAddress;
      ghost var entry := sdb.Contents();
      ghost var inner;
      PathNowhere(sdb.db, entry);
      if target in env.precompiles {
        ret, left, status := RunPrecompiled(target, input, gas);
        run, inner := None, Answer(ret, left, status, entry);
        AccruesIdle(sdb.db, s, gas, sdb.Contents(), left);
      } else {
        ghost var ran;
        ret, left, status, ran := Visit(target, address, caller, value, gas, lookup, q);
        run, inner := Some(ran), Answer(ret, left, status, sdb.Contents());
        WentOn(s, entry, (readOnly || lookup.Direct?) && status.Success?);
        if status.Success? {
          AccruesIdle(sdb.db, s, gas, entry, gas);
          AccruesTransitive(sdb.db, s, gas, entry, gas, sdb.Contents(), left);
        }
      }
      if !status.Panicked? {
        left := Finish(s, snapshot, left, status);
        if !status.Success? {
          AccruesIdle(sdb.db, s, gas, sdb.Contents(), left);
        }
      }
      Visits(q, s, entry, inner, ret, left, status, run);
    }

    /** The code of the target runs in the frame of the request. */
    method Visit(target: Address, address: Address, caller: Address, value: nat, gas: uint64, lookup: Lookup,
                 ghost q: Request)
      returns (ret: seq<byte>, left: uint64, status: Status, ghost run: Run)
      requires Sound() && Cached() && ContainsAddress(sdb.Contents().warm, address)
      requires q.target == target && q.gas == gas && (lookup.Direct? <==> q.op == STATICCALL)
      requires FrameFor(q, []) == Frame(address, caller, value, [], readOnly || lookup.Direct?, depth + 1)
      modifies this, sdb, sdb.accessList, jumpdests
      ensures Went(old(sdb.Contents()), (readOnly || lookup.Direct?) && status.Success?)
      ensures left <= gas && Steady() && (status.Panicked? ==> !honest)
      ensures status.Success? ==> Accrued(old(sdb.Contents()), gas, left)
      ensures run.answer == Answer(ret, left, status, sdb.Contents()) && (honest ==> FairRun(run))
      ensures Entering(sdb.db, env, q, old(sdb.Contents()), run)
      decreases gas, 4, 0
    {
      hide Path, AllFit, Idle, Quiet, Valid, Consistent, Same, JumpCache.Jumpdests.Valid, JumpCache.Jumpdests.Right,
           Accrues, Interpreter.Inverse, Interpreter.Did, GetCode, ResolvedCode, Interpreter.Trusted, Fitting, Entering,
           FairRun, Database.Contents, ContainsAddress;
      ghost var entry := sdb.Contents();
      var code, hash := Load(target, lookup);
      StaysWarm(entry, address);
      ghost var t := sdb.Contents();
      StaysTrusted();
      Decoded(code, hash);
      ret, left, status, run := Run(address, caller, value, code, hash, gas, lookup.Direct?);
      Ran(q, entry, t, code, ret, left, status, run);
      WentOn(entry, t, (readOnly || lookup.Direct?) && status.Success?);
      if status.Success? {
        AccruesIdle(sdb.db, entry, gas, t, gas);
        AccruesTransitive(sdb.db, entry, gas, t, gas, sdb.Contents(), left);
      }
    }

    /** What came of entering the target: its frame ran for `q`, or its precompile. */
    ghost predicate Visited(q: Request, s: State, begun: State, ret: seq<byte>, left: nat, status: Status,
                            run: Option<Run>)
      reads `honest, sdb, sdb.accessList
    {
      && Enters(sdb.db, env, q, s, begun, run, Answer(ret, left, status, sdb.Contents()))
      && (honest && run.Some? ==> FairRun(run.value))
    }

    /** The frame is the one that was asked for. */
    lemma Ran(q: Request, begun: State, t: State, code: seq<byte>, ret: seq<byte>, left: nat, status: Status, run: Run)
      requires Did(FrameFor(q, code), t, q.gas, ret, left, status, run) && code == CodeFor(sdb.db, q, begun)
      requires Same(sdb.db, begun, t)
      ensures Entering(sdb.db, env, q, begun, run) && (honest ==> FairRun(run))
      ensures run.answer == Answer(ret, left, status, sdb.Contents())
    {
      hide Same, GetCode, ResolvedCode, Runs, FairRun;
    }

    lemma Visits(q: Request, s: State, begun: State, inner: Answer, ret: seq<byte>, left: nat, status: Status,
                 run: Option<Run>)
      requires inner.ret == ret && inner.status == status
      requires status.Success? ==> sdb.Contents() == inner.end
      requires status.Reverted? || status.Failed? ==> Same(sdb.db, s, sdb.Contents())
      requires !status.Panicked? ==> left == if status.Failed? then 0 else inner.left
      requires if q.target in env.precompiles then run.None? && Precompiled(env, q, begun, inner)
               else run.Some? && run.value.answer == inner && Entering(sdb.db, env, q, begun, run.value)
      requires honest && run.Some? ==> FairRun(run.value)
      ensures Visited(q, s, begun, ret, left, status, run)
    {
      hide Same, Entering, FairRun;
    }

    /** Something idle before the frame. */
    lemma AccruesLater(s: State, t: State, gas: int, left: int, status: Status)
      requires Idle(sdb.db, s, t) && (!status.Panicked? ==> Accrued(t, gas, left))
      ensures !status.Panicked? ==> Accrued(s, gas, left)
    {
      hide Idle, Accrues;
      if !status.Panicked? {
        AccruesIdle(sdb.db, s, gas, t, gas);
        AccruesTransitive(sdb.db, s, gas, t, gas, sdb.Contents(), left);
      }
    }

    /** The code to run and its hash. */
    method Load(target: Address, lookup: Lookup) returns (code: seq<byte>, hash: Hash)
      requires Sound()
      modifies sdb`objects
      ensures Went(old(sdb.Contents()), true) && Idled(old(sdb.Contents()))
      ensures Same(sdb.db, old(sdb.Contents()), sdb.Contents())
      ensures Fitting(sdb.db, sdb.Contents(), code, hash)
      ensures code ==
              if lookup.Direct? then GetCode(sdb.db, old(sdb.Contents()), target)
              else ResolvedCode(sdb.db, old(sdb.Contents()), target)
    {
      hide Path, AllFit, Idle, Quiet, Valid, Consistent, Same, GetCode, LoadCode, StateCaches.CodeHash;
      ghost var s := sdb.Contents();
      match lookup
      case CodeFirst =>
        code := ResolveCode(target);
        hash := 0;
        if code != [] {
          ghost var t := sdb.Contents();
          SameIsSeen(sdb.db, s, t);
          hash := ResolveHash(target);
          Journal.SameTransitive(sdb.db, s, t, sdb.Contents());
          WentOn(s, t, true);
        }
      case HashFirst =>
        hash := ResolveHash(target);
        ghost var t := sdb.Contents();
        SameIsSeen(sdb.db, s, t);
        code := ResolveCode(target);
        Journal.SameTransitive(sdb.db, s, t, sdb.Contents());
        FittingSame(sdb.db, t, sdb.Contents(), code, hash);
        WentOn(s, t, true);
      case Direct =>
        hash := CodeHashAt(target);
        ghost var t := sdb.Contents();
        SameIsSeen(sdb.db, s, t);
        ReportedFits(sdb.db, s, target);
        FittingSame(sdb.db, s, t, GetCode(sdb.db, s, target), hash);
        code := CodeAt(target);
        Journal.SameTransitive(sdb.db, s, t, sdb.Contents());
        FittingSame(sdb.db, t, sdb.Contents(), code, hash);
        WentOn(s, t, true);
    }

    /** Where hashes fit and hashing is injective, the code is the one its hash belongs to. */
    lemma Decoded(code: seq<byte>, hash: Hash)
      requires Fitting(sdb.db, sdb.Contents(), code, hash)
      ensures Trusted() && !Inert(code) && hash != 0 ==> code == codeOf(hash)
    {
      hide AllFit;
    }

    method Call(caller: Address, addr: Address, input: seq<byte>, gas: uint64, value: nat, ghost q: Request)
      returns (ret: seq<byte>, left: uint64, status: Status, ghost k: Calling)
      requires Sound() && Cached() && ContainsAddress(sdb.Contents().warm, addr) && (readOnly ==> value == 0)
      requires q == Request(CALL, caller, q.caller, q.own, addr, input, gas, value, readOnly, depth)
      modifies this, sdb, sdb.accessList, jumpdests
      ensures Went(old(sdb.Contents()), readOnly && !status.Panicked?)
      ensures status.Reverted? || status.Failed? ==> Same(sdb.db, old(sdb.Contents()), sdb.Contents())
      ensures Replied(q, old(sdb.Contents()), ret, left, status, k)
      ensures status.Success? && k.course.Entered? ==> Path(sdb.db, k.course.begun, sdb.Contents())
      ensures left <= gas && Steady() && (status.Panicked? ==> !honest)
      ensures !status.Panicked? ==> Accrued(old(sdb.Contents()), gas, left)
      decreases gas, 5
    {
      hide Path, AllFit, Idle, Quiet, Valid, Consistent, Same, StateCaches.Exist, CallBegins, GetBalance,
           JumpCache.Jumpdests.Valid, JumpCache.Jumpdests.Right, Database.Contents, ContainsAddress, Moved, Accrues,
           Interpreter.Inverse, Interpreter.Replied, Interpreter.Visited, Interpreter.Trusted, Apply, InRange,
           JumpCache.Analysed, Solvent;
      ghost var s := sdb.Contents();
      Journal.SameReflexive(sdb.db, s);
      IsRead(s);
      AccruesIdle(sdb.db, s, gas, s, gas);
      if depth > CALL_CREATE_DEPTH {
        k := Refuses(q, s);
        return [], gas, Failed, k;
      }
      if value != 0 {
        var balance := BalanceOf(caller);
        AccruesIdle(sdb.db, s, gas, sdb.Contents(), gas);
        if balance < value {
          k := Refuses(q, s);
          return [], gas, Failed, k;
        }
      }
      ghost var s0 := sdb.Contents();
      StaysWarm(s, addr);
      StaysTrusted();
      ret, left, status, k := Proceed(s, caller, addr, input, gas, value, q);
      WentOn(s, s0, readOnly && !status.Panicked?);
      AccruesLater(s, s0, gas, left, status);
      if status.Reverted? || status.Failed? {
        Journal.SameTransitive(sdb.db, s, s0, sdb.Contents());
      }
    }

    /** A call that is let through: the account if need be, the value, then the code. */
    method Proceed(ghost s: State, caller: Address, addr: Address, input: seq<byte>, gas: uint64, value: nat,
                   ghost q: Request)
      returns (ret: seq<byte>, left: uint64, status: Status, ghost k: Calling)
      requires Sound() && Cached() && ContainsAddress(sdb.Contents().warm, addr) && (readOnly ==> value == 0)
      requires q == Request(CALL, caller, q.caller, q.own, addr, input, gas, value, readOnly, depth)
      requires Same(sdb.db, s, sdb.Contents()) && (value == 0 ==> s == sdb.Contents())
      requires !Refusal(sdb.db, q, s) && (value == 0 || GetBalance(sdb.db, s, caller) >= value)
      modifies this, sdb, sdb.accessList, jumpdests
      ensures Went(old(sdb.Contents()), readOnly && !status.Panicked?)
      ensures status.Reverted? || status.Failed? ==> Same(sdb.db, old(sdb.Contents()), sdb.Contents())
      ensures left <= gas && Steady() && (status.Panicked? ==> !honest)
      ensures !status.Panicked? ==> Accrued(old(sdb.Contents()), gas, left)
      ensures status.Success? && k.course.Entered? ==> Path(sdb.db, k.course.begun, sdb.Contents())
      ensures Replied(q, s, ret, left, status, k)
      decreases gas, 5, 0
    {
      hide Path, AllFit, Idle, Quiet, Valid, Consistent, Same, StateCaches.Exist, CallBegins, GetBalance,
           JumpCache.Jumpdests.Valid, JumpCache.Jumpdests.Right, Database.Contents, ContainsAddress, Moved, Accrues,
           Interpreter.Inverse, Interpreter.Replied, Interpreter.Visited, Interpreter.Trusted, Apply, InRange,
           Refusal, Solvent;
      ghost var s0 := sdb.Contents();
      var snapshot := sdb.Snapshot();
      var isPrecompile := addr in env.precompiles;
      var exist := Exists(addr);
      ghost var asked := sdb.Contents();
      Journal.ValidRange(asked.warm);
      if !exist && !isPrecompile && value == 0 {
        AccruesIdle(sdb.db, s0, gas, asked, gas);
        k := IsAbsent(q, s);
        return [], gas, Success, k;
      }
      StaysWarm(s0, addr);
      if !exist {
        CreateNew(s0, addr);
        StaysWarm(s0, addr);
      }
      ghost var s1 := sdb.Contents();
      Payable(s, s0, asked, s1, caller, addr, value);
      Transfer(caller, addr, value);
      ghost var begun := sdb.Contents();
      Began(s, s0, asked, caller, addr, value, !exist, begun);
      StaysWarm(s1, addr);
      WentOn(s0, s1, readOnly);
      StaysTrusted();
      ghost var run;
      ret, left, status, run := Enter(s0, snapshot, addr, input, addr, caller, value, gas, CodeFirst, q);
      k := CallDone(q, s, s0, !exist, begun, ret, left, status, run);
    }

    lemma Refuses(q: Request, s: State) returns (k: Calling)
      requires Refusal(sdb.db, q, s) && Same(sdb.db, s, sdb.Contents())
      ensures Replied(q, s, [], q.gas, Failed, k) && !k.course.Entered?
    {
      hide Refusal, Same;
      k := Calling(q, s, Refused, Answer([], q.gas, Failed, sdb.Contents()));
    }

    lemma IsAbsent(q: Request, s: State) returns (k: Calling)
      requires !Refusal(sdb.db, q, s) && Absence(sdb.db, env, q, s) && Same(sdb.db, s, sdb.Contents())
      ensures Replied(q, s, [], q.gas, Success, k) && !k.course.Entered?
    {
      hide Refusal, Absence, Same;
      k := Calling(q, s, Absent, Answer([], q.gas, Success, sdb.Contents()));
    }

    lemma CallDone(q: Request, s: State, t: State, created: bool, begun: State, ret: seq<byte>, left: nat,
                   status: Status, run: Option<Run>)
      returns (k: Calling)
      requires q.op == CALL && !Refusal(sdb.db, q, s) && !Absence(sdb.db, env, q, s) && Same(sdb.db, s, t)
      requires CallBegins(sdb.db, s, q.self, q.target, q.value, created, begun)
      requires Visited(q, t, begun, ret, left, status, run)
      ensures Replied(q, s, ret, left, status, k) && k.course == Entered(begun, run)
    {
      hide Refusal, Absence, Same, CallBegins, Enters, FairRun;
      k := Calling(q, s, Entered(begun, run), Answer(ret, left, status, sdb.Contents()));
      EntersBySame(sdb.db, env, q, s, t, begun, run, k.answer);
    }

    /** The other calls move nothing before they enter. */
    lemma PlainDone(q: Request, s: State, t: State, ret: seq<byte>, left: nat, status: Status, run: Option<Run>)
      returns (k: Calling)
      requires q.op != CALL && !Refusal(sdb.db, q, s) && Same(sdb.db, s, t)
      requires Visited(q, t, t, ret, left, status, run)
      ensures Replied(q, s, ret, left, status, k) && k.course == Entered(t, run)
    {
      hide Refusal, Same, Enters, FairRun;
      k := Calling(q, s, Entered(t, run), Answer(ret, left, status, sdb.Contents()));
      EntersBySame(sdb.db, env, q, s, t, t, run, k.answer);
    }

    /** What the caller could pay at the check, it can still pay when the account has been created. */
    lemma Payable(s: State, t: State, u: State, v: State, caller: Address, addr: Address, value: nat)
      requires Same(sdb.db, s, t) && Same(sdb.db, t, u) && InRange(u.warm)
      requires v == u || v == Apply(sdb.db, u, CreateAccount(addr))
      requires value == 0 || GetBalance(sdb.db, s, caller) >= value
      ensures value == 0 || caller == addr || GetBalance(sdb.db, v, caller) >= value
    {
      hide Same, GetBalance, Apply;
      SameIsSeen(sdb.db, s, t);
      SameIsSeen(sdb.db, t, u);
      Balances.CreateElsewhere(sdb.db, u, addr, caller);
    }

    lemma Began(s: State, t: State, u: State, caller: Address, addr: Address, value: nat, created: bool, begun: State)
      requires Same(sdb.db, s, t) && Same(sdb.db, t, u) && InRange(u.warm)
               && created == !StateCaches.Exist(sdb.db, t, addr)
      requires begun == Moved(if created then Apply(sdb.db, u, CreateAccount(addr)) else u, caller, addr, value)
      ensures CallBegins(sdb.db, s, caller, addr, value, created, begun)
    {
      hide Same, Moved, StateCaches.Exist, Apply, InRange;
    }

    /** CreateAccount on an address that did not exist at `s`. */
    method CreateNew(ghost s: State, a: Address)
      requires Read(s) && !StateCaches.Exist(sdb.db, s, a)
      modifies sdb, sdb.accessList
      ensures Went(s, true) && Idled(s) && InRange(old(sdb.Contents()).warm)
      ensures sdb.Contents() == Apply(sdb.db, old(sdb.Contents()), CreateAccount(a))
    {
      hide Path, AllFit, Idle, Quiet, Valid, Consistent, Same, Apply, StateCaches.Exist;
      ghost var t := sdb.Contents();
      Journal.ValidRange(t.warm);
      QuietCreate(sdb.db, s, t, a);
      Do(CreateAccount(a));
      WentOn(s, t, false);
    }

    method CallCode(caller: Address, addr: Address, input: seq<byte>, gas: uint64, value: nat, ghost q: Request)
      returns (ret: seq<byte>, left: uint64, status: Status, ghost k: Calling)
      requires Sound() && Cached() && ContainsAddress(sdb.Contents().warm, caller)
      requires q == Request(CALLCODE, caller, q.caller, q.own, addr, input, gas, value, readOnly, depth)
      modifies this, sdb, sdb.accessList, jumpdests
      ensures Went(old(sdb.Contents()), readOnly && !status.Panicked?)
      ensures status.Reverted? || status.Failed? ==> Same(sdb.db, old(sdb.Contents()), sdb.Contents())
      ensures left <= gas && Steady() && (status.Panicked? ==> !honest)
      ensures !status.Panicked? ==> Accrued(old(sdb.Contents()), gas, left)
      ensures Replied(q, old(sdb.Contents()), ret, left, status, k)
      decreases gas, 5
    {
      hide Path, AllFit, Idle, Quiet, Valid, Consistent, Same, JumpCache.Jumpdests.Valid, JumpCache.Jumpdests.Right,
           Accrues, Interpreter.Inverse, Interpreter.Replied, Interpreter.Visited, GetBalance;
      ghost var s := sdb.Contents();
      Journal.SameReflexive(sdb.db, s);
      IsRead(s);
      AccruesIdle(sdb.db, s, gas, s, gas);
      if depth > CALL_CREATE_DEPTH {
        k := Refuses(q, s);
        return [], gas, Failed, k;
      }
      var balance := BalanceOf(caller);
      AccruesIdle(sdb.db, s, gas, sdb.Contents(), gas);
      if balance < value {
        k := Refuses(q, s);
        return [], gas, Failed, k;
      }
      ghost var s0 := sdb.Contents();
      StaysWarm(s, caller);
      PathNowhere(sdb.db, s0);
      var snapshot := sdb.Snapshot();
      ghost var run;
      ret, left, status, run := Enter(s0, snapshot, addr, input, caller, caller, value, gas, HashFirst, q);
      k := PlainDone(q, s, s0, ret, left, status, run);
      WentOn(s, s0, readOnly && !status.Panicked?);
      AccruesLater(s, s0, gas, left, status);
      if status.Reverted? || status.Failed? {
        Journal.SameTransitive(sdb.db, s, s0, sdb.Contents());
      }
    }

    /** The callee runs as its caller, with the caller's own caller and value. */
    method DelegateCall(address: Address, caller: Address, value: nat, addr: Address, input: seq<byte>, gas: uint64,
                        ghost q: Request)
      returns (ret: seq<byte>, left: uint64, status: Status, ghost k: Calling)
      requires Sound() && Cached() && ContainsAddress(sdb.Contents().warm, address)
      requires q == Request(DELEGATECALL, address, caller, value, addr, input, gas, q.value, readOnly, depth)
      modifies this, sdb, sdb.accessList, jumpdests
      ensures Went(old(sdb.Contents()), readOnly && !status.Panicked?)
      ensures status.Reverted? || status.Failed? ==> Same(sdb.db, old(sdb.Contents()), sdb.Contents())
      ensures left <= gas && Steady() && (status.Panicked? ==> !honest)
      ensures !status.Panicked? ==> Accrued(old(sdb.Contents()), gas, left)
      ensures Replied(q, old(sdb.Contents()), ret, left, status, k)
      ensures depth <= CALL_CREATE_DEPTH && addr !in env.precompiles ==>
                RanAs(k, Frame(address, caller, value, ResolvedCode(sdb.db, old(sdb.Contents()), addr), readOnly,
                               depth + 1))
      decreases gas, 5
    {
      hide Path, AllFit, Idle, Quiet, Valid, Consistent, Same, JumpCache.Jumpdests.Valid, JumpCache.Jumpdests.Right,
           Accrues, Interpreter.Inverse, Interpreter.Replied, Interpreter.Visited, ResolvedCode;
      ghost var s := sdb.Contents();
      Journal.SameReflexive(sdb.db, s);
      IsRead(s);
      AccruesIdle(sdb.db, s, gas, s, gas);
      if depth > CALL_CREATE_DEPTH {
        k := Refuses(q, s);
        return [], gas, Failed, k;
      }
      var snapshot := sdb.Snapshot();
      ghost var run;
      ret, left, status, run := Enter(s, snapshot, addr, input, address, caller, value, gas, HashFirst, q);
      k := PlainDone(q, s, s, ret, left, status, run);
      if addr !in env.precompiles {
        VisitedFrame(q, s, ret, left, status, run);
      }
    }

    /** The call ran this frame. */
    ghost predicate RanAs(k: Calling, f: Frame) {
      k.course.Entered? && k.course.run.Some? && k.course.run.value.frame == f
    }

    lemma VisitedFrame(q: Request, s: State, ret: seq<byte>, left: nat, status: Status, run: Option<Run>)
      requires Visited(q, s, s, ret, left, status, run) && q.target !in env.precompiles
      ensures run.Some? && run.value.frame == FrameFor(q, CodeFor(sdb.db, q, s))
    {
      hide Same, Runs;
      assert Entering(sdb.db, env, q, s, run.value);
    }

    /** Whatever the callee does, however deep, a static call is quiet. */
    method StaticCall(caller: Address, addr: Address, input: seq<byte>, gas: uint64, ghost q: Request)
      returns (ret: seq<byte>, left: uint64, status: Status, ghost k: Calling)
      requires Sound() && Cached() && ContainsAddress(sdb.Contents().warm, addr)
      requires q == Request(STATICCALL, caller, q.caller, q.own, addr, input, gas, q.value, readOnly, depth)
      modifies this, sdb, sdb.accessList, jumpdests
      ensures Went(old(sdb.Contents()), !status.Panicked?)
      ensures status.Reverted? || status.Failed? ==> Same(sdb.db, old(sdb.Contents()), sdb.Contents())
      ensures left <= gas && Steady() && (status.Panicked? ==> !honest)
      ensures !status.Panicked? ==> Accrued(old(sdb.Contents()), gas, left)
      ensures Replied(q, old(sdb.Contents()), ret, left, status, k)
      decreases gas, 5
    {
      hide Path, AllFit, Idle, Quiet, Valid, Consistent, Same, Apply, JumpCache.Jumpdests.Valid,
           JumpCache.Jumpdests.Right, Accrues, Interpreter.Inverse, Interpreter.Replied, Interpreter.Visited;
      ghost var s := sdb.Contents();
      Journal.SameReflexive(sdb.db, s);
      IsRead(s);
      AccruesIdle(sdb.db, s, gas, s, gas);
      if depth > CALL_CREATE_DEPTH {
        k := Refuses(q, s);
        return [], gas, Failed, k;
      }
      var snapshot := sdb.Snapshot();
      ZeroAmount(s, addr);
      Do(AddBalance(addr, 0));
      ghost var run;
      ret, left, status, run := Enter(s, snapshot, addr, input, addr, caller, 0, gas, Direct, q);
      k := PlainDone(q, s, s, ret, left, status, run);
    }

    // -------------------------------------------------------------- creation

    /** What a creation came to. */
    ghost predicate Founded(o: Order, s: State, ret: seq<byte>, left: nat, status: Status, k: Creating)
      reads `honest, sdb, sdb.accessList
    {
      && k == Creating(o, k.start, k.making, Answer(ret, left, status, sdb.Contents())) && Same(sdb.db, s, k.start)
      && Creates(sdb.db, env, k) && (honest ==> FairCreating(k))
    }

    /** opCreate and opCreate2: all but one 64th of the gas goes along, and the new address or zero is pushed. */
    method ExecuteCreate(scope: Scope, op: byte, ghost head: nat, ghost f: Frame, ghost blank: Turn)
      returns (out: Outcome, ghost t: Turn)
      requires Sound() && Cached() && IsCreate(op) && ReadyFor(scope, op, head)
      requires scope.gas < head && scope.pc < TWO_64 - 1
      requires f == FrameOf(scope) && blank.paid == Now(scope)
      modifies this, sdb, sdb.accessList, jumpdests, scope`stack, scope`gas
      ensures Went(old(sdb.Contents()), readOnly && out.Continue?) && (out == Continue || out == Fail || out == Panic)
      ensures Steady() && scope.gas < head && (out.Panic? ==> !honest) && (old(readOnly) ==> out == Fail)
      ensures out.Continue? ==> |scope.stack| == |old(scope.stack)| - Table(op).value.pops + 1
      ensures out.Continue? ==> Accrued(old(sdb.Contents()), head, scope.gas)
      ensures Took(scope, f, op, blank, out, t)
      decreases head, 0, 1
    {
      hide Path, AllFit, Idle, Quiet, Valid, Consistent, Same, Memory.Fee, Table, GetNonce, JumpCache.Jumpdests.Valid,
           JumpCache.Jumpdests.Right, Database.Contents, ContainsAddress, Back, Inside, WindowsInside, Enough, Window,
           Accrues, Interpreter.Inverse, Interpreter.Trusted, Interpreter.Took, Creates, FairCreating, CreateResumes,
           Ordered;
      ghost var s, p := sdb.Contents(), Now(scope);
      PathNowhere(sdb.db, s);
      CreateOperands(op, scope.stack, |scope.mem.store|);
      if readOnly {
        t := Forbidden(scope, f, op, blank);
        return Fail, t;
      }
      var value := Back(scope.stack, 0);
      var input := scope.mem.Get(Back(scope.stack, 1), Back(scope.stack, 2));
      InputIsWindow(input, scope.mem.store, Back(scope.stack, 1), Back(scope.stack, 2));
      var salt := if op == CREATE2 then Back(scope.stack, 3) else 0;
      var address, ret, rest, end;
      ghost var k;
      out, address, ret, rest, end, k := Launch(scope, op, salt, input, value, head);
      ghost var o := Order(scope.address, input, AllBut64th(p.gas), value, address, readOnly, depth);
      IsOrdered(f, op, p, salt, o);
      ghost var answer := Answer(ret, rest, end, sdb.Contents());
      ResumesCreate(scope, op, p, address, answer, out);
      t := CreateGoesOn(scope, f, op, blank, out, o, answer, k);
    }

    lemma ResumesCreate(scope: Scope, op: byte, p: Config, address: Address, answer: Answer, out: Outcome)
      requires IsCreate(op) && Enough(op, p.stack) && answer.end == sdb.Contents() && p.pc < TWO_64 - 1
      requires scope.pc == p.pc && scope.mem.store == p.memory
      requires out == if answer.status.Panicked? then Panic else Continue
      requires out.Continue? ==>
                 && scope.gas == p.gas - AllBut64th(p.gas) + answer.left
                 && scope.stack == p.stack[..|p.stack| - Table(op).value.pops]
                                   + [if answer.status.Success? then address else 0]
      ensures CreateResumes(op, p, address, answer, out, After(scope, out))
    {
      hide Table, Database.Contents;
    }

    lemma IsOrdered(f: Frame, op: byte, p: Config, salt: nat, o: Order)
      requires IsCreate(op) && Enough(op, p.stack) && WindowsInside(op, p.stack, |p.memory|)
      requires |p.stack| >= 3 && (op == CREATE2 ==> |p.stack| >= 4 && salt == Back(p.stack, 3))
      requires Inside(Back(p.stack, 1), Back(p.stack, 2), |p.memory|) && !f.readOnly
      requires o == Order(f.address, Window(p.memory, Back(p.stack, 1), Back(p.stack, 2)), AllBut64th(p.gas),
                          Back(p.stack, 0), o.address, f.readOnly, f.depth)
      requires o.address == if op == CREATE then env.createAddress(f.address, GetNonce(sdb.db, p.state, f.address))
                            else env.create2Address(f.address, salt, o.code)
      ensures o == Ordered(sdb.db, env, f, op, p)
    {
      hide Table, WindowsInside, GetNonce, Window;
    }

    lemma CreateGoesOn(scope: Scope, f: Frame, op: byte, blank: Turn, out: Outcome, o: Order, answer: Answer,
                       k: Creating)
      returns (t: Turn)
      requires IsCreate(op) && Enough(op, blank.paid.stack) && !f.readOnly
      requires WindowsInside(op, blank.paid.stack, |blank.paid.memory|)
      requires o == Ordered(sdb.db, env, f, op, blank.paid)
      requires k == Creating(o, k.start, k.making, answer) && Same(sdb.db, blank.paid.state, k.start)
      requires Creates(sdb.db, env, k) && (honest ==> FairCreating(k))
      requires out == (if answer.status.Panicked? then Panic else Continue)
      requires CreateResumes(op, blank.paid, o.address, answer, out, After(scope, out))
      ensures Took(scope, f, op, blank, out, t)
    {
      hide WindowsInside, Table, Creates, FairCreating, Ordered, CreateResumes, Same;
      t := blank.(deed := Built(k), out := out, after := After(scope, out));
      assert CreateActs(sdb.db, env, f, op, t);
    }

    /** The gas that goes along, the creation, and what comes back. */
    method Launch(scope: Scope, op: byte, salt: nat, input: seq<byte>, value: nat, ghost head: nat)
      returns (out: Outcome, address: Address, ret: seq<byte>, left: uint64, status: Status, ghost k: Creating)
      requires Sound() && Cached() && IsCreate(op) && Table(op).value.pops <= |scope.stack| && scope.gas < head
      modifies this, sdb, sdb.accessList, jumpdests, scope`stack, scope`gas
      ensures Went(old(sdb.Contents()), false) && out == if status.Panicked? then Panic else Continue
      ensures Steady() && scope.gas < head && (out.Panic? ==> !honest)
      ensures out.Continue? ==>
                && left <= AllBut64th(old(scope.gas)) && scope.gas == old(scope.gas) - AllBut64th(old(scope.gas)) + left
                && scope.stack == old(scope.stack)[..|old(scope.stack)| - Table(op).value.pops]
                                  + [if status.Success? then address else 0]
      ensures out.Continue? ==> Accrued(old(sdb.Contents()), head, scope.gas)
      ensures address == if op == CREATE
                         then env.createAddress(scope.address, GetNonce(sdb.db, old(sdb.Contents()), scope.address))
                         else env.create2Address(scope.address, salt, input)
      ensures Founded(Order(scope.address, input, AllBut64th(old(scope.gas)), value, address, readOnly, depth),
                      old(sdb.Contents()), ret, left, status, k)
      decreases head, 0, 0
    {
      hide Path, AllFit, Idle, Quiet, Valid, Consistent, Same, Table, GetNonce, JumpCache.Jumpdests.Valid,
           JumpCache.Jumpdests.Right, Database.Contents, Accrues, Interpreter.Inverse, Interpreter.Trusted,
           Creates, FairCreating;
      var gas: uint64 := AllBut64th(scope.gas);
      var _ := scope.UseGas(gas);
      address, ret, left, status, k := Spawn(op, scope.address, salt, input, gas, value);
      if status.Panicked? {
        out := Panic;
        return;
      }
      AccruesWithin(sdb.db, old(sdb.Contents()), gas, sdb.Contents(), left, scope.gas, head, scope.gas + left);
      Created(scope, Table(op).value.pops, address, ret, left, status);
      out := Continue;
    }

    /** The address, then the creation itself; only CREATE2 knows the hash of its init code. */
    method Spawn(op: byte, creator: Address, salt: nat, input: seq<byte>, gas: uint64, value: nat)
      returns (address: Address, ret: seq<byte>, left: uint64, status: Status, ghost k: Creating)
      requires Sound() && Cached() && IsCreate(op)
      modifies this, sdb, sdb.accessList, jumpdests
      ensures Went(old(sdb.Contents()), false)
      ensures left <= gas && Steady() && (status.Panicked? ==> !honest)
      ensures !status.Panicked? ==> Accrued(old(sdb.Contents()), gas, left)
      ensures address == if op == CREATE then env.createAddress(creator, GetNonce(sdb.db, old(sdb.Contents()), creator))
                         else env.create2Address(creator, salt, input)
      ensures Founded(Order(creator, input, gas, value, address, readOnly, depth), old(sdb.Contents()), ret, left,
                      status, k)
      decreases gas, 6
    {
      hide Path, AllFit, Idle, Quiet, Valid, Consistent, Same, GetNonce, JumpCache.Jumpdests.Valid,
           JumpCache.Jumpdests.Right, Database.Contents, Accrues, Interpreter.Inverse, Creates, FairCreating;
      ghost var s := sdb.Contents();
      address := NewAddress(op, creator, salt, input);
      ghost var t := sdb.Contents();
      var codeHash := if op == CREATE then 0 else sdb.db.keccak(input);
      ret, left, status, k := Create(creator, input, codeHash, gas, value, address);
      WentOn(s, t, false);
      AccruesLater(s, t, gas, left, status);
    }

    /** What the creating frame gets back. */
    method Created(scope: Scope, pops: nat, address: Address, ret: seq<byte>, left: uint64, status: Status)
      requires pops <= |scope.stack| && scope.gas + left < TWO_64
      modifies `returnData, scope`stack, scope`gas
      ensures scope.gas == old(scope.gas) + left
      ensures scope.stack == old(scope.stack)[..|old(scope.stack)| - pops] + [if status.Success? then address else 0]
      ensures returnData == if status.Reverted? then ret else []
    {
      scope.Replace(pops, [if status.Success? then address else 0]);
      scope.gas := (scope.gas as int) + left;
      returnData := if status.Reverted? then ret else [];
    }

    /** By nonce, or by salt and init code. */
    method NewAddress(op: byte, creator: Address, salt: nat, code: seq<byte>) returns (addr: Address)
      requires Sound()
      modifies sdb`objects
      ensures Read(old(sdb.Contents()))
      ensures addr == if op == CREATE then env.createAddress(creator, GetNonce(sdb.db, old(sdb.Contents()), creator))
                      else env.create2Address(creator, salt, code)
    {
      hide Path, AllFit, Idle, Quiet, Valid, Consistent, Same, GetNonce;
      if op == CREATE {
        var nonce := NonceOf(creator);
        addr := env.createAddress(creator, nonce);
      } else {
        Journal.SameReflexive(sdb.db, sdb.Contents());
        IsRead(sdb.Contents());
        addr := env.create2Address(creator, salt, code);
      }
    }

    static lemma InputIsWindow(input: seq<byte>, store: seq<byte>, offset: nat, length: nat)
      requires Inside(offset, length, |store|) && |input| == length
      requires forall i :: 0 <= i < length ==> input[i] == store[offset + i]
      ensures input == Window(store, offset, length)
    {
    }

    static lemma CreateOperands(op: byte, stack: seq<nat>, size: nat)
      requires IsCreate(op) && Enough(op, stack) && WindowsInside(op, stack, size)
      ensures |stack| >= 3 && (op == CREATE2 ==> |stack| >= 4) && Inside(Back(stack, 1), Back(stack, 2), size)
      ensures Table(op).value.pops <= |stack|
    {
    }

    /** create: the nonce and the warm address stay even when the creation fails. */
    method Create(caller: Address, code: seq<byte>, codeHash: Hash, gas: uint64, value: nat, address: Address)
      returns (ret: seq<byte>, left: uint64, status: Status, ghost k: Creating)
      requires Sound() && Cached() && (codeHash == 0 || codeHash == sdb.db.keccak(code))
      modifies this, sdb, sdb.accessList, jumpdests
      ensures Went(old(sdb.Contents()), false)
      ensures k.start == old(sdb.Contents())
      ensures Founded(Order(caller, code, gas, value, address, readOnly, depth), old(sdb.Contents()), ret, left, status,
                      k)
      ensures status.Success? ==> k.making.Made? && Path(sdb.db, k.making.run.start, k.making.run.answer.end)
      ensures left <= gas && Steady() && (status.Panicked? ==> !honest)
      ensures !status.Panicked? ==> Accrued(old(sdb.Contents()), gas, left)
      decreases gas, 5
    {
      hide Path, AllFit, Idle, Quiet, Valid, Consistent, Same, Apply, GetNonce, IsTaken,
           JumpCache.Jumpdests.Valid, JumpCache.Jumpdests.Right, GetBalance, Database.Contents, ContainsAddress,
           Accrues, Interpreter.Inverse, Unhashed, Interpreter.Founded, Interpreter.Did, Announces, Endows;
      ghost var s, o := sdb.Contents(), Order(caller, code, gas, value, address, readOnly, depth);
      PathNowhere(sdb.db, s);
      Journal.SameReflexive(sdb.db, s);
      AccruesIdle(sdb.db, s, gas, s, gas);
      if depth > CALL_CREATE_DEPTH {
        k := Denies(o, s);
        return [], gas, Failed, k;
      }
      var balance := BalanceOf(caller);
      AccruesIdle(sdb.db, s, gas, sdb.Contents(), gas);
      if balance < value {
        k := Denies(o, s);
        return [], gas, Failed, k;
      }
      ghost var t := sdb.Contents();
      SameNonce(s, t, caller);
      Announce(caller, address);
      WentOn(s, t, false);
      ghost var announced := sdb.Contents();
      AnnouncesBySame(s, t, caller, address, announced);
      var taken := Taken(address);
      WentOn(s, announced, false);
      StaysWarm(announced, address);
      AccruesIdle(sdb.db, s, gas, sdb.Contents(), 0);
      if taken {
        k := Clashes(o, s, announced);
        return [], 0, Failed, k;
      }
      SameNonce(announced, sdb.Contents(), caller);
      ghost var s0 := sdb.Contents();
      ret, left, status, k := Construct(o, s, announced, caller, code, codeHash, gas, value, address);
      WentOn(s, s0, false);
      AccruesLater(s, s0, gas, left, status);
    }

    /** The new account, its init code, and the deposit of what that returned. */
    method Construct(ghost o: Order, ghost s: State, ghost announced: State, caller: Address, code: seq<byte>,
                     codeHash: Hash, gas: uint64, value: nat, address: Address)
      returns (ret: seq<byte>, left: uint64, status: Status, ghost k: Creating)
      requires Sound() && Cached() && (codeHash == 0 || codeHash == sdb.db.keccak(code))
      requires ContainsAddress(sdb.Contents().warm, address) && GetBalance(sdb.db, sdb.Contents(), caller) >= value
      requires o == Order(caller, code, gas, value, address, readOnly, depth) && depth <= CALL_CREATE_DEPTH
      requires GetBalance(sdb.db, s, caller) >= value && Announces(sdb.db, s, caller, address, announced)
      requires Same(sdb.db, announced, sdb.Contents()) && !IsTaken(sdb.db, announced, address)
      modifies this, sdb, sdb.accessList, jumpdests
      ensures Went(old(sdb.Contents()), false) && k.start == s
      ensures Founded(o, s, ret, left, status, k)
      ensures status.Success? ==> k.making.Made? && Path(sdb.db, k.making.run.start, k.making.run.answer.end)
      ensures left <= gas && Steady() && (status.Panicked? ==> !honest)
      ensures !status.Panicked? ==> Accrued(old(sdb.Contents()), gas, left)
      decreases gas, 4
    {
      hide Path, AllFit, Idle, Quiet, Valid, Consistent, Same, Apply, GetNonce, IsTaken,
           JumpCache.Jumpdests.Valid, JumpCache.Jumpdests.Right, GetBalance, Database.Contents, ContainsAddress,
           Accrues, Interpreter.Inverse, Unhashed, Interpreter.Founded, Interpreter.Did, Announces, Endows,
           Interpreter.Trusted;
      ghost var s0 := sdb.Contents();
      var snapshot := sdb.Snapshot();
      Endow(caller, address, value);
      StaysWarm(s0, address);
      ghost var begun := sdb.Contents();
      EndowsBySame(announced, s0, caller, address, value, begun);
      StaysTrusted();
      KnownByHash(code, codeHash);
      ghost var run;
      ret, left, status, run := Run(address, caller, value, code, codeHash, gas, false);
      WentOn(s0, begun, false);
      RanInit(o, begun, ret, left, status, run);
      if status.Success? {
        PathUnhashed(sdb.db, begun, sdb.Contents(), address);
      }
      ghost var inner, kept := Answer(ret, left, status, sdb.Contents()), left;
      if !status.Panicked? {
        left, status, kept := Conclude(s0, begun, snapshot, address, ret, left, status, gas);
      }
      k := Founds(o, s, announced, s0, run, inner, kept, ret, left, status);
    }

    /** The deposit behind init code that succeeded, and the revert behind an error. */
    method Conclude(ghost s: State, ghost begun: State, snapshot: nat, address: Address, ret: seq<byte>, gas: uint64,
                    inner: Status, ghost supply: nat)
      returns (left: uint64, status: Status, ghost kept: uint64)
      requires snapshot == |s.journal| && Went(s, false) && Valid(s.warm) && !inner.Panicked? && gas <= supply
      requires inner.Success? ==>
                 && Unhashed(sdb.db, address, Get(sdb.Contents(), address)) && Idle(sdb.db, s, begun)
                 && Accrues(sdb.db, begun, supply, sdb.Contents(), gas)
      modifies sdb, sdb.accessList
      ensures Went(s, false) && Accrued(s, supply, left) && !status.Panicked?
      ensures left <= gas && left == if status.Failed? then 0 else kept
      ensures !inner.Success? ==> status == inner && kept == gas
      ensures status.Reverted? || status.Failed? ==> Same(sdb.db, s, sdb.Contents())
      ensures inner.Success? ==>
                && (status == Success || status == Failed) && InRange(old(sdb.Contents()).warm)
                && (status.Success? <==> Depositable(ret, gas))
                && (status.Success? ==>
                      && kept == gas - |ret| * CREATE_DATA_GAS
                      && sdb.Contents() == Apply(sdb.db, old(sdb.Contents()), SetCode(address, ret)))
    {
      hide Path, AllFit, Idle, Quiet, Valid, Consistent, Same, Apply, Accrues, Unhashed, Database.Contents, Depositable;
      ghost var ran := sdb.Contents();
      left, status := gas, inner;
      if inner.Success? {
        left, status := Deposit(s, address, ret, gas);
        Deposited(s, begun, ran, supply, gas, left);
      }
      kept := left;
      left := Finish(s, snapshot, left, status);
      if !status.Success? {
        AccruesIdle(sdb.db, s, supply, sdb.Contents(), left);
      }
    }

    lemma Denies(o: Order, s: State) returns (k: Creating)
      requires o.depth > CALL_CREATE_DEPTH || GetBalance(sdb.db, s, o.creator) < o.value
      requires Same(sdb.db, s, sdb.Contents())
      ensures Founded(o, s, [], o.gas, Failed, k) && k.start == s
    {
      hide Same, GetBalance;
      Journal.SameReflexive(sdb.db, s);
      k := Creating(o, s, Denied, Answer([], o.gas, Failed, sdb.Contents()));
    }

    lemma Clashes(o: Order, s: State, announced: State) returns (k: Creating)
      requires o.depth <= CALL_CREATE_DEPTH && GetBalance(sdb.db, s, o.creator) >= o.value
      requires Announces(sdb.db, s, o.creator, o.address, announced) && IsTaken(sdb.db, announced, o.address)
      requires Same(sdb.db, announced, sdb.Contents())
      ensures Founded(o, s, [], 0, Failed, k) && k.start == s
    {
      hide Same, GetBalance, Announces, IsTaken;
      Journal.SameReflexive(sdb.db, s);
      k := Creating(o, s, Clash(announced), Answer([], 0, Failed, sdb.Contents()));
    }

    /** The init code ran in the frame of the order. */
    lemma RanInit(o: Order, begun: State, ret: seq<byte>, left: nat, status: Status, run: Run)
      requires Did(Frame(o.address, o.creator, o.value, o.code, o.readOnly, o.depth + 1), begun, o.gas, ret, left,
                   status, run)
      ensures run.frame == Frame(o.address, o.creator, o.value, o.code, o.readOnly, o.depth + 1)
      ensures run.start == begun && run.gas == o.gas && run.answer == Answer(ret, left, status, sdb.Contents())
      ensures Runs(sdb.db, env, run) && (honest ==> FairRun(run))
    {
      hide Runs, FairRun;
    }

    lemma Founds(o: Order, s: State, announced: State, s0: State, run: Run, inner: Answer, kept: nat, ret: seq<byte>,
                 left: nat, status: Status)
      returns (k: Creating)
      requires o.depth <= CALL_CREATE_DEPTH && GetBalance(sdb.db, s, o.creator) >= o.value
      requires Announces(sdb.db, s, o.creator, o.address, announced) && !IsTaken(sdb.db, announced, o.address)
      requires Same(sdb.db, announced, s0)
      requires Endows(sdb.db, announced, o.creator, o.address, o.value, run.start)
      requires run.frame == Frame(o.address, o.creator, o.value, o.code, o.readOnly, o.depth + 1)
      requires run.gas == o.gas && run.answer == inner && Runs(sdb.db, env, run) && (honest ==> FairRun(run))
      requires ret == inner.ret && (!inner.status.Success? ==> status == inner.status && kept == inner.left)
      requires inner.status.Success? ==>
                 && (status == Success || status == Failed) && InRange(inner.end.warm)
                 && (status.Success? <==> Depositable(ret, inner.left))
                 && (status.Success? ==>
                       && kept == inner.left - |ret| * CREATE_DATA_GAS
                       && sdb.Contents() == Apply(sdb.db, inner.end, SetCode(o.address, ret)))
      requires status.Reverted? || status.Failed? ==> Same(sdb.db, s0, sdb.Contents())
      requires !status.Panicked? ==> left == if status.Failed? then 0 else kept
      ensures Founded(o, s, ret, left, status, k) && k == Creating(o, s, Made(announced, run), k.answer)
    {
      hide Same, GetBalance, Announces, IsTaken, Endows, Runs, FairRun, Depositable, Apply;
      Journal.SameReflexive(sdb.db, s);
      if status.Reverted? || status.Failed? {
        Journal.SameTransitive(sdb.db, announced, s0, sdb.Contents());
      }
      k := Creating(o, s, Made(announced, run), Answer(ret, left, status, sdb.Contents()));
    }

    lemma AnnouncesBySame(s: State, t: State, creator: Address, address: Address, announced: State)
      requires Same(sdb.db, s, t) && Announces(sdb.db, t, creator, address, announced)
      ensures Announces(sdb.db, s, creator, address, announced)
    {
      hide Same, GetNonce, Apply, WarmAddress, InRange;
      SameIsSeen(sdb.db, s, t);
      var nonce := Wrap64(GetNonce(sdb.db, s, creator) + 1);
      var u :| && Same(sdb.db, t, u) && InRange(u.warm)
               && announced == WarmAddress(Apply(sdb.db, u, SetNonce(creator, nonce)), address);
      Journal.SameTransitive(sdb.db, s, t, u);
    }

    lemma EndowsBySame(s: State, u: State, creator: Address, address: Address, value: nat, begun: State)
      requires Same(sdb.db, s, u) && InRange(u.warm) && InRange(Apply(sdb.db, u, CreateAccount(address)).warm)
      requires begun ==
               Moved(Apply(sdb.db, Apply(sdb.db, u, CreateAccount(address)), SetNonce(address, 1)), creator, address,
                     value)
      ensures Endows(sdb.db, s, creator, address, value, begun)
    {
      hide Same, Apply, Moved, InRange;
    }

    /** The frame of a creation, between what comes before and after it. */
    lemma Deposited(s: State, begun: State, ran: State, gas: int, mid: int, left: int)
      requires Idle(sdb.db, s, begun) && Accrues(sdb.db, begun, gas, ran, mid) && Idled(ran) && left <= mid
      ensures Accrued(s, gas, left)
    {
      hide Idle, Accrues;
      AccruesIdle(sdb.db, s, gas, begun, gas);
      AccruesTransitive(sdb.db, s, gas, begun, gas, ran, mid);
      AccruesIdle(sdb.db, ran, mid, sdb.Contents(), left);
      AccruesTransitive(sdb.db, s, gas, ran, mid, sdb.Contents(), left);
    }

    lemma KnownByHash(code: seq<byte>, hash: Hash)
      requires hash == 0 || hash == sdb.db.keccak(code)
      ensures Trusted() && !Inert(code) && hash != 0 ==> code == codeOf(hash)
    {
      hide AllFit;
    }

    lemma SameNonce(s: State, t: State, a: Address)
      requires Same(sdb.db, s, t)
      ensures GetNonce(sdb.db, t, a) == GetNonce(sdb.db, s, a) && GetBalance(sdb.db, t, a) == GetBalance(sdb.db, s, a)
    {
      SameIsSeen(sdb.db, s, t);
    }

    /** The new account, its nonce and its value. */
    method Endow(caller: Address, address: Address, value: nat)
      requires Sound() && GetBalance(sdb.db, sdb.Contents(), caller) >= value
      modifies sdb, sdb.accessList
      ensures Went(old(sdb.Contents()), false) && Idled(old(sdb.Contents()))
      ensures Unhashed(sdb.db, address, Get(sdb.Contents(), address))
      ensures var s := old(sdb.Contents());
              && InRange(s.warm) && InRange(Apply(sdb.db, s, CreateAccount(address)).warm)
              && InRange(Apply(sdb.db, Apply(sdb.db, s, CreateAccount(address)), SetNonce(address, 1)).warm)
              && sdb.Contents() == Moved(Apply(sdb.db, Apply(sdb.db, s, CreateAccount(address)), SetNonce(address, 1)),
                                         caller, address, value)
    {
      hide Path, AllFit, Idle, Unhashed, Orderly, Quiet, Valid, Consistent, Same, Apply, Moved, GetBalance;
      ghost var s := sdb.Contents();
      Do(CreateAccount(address));
      ghost var t := sdb.Contents();
      OrderlyCreate(sdb.db, s, address);
      Do(SetNonce(address, 1));
      PathUnhashed(sdb.db, t, sdb.Contents(), address);
      WentOn(s, t, false);
      if caller != address {
        StillPayable(s, t, sdb.Contents(), caller, address);
      }
      t := sdb.Contents();
      Transfer(caller, address, value);
      PathUnhashed(sdb.db, t, sdb.Contents(), address);
      WentOn(s, t, false);
    }

    lemma StillPayable(s: State, t: State, u: State, caller: Address, address: Address)
      requires InRange(s.warm) && t == Apply(sdb.db, s, CreateAccount(address))
      requires InRange(t.warm) && u == Apply(sdb.db, t, SetNonce(address, 1)) && caller != address
      ensures GetBalance(sdb.db, u, caller) == GetBalance(sdb.db, s, caller)
    {
      hide GetBalance, Apply;
      Balances.CreateElsewhere(sdb.db, s, address, caller);
      FundsSpared(sdb.db, t, SetNonce(address, 1), caller);
      FundsDecide(sdb.db, t, u, caller);
    }

    /** The caller's nonce and the access list, before the snapshot. */
    method Announce(caller: Address, address: Address)
      requires Sound()
      modifies sdb, sdb.accessList
      ensures Went(old(sdb.Contents()), false) && Idled(old(sdb.Contents()))
      ensures ContainsAddress(sdb.Contents().warm, address)
      ensures Announces(sdb.db, old(sdb.Contents()), caller, address, sdb.Contents())
      ensures GetNonce(sdb.db, sdb.Contents(), caller) == Wrap64(GetNonce(sdb.db, old(sdb.Contents()), caller) + 1)
      ensures GetBalance(sdb.db, sdb.Contents(), caller) == GetBalance(sdb.db, old(sdb.Contents()), caller)
    {
      hide Path, AllFit, Idle, Quiet, Valid, Consistent, Same, GetNonce, GetBalance, Apply, WarmAddress, Announces,
           ContainsAddress, InRange;
      ghost var s := sdb.Contents();
      var nonce := NonceOf(caller);
      ghost var read, op := sdb.Contents(), SetNonce(caller, Wrap64((nonce as int) + 1));
      Do(SetNonce(caller, Wrap64((nonce as int) + 1)));
      SameIsSeen(sdb.db, s, read);
      NonceAfter(sdb.db, read, op, caller);
      BalanceAfter(sdb.db, read, op, caller);
      WentOn(s, read, false);
      ghost var t := sdb.Contents();
      Do(AddAddressToAccessList(address));
      AddressAdded(t, address);
      WentOn(s, t, false);
      NonceByObjects(t, sdb.Contents(), caller);
      Balances.ByObject(sdb.db, t, sdb.Contents(), caller);
      Announced(s, read, caller, address);
    }

    lemma AddressAdded(s: State, a: Address)
      requires InRange(s.warm)
      ensures var t := Apply(sdb.db, s, AddAddressToAccessList(a));
              t == WarmAddress(s, a) && t.objects == s.objects && ContainsAddress(t.warm, a)
    {
    }

    lemma Announced(s: State, u: State, creator: Address, address: Address)
      requires Same(sdb.db, s, u) && InRange(u.warm)
      ensures Announces(sdb.db, s, creator, address,
                        WarmAddress(Apply(sdb.db, u, SetNonce(creator, Wrap64(GetNonce(sdb.db, s, creator) + 1))),
                                    address))
    {
      hide Same, InRange, WarmAddress, Apply, GetNonce;
    }

    lemma NonceByObjects(s: State, t: State, a: Address)
      requires t.objects == s.objects
      ensures GetNonce(sdb.db, t, a) == GetNonce(sdb.db, s, a)
    {
    }

    /** The address already holds a nonce or code. */
    method Taken(address: Address) returns (r: bool)
      requires Sound()
      modifies sdb`objects
      ensures Went(old(sdb.Contents()), true) && Idled(old(sdb.Contents()))
      ensures Same(sdb.db, old(sdb.Contents()), sdb.Contents())
      ensures r == IsTaken(sdb.db, old(sdb.Contents()), address)
    {
      hide Path, AllFit, Idle, Quiet, Valid, Consistent, Same, GetNonce, StateCaches.CodeHash;
      ghost var s := sdb.Contents();
      var hash := CodeHashAt(address);
      ghost var t := sdb.Contents();
      SameNonce(s, t, address);
      var nonce := NonceOf(address);
      WentOn(s, t, true);
      Journal.SameTransitive(sdb.db, s, t, sdb.Contents());
      r := nonce != 0 || (hash != 0 && hash != EmptyCode(sdb.db));
    }

    /** The size and prefix limits and the deposit charge on the code that init code returned. */
    method Deposit(ghost s: State, address: Address, ret: seq<byte>, gas: uint64) returns (left: uint64, status: Status)
      requires Went(s, false) && Unhashed(sdb.db, address, Get(sdb.Contents(), address))
      modifies sdb, sdb.accessList
      ensures Went(s, false) && Idled(old(sdb.Contents())) && left <= gas && (status == Success || status == Failed)
      ensures InRange(old(sdb.Contents()).warm)
      ensures status.Success? <==> Depositable(ret, gas)
      ensures status.Success? ==> left == gas - |ret| * CREATE_DATA_GAS
      ensures sdb.Contents() ==
              if status.Success? then Apply(sdb.db, old(sdb.Contents()), SetCode(address, ret)) else old(sdb.Contents())
    {
      hide Path, AllFit, Idle, Quiet, Valid, Consistent, Same, Apply;
      PathNowhere(sdb.db, sdb.Contents());
      Journal.ValidRange(sdb.Contents().warm);
      if |ret| > MAX_CODE_SIZE || (|ret| >= 1 && ret[0] == 0xEF) {
        return gas, Failed;
      }
      var cost := |ret| * CREATE_DATA_GAS;
      if gas < cost {
        return gas, Failed;
      }
      ghost var t := sdb.Contents();
      Do(SetCode(address, ret));
      WentOn(s, t, false);
      return gas - cost, Success;
    }
  }
}
