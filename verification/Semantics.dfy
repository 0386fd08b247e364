/**
 What executing code means. A run is a derivation tree: the turns of a frame, the calls and creations that some
 turns make, and the frames these run in turn. The predicates here say which trees the code allows; they look at
 values only, and name none of the methods that execute.
 */
module Semantics {
  import opened Common
  import opened AccessLists
  import opened CallGas
  import opened CodeBitmap
  import opened Opcodes
  import opened Scopes
  import opened StateSpec
  import Journal
  import JumpCache
  import Memory
  import Sstore
  import SstoreGas
  import StateCaches

  const CALL_CREATE_DEPTH := 1024
  const MAX_CODE_SIZE := 24576
  const CREATE_DATA_GAS := 200

  /** How a frame ends; a panic unwinds every frame and reverts none. */
  datatype Status = Success | Reverted | Failed | Panicked

  // ---------------------------------------------------------------- trees

  /** In whose name code runs. */
  datatype Frame = Frame(address: Address, caller: Address, value: nat, code: seq<byte>, readOnly: bool, depth: nat)

  datatype Config = Config(state: State, pc: nat, gas: nat, stack: seq<nat>, memory: seq<byte>)

  /** One turn of the loop: `paid` is what is left once the operation is paid for, `share` what a callee gets. */
  datatype Turn = Turn(before: Config, paid: Config, share: nat, deed: Deed, out: Outcome, after: Config)

  /** What a turn asks of others: the jump analysis, a call or a creation. */
  datatype Deed = Alone | Asked(valid: Option<bool>) | Called(calling: Calling) | Built(creating: Creating)

  /** The turns of a frame so far, the latest last. */
  datatype Past = Beginning | Then(past: Past, turn: Turn)

  /** A whole frame; without code there is no turn. */
  datatype Run = Run(frame: Frame, start: State, gas: nat, past: Past, last: Option<Turn>, answer: Answer)

  datatype Answer = Answer(ret: seq<byte>, left: nat, status: Status, end: State)

  /** A call as an operation asks for it, from a frame of `self` with its own caller and value. */
  datatype Request = Request(op: byte, self: Address, caller: Address, own: nat, target: Address, input: seq<byte>,
                             gas: nat, value: nat, readOnly: bool, depth: nat)

  /** A call may be refused, have nothing to do, or be entered: `run` is None for a precompile. */
  datatype Course = Refused | Absent | Entered(begun: State, run: Option<Run>)

  datatype Calling = Calling(request: Request, start: State, course: Course, answer: Answer)

  /** A creation as it is asked for. */
  datatype Order = Order(creator: Address, code: seq<byte>, gas: nat, value: nat, address: Address, readOnly: bool,
                         depth: nat)

  /** A creation may be denied, find its address taken, or run its init code. */
  datatype Making = Denied | Clash(announced: State) | Made(announced: State, run: Run)

  datatype Creating = Creating(order: Order, start: State, making: Making, answer: Answer)

  // ---------------------------------------------------------------- what a call finds

  /** ParseDelegation: the designator 0xef0100 and an address. */
  function Delegation(code: seq<byte>): Option<Address> {
    if |code| == 23 && code[0] == 0xef && code[1] == 0x01 && code[2] == 0x00 then Some(FromBigEndian(code[3..]))
    else None
  }

  function ToAddress(w: nat): Address {
    w % 0x1_0000000000_0000000000_0000000000_0000000000
  }

  /** The callee of a call operation. */
  function Callee(stack: seq<nat>): Address
    requires |stack| >= 2
  {
    ToAddress(Back(stack, 1))
  }

  /** The value a call operation carries. */
  function Carried(op: byte, stack: seq<nat>): nat
    requires |stack| >= 3
  {
    if op == CALL || op == CALLCODE then Back(stack, 2) else 0
  }

  /** The code a call runs: that of the delegation's target, if there is one. */
  function ResolvedCode(db: Store, s: State, addr: Address): seq<byte> {
    match Delegation(GetCode(db, s, addr))
    case None => GetCode(db, s, addr)
    case Some(target) => GetCode(db, s, target)
  }

  /** The address cannot be created: it has a nonce or code. */
  predicate IsTaken(db: Store, s: State, a: Address) {
    var hash := StateCaches.CodeHash(db, a, Get(s, a));
    GetNonce(db, s, a) != 0 || (hash != 0 && hash != EmptyCode(db))
  }

  // ---------------------------------------------------------------- what a turn costs

  /** The access surcharge of a call to addr: 2500 if it is cold, and the resolution of its delegation. */
  function AccessOf(db: Store, s: State, addr: Address): nat {
    (if ContainsAddress(s.warm, addr) then 0 else COLD_ACCOUNT - WARM_READ) +
    match Delegation(GetCode(db, s, addr))
    case None => 0
    case Some(target) => if ContainsAddress(s.warm, target) || target == addr then WARM_READ else COLD_ACCOUNT
  }

  /** What a call costs before memory and before the callee's share. */
  function BaseOf(db: Store, s: State, op: byte, addr: Address, value: nat): nat {
    (if op == CALL && value != 0 && StateCaches.Empty(db, s, addr) then NEW_ACCOUNT else 0) +
    (if (op == CALL || op == CALLCODE) && value != 0 then VALUE_TRANSFER else 0)
  }

  /** The state once the access charge of a call is settled. */
  function AccessState(db: Store, s: State, addr: Address): State {
    var u := WarmAddress(s, addr);
    var v := Put(u, addr, LoadCode(db, addr, Get(u, addr)).0);
    match Delegation(GetCode(db, s, addr))
    case None => v
    case Some(target) => WarmAddress(v, target)
  }

  /** The charge beyond memory: per word copied, and per word of init code. */
  function PerWord(op: byte, stack: seq<nat>): nat
    requires Enough(op, stack)
  {
    if op == MCOPY then (Back(stack, 2) + 31) / 32 * 3
    else if op == CREATE then (Back(stack, 2) + 31) / 32 * 2
    else if op == CREATE2 then (Back(stack, 2) + 31) / 32 * 8
    else 0
  }

  function SloadPrice(s: State, a: Address, k: Hash): nat {
    if ContainsSlot(s.warm, a, k) then 100 else 2100
  }

  function SstorePrice(db: Store, s: State, a: Address, k: Hash, v: Hash): nat {
    Sstore.Cost(Sstore.EIP3529, GetCommittedState(db, s, a, k), GetState(db, s, a, k), v)
    + (if ContainsSlot(s.warm, a, k) then 0 else SstoreGas.COLD_SLOAD)
  }

  function SelfdestructPrice(db: Store, s: State, a: Address, beneficiary: Address): nat {
    (if ContainsAddress(s.warm, beneficiary) then 0 else COLD_ACCOUNT) +
    (if StateCaches.Empty(db, s, beneficiary) && GetBalance(db, s, a) != 0 then NEW_ACCOUNT else 0)
  }

  /** What depends on the state and the operands. */
  function Dynamic(db: Store, s: State, a: Address, op: byte, stack: seq<nat>): nat
    requires Enough(op, stack)
  {
    if IsCall(op) then
      var addr := Callee(stack);
      AccessOf(db, s, addr) + BaseOf(db, AccessState(db, s, addr), op, addr, Carried(op, stack))
    else if op == SLOAD then SloadPrice(s, a, Back(stack, 0))
    else if op == SSTORE then SstorePrice(db, s, a, Back(stack, 0), Back(stack, 1))
    else if op == SELFDESTRUCT then SelfdestructPrice(db, s, a, ToAddress(Back(stack, 0)))
    else PerWord(op, stack)
  }

  /** Memory is used in whole words. */
  function Rounded(size: nat): nat {
    (size + 31) / 32 * 32
  }

  /** What memory costs once it has grown to the size, beyond what it has cost already. */
  function Growth(have: nat, size: nat): int {
    if size > have then Memory.Fee(size / 32) - Memory.Fee(have / 32) else 0
  }

  lemma GrowthRises(have: nat, size: nat)
    ensures Growth(have, size) >= 0
  {
    hide Memory.Fee;
    if size > have {
      Memory.FeeMonotone(have / 32, size / 32);
    }
  }

  /** The whole price of an operation, but for what a callee gets. */
  function Price(db: Store, a: Address, op: byte, c: Config): int
    requires Enough(op, c.stack) && MemorySize(op, c.stack).Some?
  {
    Table(op).value.gas + Growth(|c.memory|, Rounded(MemorySize(op, c.stack).value))
    + Dynamic(db, c.state, a, op, c.stack)
  }

  /** The opcode has an operation, and the stack has its operands and room for its results. */
  predicate Fits(op: byte, stack: seq<nat>) {
    Enough(op, stack) && |stack| - Table(op).value.pops + Table(op).value.pushes <= STACK_LIMIT
  }

  /** The limits on memory, on init code, and on the gas left for a storage write. */
  predicate WithinLimits(op: byte, stack: seq<nat>, size: nat, gas: nat)
    requires Enough(op, stack)
  {
    && size <= Memory.MAX_SIZE && (IsCreate(op) ==> Back(stack, 2) <= MAX_INIT_CODE_SIZE)
    && (op == SSTORE ==> gas > SstoreGas.SENTRY)
  }

  /** The operation stays within the limits and can be paid for. */
  predicate Affordable(db: Store, a: Address, op: byte, c: Config) {
    && Enough(op, c.stack) && MemorySize(op, c.stack).Some?
    && WithinLimits(op, c.stack, Rounded(MemorySize(op, c.stack).value), c.gas) && Price(db, a, op, c) <= c.gas
  }

  /** The callee gets what the operation asks for, but at most all but one 64th of the rest. */
  function Share(op: byte, stack: seq<nat>, rest: nat): nat
    requires Enough(op, stack)
  {
    if !IsCall(op) then 0 else if Back(stack, 0) < AllBut64th(rest) then Back(stack, 0) else AllBut64th(rest)
  }

  /** What paying does to the state: accounts and slots become warm, and a storage write settles its refund. */
  ghost predicate PaysState(db: Store, a: Address, op: byte, stack: seq<nat>, s: State, t: State)
    requires Enough(op, stack)
  {
    if IsCall(op) then Same(db, AccessState(db, s, Callee(stack)), t)
    else if op == SLOAD then
      InRange(s.warm) && t == if ContainsSlot(s.warm, a, Back(stack, 0)) then s else WarmSlot(s, a, Back(stack, 0))
    else if op == SSTORE then
      var k, v := Back(stack, 0), Back(stack, 1);
      && InRange(s.warm)
      && SstoreGas.Settled(db, WarmSlot(s, a, k),
                           Sstore.Refunds(Sstore.EIP3529, GetCommittedState(db, s, a, k), GetState(db, s, a, k), v), t)
    else if op == SELFDESTRUCT then Same(db, WarmAddress(s, ToAddress(Back(stack, 0))), t)
    else t == s
  }

  /** `p` is `c` once the operation is paid for. */
  ghost predicate Pays(db: Store, a: Address, op: byte, c: Config, p: Config, share: nat) {
    Affordable(db, a, op, c) &&
    var rest := c.gas - Price(db, a, op, c);
    var size := Rounded(MemorySize(op, c.stack).value);
    && share == Share(op, c.stack, rest) && p.gas == rest - share && p.pc == c.pc && p.stack == c.stack
    && p.memory == c.memory + seq(if size > |c.memory| then size - |c.memory| else 0, _ => 0)
    && PaysState(db, a, op, c.stack, c.state, p.state)
  }

  // ---------------------------------------------------------------- what a turn does

  /** The turn goes on at `pc` with this stack, and nothing else is new. */
  predicate GoesOn(t: Turn, pc: nat, stack: seq<nat>) {
    t.out == Continue && t.after == t.paid.(pc := pc, stack := stack)
  }

  /** The stack after an operation that only moves words and looks at its frame. */
  function Stacked(env: Env, f: Frame, op: byte, p: Config): seq<nat>
    requires IsStackOp(op) && Enough(op, p.stack) && op != JUMP && op != JUMPI
  {
    var stack, n := p.stack, |p.stack|;
    if op == POP then stack[..n - 1]
    else if op == JUMPDEST then stack
    else if DUP1 <= op <= DUP16 then stack + [Back(stack, op - DUP1)]
    else if SWAP1 <= op <= SWAP16 then
      stack[n - 1 := Back(stack, op - SWAP1 + 1)][n - 2 - (op - SWAP1) := stack[n - 1]]
    else if IsAlu(op) then
      var rest := n - AluEntry(op).pops;
      stack[..rest] + [env.alu(op, stack[rest..])]
    else
      stack + [if op == ADDRESS then f.address
               else if op == CALLER then f.caller
               else if op == CALLVALUE then f.value
               else if op == PC then p.pc
               else if op == MSIZE then |p.memory|
               else if op == GAS then p.gas
               else FromBigEndian(Argument(f.code, p.pc + 1, op - PUSH0))]
  }

  /** Stack operations; a jump goes where the analysis lets it. */
  ghost predicate StackActs(env: Env, f: Frame, op: byte, t: Turn) {
    IsStackOp(op) && Enough(op, t.paid.stack) &&
    var p, n := t.paid, |t.paid.stack|;
    if op == JUMPI && Back(p.stack, 1) == 0 then GoesOn(t, p.pc + 1, p.stack[..n - 2])
    else if op == JUMP || op == JUMPI then
      && t.deed.Asked?
      && match t.deed.valid
         case None => t.out == Panic
         case Some(valid) =>
           if valid then GoesOn(t, Back(p.stack, 0), p.stack[..n - Table(op).value.pops]) else t.out == Fail
    else GoesOn(t, p.pc + 1 + PushSize(op), Stacked(env, f, op, p))
  }

  predicate MemoryActs(op: byte, t: Turn) {
    && IsMemoryOp(op) && t.out == Continue && t.after == t.paid.(pc := t.paid.pc + 1, stack := t.after.stack,
                                                                 memory := t.after.memory)
    && Remembers(op, t.paid.stack, t.paid.memory, t.after.stack, t.after.memory)
  }

  /** Loads and stores, permanent and transient; a static frame may not store. */
  ghost predicate StateActs(db: Store, f: Frame, op: byte, t: Turn) {
    IsStateOp(op) && Enough(op, t.paid.stack) && InRange(t.paid.state.warm) &&
    var p, stack, n := t.paid, t.paid.stack, |t.paid.stack|;
    var s, k := p.state, Back(stack, 0);
    if op == SLOAD then
      && t.out == Continue && Same(db, s, t.after.state)
      && t.after == p.(pc := p.pc + 1, state := t.after.state,
                       stack := stack[..n - 1] + [GetState(db, s, f.address, k)])
    else if op == TLOAD then
      GoesOn(t, p.pc + 1, stack[..n - 1] + [GetTransientState(s, f.address, k)])
    else if f.readOnly then t.out == Fail
    else
      var v := Back(stack, 1);
      var store := if op == SSTORE then SetState(f.address, k, v) else SetTransientState(f.address, k, v);
      && t.out == Continue
      && t.after == p.(pc := p.pc + 1, stack := stack[..n - 2], state := Apply(db, s, store))
  }

  /** The balance goes to the beneficiary, and an account made in this transaction is marked. */
  ghost predicate Destructs(db: Store, s: State, a: Address, beneficiary: Address, t: State) {
    exists u {:trigger Same(db, s, u)} ::
      && Same(db, s, u) && InRange(Moved(u, a, beneficiary, GetBalance(db, s, a)).warm)
      && t == Apply(db, Moved(u, a, beneficiary, GetBalance(db, s, a)), SelfDestruct6780(a))
  }

  /** What the two accounts hold afterwards. */
  lemma DestructsMoves(db: Store, s: State, a: Address, beneficiary: Address, t: State, b: Address)
    requires Destructs(db, s, a, beneficiary, t)
    ensures var balance := GetBalance(db, s, a);
            GetBalance(db, t, b) == GetBalance(db, s, b)
                                    - (if b == a && Known(db, s, a) then balance else 0)
                                    + (if b == beneficiary && Known(db, s, beneficiary) then balance else 0)
  {
    hide Same, Moved, GetBalance, Known, Apply, InRange;
    var balance := GetBalance(db, s, a);
    var u :| && Same(db, s, u) && InRange(Moved(u, a, beneficiary, balance).warm)
             && t == Apply(db, Moved(u, a, beneficiary, balance), SelfDestruct6780(a));
    SameIsSeen(db, s, u);
    SameIsKnown(db, s, u, a);
    SameIsKnown(db, s, u, beneficiary);
    TransferMoves(db, u, a, beneficiary, balance, b);
    BalanceAfter(db, Moved(u, a, beneficiary, balance), SelfDestruct6780(a), b);
  }

  lemma SameIsKnown(db: Store, s: State, t: State, a: Address)
    requires Same(db, s, t)
    ensures Known(db, t, a) == Known(db, s, a)
    ensures Get(t, a).created == Get(s, a).created && Get(t, a).deleted == Get(s, a).deleted
  {
    assert SameObject(db, a, Find(s.objects, a), Find(t.objects, a));
  }

  /** Balances apart, the two states read alike for this account. */
  ghost predicate SameBut(db: Store, s: State, t: State, b: Address) {
    && GetNonce(db, t, b) == GetNonce(db, s, b) && GetCode(db, t, b) == GetCode(db, s, b)
    && forall k :: GetState(db, t, b, k) == GetState(db, s, b, k)
  }

  lemma CreditKeeps(db: Store, s: State, a: Address, amount: int, b: Address)
    ensures var t := Credit(s, a, amount);
            && SameBut(db, s, t, b) && HasSuicided(t, b) == HasSuicided(s, b) && t.warm == s.warm
            && Get(t, b).created == Get(s, b).created && Get(t, b).deleted == Get(s, b).deleted
  {
    hide Credit, Get, GetBalance, EmptyCode, CachedBalance;
    CreditObject(s, AddBalance(a, amount), b);
    CreditMeans(db, s, a, amount, b);
  }

  /**
   Which account goes: the one that destroys itself, if it was made in this transaction and is not gone. Whatever
   else an account is does not change, and one that is not marked reads the same when the transaction is over.
   */
  lemma DestructsMarks(db: Store, s: State, a: Address, beneficiary: Address, t: State, b: Address)
    requires Destructs(db, s, a, beneficiary, t)
    ensures HasSuicided(t, b) <==> HasSuicided(s, b) || (b == a && Get(s, a).created && !Get(s, a).deleted)
    ensures SameBut(db, s, t, b) && (!HasSuicided(t, b) ==> SameBut(db, s, Finalise(t), b))
    ensures HasSuicided(t, b) ==> GetBalance(db, Finalise(t), b) == 0 && GetCode(db, Finalise(t), b) == []
  {
    hide Same, Moved, GetBalance, Apply, InRange, GetNonce, GetCode, GetState, HasSuicided, Finalise, SameBut;
    var balance := GetBalance(db, s, a);
    var u :| && Same(db, s, u) && InRange(Moved(u, a, beneficiary, balance).warm)
             && t == Apply(db, Moved(u, a, beneficiary, balance), SelfDestruct6780(a));
    MovedKeeps(db, s, u, a, beneficiary, balance, b);
    MovedKeeps(db, s, u, a, beneficiary, balance, a);
    DestroyKeeps(db, Moved(u, a, beneficiary, balance), a, b);
    SuicidedAfter(db, Moved(u, a, beneficiary, balance), SelfDestruct6780(a), b);
    SameButTransitive(db, s, Moved(u, a, beneficiary, balance), t, b);
    FinaliseCommits(db, t, b);
    if !HasSuicided(t, b) {
      assert SameBut(db, t, Finalise(t), b) by {
        FinaliseKeeps(db, t, b);
      }
      SameButTransitive(db, s, t, Finalise(t), b);
    }
  }

  lemma MovedKeeps(db: Store, s: State, u: State, from: Address, to: Address, amount: int, b: Address)
    requires Same(db, s, u)
    ensures var t := Moved(u, from, to, amount);
            && SameBut(db, s, t, b) && HasSuicided(t, b) == HasSuicided(s, b) && t.warm == s.warm
            && Get(t, b).created == Get(s, b).created && Get(t, b).deleted == Get(s, b).deleted
  {
    hide Same, Credit, GetNonce, GetCode, GetState, HasSuicided;
    SameIsSeen(db, s, u);
    SameIsKnown(db, s, u, b);
    CreditKeeps(db, u, from, 0 - amount, b);
    CreditKeeps(db, Credit(u, from, 0 - amount), to, amount, b);
    SameWarmth(db, s, u);
  }

  lemma SameWarmth(db: Store, s: State, t: State)
    requires Same(db, s, t)
    ensures t.warm == s.warm
  {
  }

  lemma DestroyKeeps(db: Store, s: State, a: Address, b: Address)
    requires InRange(s.warm)
    ensures SameBut(db, s, Apply(db, s, SelfDestruct6780(a)), b)
  {
    hide Apply, GetNonce, GetCode, GetState;
    NonceAfter(db, s, SelfDestruct6780(a), b);
    CodeAfter(db, s, SelfDestruct6780(a), b);
    forall k ensures GetState(db, Apply(db, s, SelfDestruct6780(a)), b, k) == GetState(db, s, b, k) {
      SlotAfter(db, s, SelfDestruct6780(a), b, k);
    }
  }

  lemma FinaliseKeeps(db: Store, s: State, b: Address)
    requires !HasSuicided(s, b)
    ensures SameBut(db, s, Finalise(s), b)
  {
    hide GetNonce, GetCode, GetState, Finalise;
    FinaliseCommits(db, s, b);
  }

  lemma SameButTransitive(db: Store, s: State, t: State, u: State, b: Address)
    requires SameBut(db, s, t, b) && SameBut(db, t, u, b)
    ensures SameBut(db, s, u, b)
  {
    hide GetNonce, GetCode, GetState;
  }

  ghost predicate HaltActs(db: Store, f: Frame, op: byte, t: Turn) {
    IsHalt(op) && Enough(op, t.paid.stack) && WindowsInside(op, t.paid.stack, |t.paid.memory|) &&
    var p, stack := t.paid, t.paid.stack;
    if op == SELFDESTRUCT && f.readOnly then t.out == Fail
    else if op == SELFDESTRUCT then
      && t.out == Halt([]) && t.after.gas == p.gas
      && Destructs(db, p.state, f.address, ToAddress(Back(stack, 0)), t.after.state)
    else
      && t.after.gas == p.gas && t.after.state == p.state
      && if op == STOP then t.out == Halt([])
         else
           var bytes := Window(p.memory, Back(stack, 0), Back(stack, 1));
           t.out == if op == RETURN then Halt(bytes) else Outcome.Revert(bytes)
  }

  /** Operations that start no other frame. */
  ghost predicate PlainActs(db: Store, env: Env, f: Frame, op: byte, t: Turn) {
    if IsStackOp(op) then StackActs(env, f, op, t)
    else if IsMemoryOp(op) then MemoryActs(op, t)
    else if IsStateOp(op) then StateActs(db, f, op, t)
    else HaltActs(db, f, op, t)
  }

  /** What a call operation asks for. */
  function Requested(f: Frame, op: byte, p: Config, share: nat): Request
    requires IsCall(op) && Enough(op, p.stack) && WindowsInside(op, p.stack, |p.memory|)
  {
    var value := Carried(op, p.stack);
    var at := if op == CALL || op == CALLCODE then 3 else 2;
    Request(op, f.address, f.caller, f.value, Callee(p.stack),
            Window(p.memory, Back(p.stack, at), Back(p.stack, at + 1)),
            share + (if value != 0 then STIPEND else 0), value, f.readOnly, f.depth)
  }

  /** As much of the returned bytes as fits the window; nothing when the call failed. */
  function Received(memory: seq<byte>, offset: nat, size: nat, ret: seq<byte>, status: Status): seq<byte>
    requires Inside(offset, size, |memory|)
  {
    if status.Failed? then memory else Written(memory, offset, if |ret| < size then ret else ret[..size])
  }

  /** Back in the caller: the flag, the returned bytes and the gas that is left. */
  predicate CallResumes(op: byte, p: Config, answer: Answer, out: Outcome, after: Config)
    requires IsCall(op) && Enough(op, p.stack) && WindowsInside(op, p.stack, |p.memory|)
  {
    if answer.status.Panicked? then out == Panic
    else
      var at := if op == CALL || op == CALLCODE then 5 else 4;
      && out == Continue
      && after == Config(answer.end, p.pc + 1, p.gas + answer.left,
                         p.stack[..|p.stack| - at - 2] + [if answer.status.Success? then 1 else 0],
                         Received(p.memory, Back(p.stack, at), Back(p.stack, at + 1), answer.ret, answer.status))
  }

  ghost predicate CallActs(db: Store, env: Env, f: Frame, op: byte, t: Turn)
    decreases t, 0
  {
    IsCall(op) && Enough(op, t.paid.stack) && WindowsInside(op, t.paid.stack, |t.paid.memory|) &&
    if op == CALL && f.readOnly && Carried(op, t.paid.stack) != 0 then t.out == Fail
    else
      && t.deed.Called? && t.deed.calling.request == Requested(f, op, t.paid, t.share)
      && t.deed.calling.start == t.paid.state && Calls(db, env, t.deed.calling)
      && CallResumes(op, t.paid, t.deed.calling.answer, t.out, t.after)
  }

  /** What a create operation asks for. */
  function Ordered(db: Store, env: Env, f: Frame, op: byte, p: Config): Order
    requires IsCreate(op) && Enough(op, p.stack) && WindowsInside(op, p.stack, |p.memory|)
  {
    var code := Window(p.memory, Back(p.stack, 1), Back(p.stack, 2));
    var address := if op == CREATE then env.createAddress(f.address, GetNonce(db, p.state, f.address))
                   else env.create2Address(f.address, Back(p.stack, 3), code);
    Order(f.address, code, AllBut64th(p.gas), Back(p.stack, 0), address, false, f.depth)
  }

  /** Back in the creator: the new address or zero, and the gas that is left. */
  predicate CreateResumes(op: byte, p: Config, address: Address, answer: Answer, out: Outcome, after: Config)
    requires IsCreate(op) && Enough(op, p.stack)
  {
    if answer.status.Panicked? then out == Panic
    else
      && out == Continue
      && after == Config(answer.end, p.pc + 1, p.gas - AllBut64th(p.gas) + answer.left,
                         p.stack[..|p.stack| - Table(op).value.pops]
                         + [if answer.status.Success? then address else 0],
                         p.memory)
  }

  ghost predicate CreateActs(db: Store, env: Env, f: Frame, op: byte, t: Turn)
    decreases t, 0
  {
    IsCreate(op) && Enough(op, t.paid.stack) && WindowsInside(op, t.paid.stack, |t.paid.memory|) &&
    if f.readOnly then t.out == Fail
    else
      && t.deed.Built? && t.deed.creating.order == Ordered(db, env, f, op, t.paid)
      && Same(db, t.paid.state, t.deed.creating.start) && Creates(db, env, t.deed.creating)
      && CreateResumes(op, t.paid, t.deed.creating.order.address, t.deed.creating.answer, t.out, t.after)
  }

  ghost predicate Acts(db: Store, env: Env, f: Frame, op: byte, t: Turn)
    decreases t, 1
  {
    if IsCall(op) then CallActs(db, env, f, op, t)
    else if IsCreate(op) then CreateActs(db, env, f, op, t)
    else PlainActs(db, env, f, op, t)
  }

  function OpAt(code: seq<byte>, pc: nat): byte {
    if pc < |code| then code[pc] else STOP
  }

  /** One turn: it fails exactly when the operation is undefined, misfits the stack, cannot be paid or must not act. */
  ghost predicate Turns(db: Store, env: Env, f: Frame, t: Turn)
    decreases t, 2
  {
    var op := OpAt(f.code, t.before.pc);
    if !Fits(op, t.before.stack) || !Affordable(db, f.address, op, t.before) then t.out == Fail
    else Pays(db, f.address, op, t.before, t.paid, t.share) && Acts(db, env, f, op, t)
  }

  // ---------------------------------------------------------------- frames

  /** The turns lead from one configuration to the other, and each goes on. */
  ghost predicate Reaches(db: Store, env: Env, f: Frame, past: Past, first: Config, c: Config)
    decreases past
  {
    match past
    case Beginning => c == first
    case Then(earlier, t) =>
      t.out == Continue && t.after == c && Turns(db, env, f, t) && Reaches(db, env, f, earlier, first, t.before)
  }

  /** The frame ends with the first turn that does not go on. */
  ghost predicate Ends(t: Turn, answer: Answer) {
    match t.out
    case Continue => false
    case Halt(ret) => answer == Answer(ret, t.after.gas, Success, t.after.state)
    case Revert(ret) => answer == Answer(ret, t.after.gas, Reverted, t.after.state)
    case Fail => answer.ret == [] && answer.status == Failed
    case Panic => answer.ret == [] && answer.status == Panicked
  }

  ghost predicate Runs(db: Store, env: Env, r: Run)
    decreases r, 0
  {
    if r.frame.code == [] then r.answer == Answer([], r.gas, Success, r.start)
    else if |r.frame.code| >= TWO_63 then r.answer.ret == [] && r.answer.status == Failed
    else
      && r.last.Some?
      && Reaches(db, env, r.frame, r.past, Config(r.start, 0, r.gas, [], []), r.last.value.before)
      && Turns(db, env, r.frame, r.last.value) && Ends(r.last.value, r.answer)
  }

  // ---------------------------------------------------------------- calls

  /** Too deep, or more value than the caller has. */
  predicate Refusal(db: Store, q: Request, s: State) {
    || q.depth > CALL_CREATE_DEPTH
    || (((q.op == CALL && q.value != 0) || q.op == CALLCODE) && GetBalance(db, s, q.self) < q.value)
  }

  /** A call without value to an account that is not there. */
  predicate Absence(db: Store, env: Env, q: Request, s: State) {
    q.op == CALL && q.value == 0 && q.target !in env.precompiles && !StateCaches.Exist(db, s, q.target)
  }

  /** How a call begins: the callee is created if it does not exist, then the value moves. */
  ghost predicate CallBegins(db: Store, s: State, caller: Address, addr: Address, value: nat, created: bool,
                             begun: State) {
    exists t, u ::
      && Same(db, s, t) && Same(db, t, u) && InRange(u.warm) && created == !StateCaches.Exist(db, t, addr)
      && begun == Moved(if created then Apply(db, u, CreateAccount(addr)) else u, caller, addr, value)
  }

  /** Only CALL moves value and creates its callee. */
  ghost predicate Begins(db: Store, q: Request, s: State, begun: State) {
    if q.op == CALL then exists created :: CallBegins(db, s, q.self, q.target, q.value, created, begun)
    else Same(db, s, begun)
  }

  /**
   In whose name the callee runs: CALL and STATICCALL in its own, CALLCODE in the caller's, DELEGATECALL also for the
   caller's own caller and with the caller's own value.
   */
  function FrameFor(q: Request, code: seq<byte>): Frame {
    if q.op == CALL then Frame(q.target, q.self, q.value, code, q.readOnly, q.depth + 1)
    else if q.op == CALLCODE then Frame(q.self, q.self, q.value, code, q.readOnly, q.depth + 1)
    else if q.op == DELEGATECALL then Frame(q.self, q.caller, q.own, code, q.readOnly, q.depth + 1)
    else Frame(q.target, q.self, 0, code, true, q.depth + 1)
  }

  /** STATICCALL does not follow delegations. */
  function CodeFor(db: Store, q: Request, s: State): seq<byte> {
    if q.op == STATICCALL then GetCode(db, s, q.target) else ResolvedCode(db, s, q.target)
  }

  /** What becomes of a frame: an error takes the state back to `s`, and the gas too unless it was a REVERT. */
  ghost predicate Closes(db: Store, s: State, inner: Answer, answer: Answer) {
    && answer.ret == inner.ret && answer.status == inner.status
    && match inner.status
       case Success => answer.end == inner.end && answer.left == inner.left
       case Reverted => Same(db, s, answer.end) && answer.left == inner.left
       case Failed => Same(db, s, answer.end) && answer.left == 0
       case Panicked => true
  }

  /** RunPrecompiledContract */
  predicate Precompiled(env: Env, q: Request, begun: State, inner: Answer) {
    var cost, output := env.requiredGas(q.target, q.input), env.runPrecompile(q.target, q.input);
    if q.gas < cost || output.None? then inner.ret == [] && inner.status == Failed
    else inner == Answer(output.value, q.gas - cost, Success, begun)
  }

  /** The code of the target runs in its frame, on the gas of the request. */
  ghost predicate Entering(db: Store, env: Env, q: Request, begun: State, run: Run)
    decreases run, 1
  {
    && run.frame == FrameFor(q, CodeFor(db, q, begun)) && Same(db, begun, run.start) && run.gas == q.gas
    && Runs(db, env, run)
  }

  /** A precompile or the code of the target, and what becomes of it. */
  ghost predicate Enters(db: Store, env: Env, q: Request, s: State, begun: State, run: Option<Run>, answer: Answer)
    decreases run
  {
    if q.target in env.precompiles then
      run.None? && exists inner :: Precompiled(env, q, begun, inner) && Closes(db, s, inner, answer)
    else run.Some? && Entering(db, env, q, begun, run.value) && Closes(db, s, run.value.answer, answer)
  }

  lemma EntersBySame(db: Store, env: Env, q: Request, s: State, t: State, begun: State, run: Option<Run>,
                     answer: Answer)
    requires Same(db, s, t) && Enters(db, env, q, t, begun, run, answer)
    ensures Enters(db, env, q, s, begun, run, answer)
  {
    hide Same, Precompiled, Entering;
    if !answer.status.Success? && !answer.status.Panicked? {
      Journal.SameTransitive(db, s, t, answer.end);
    }
  }

  ghost predicate Calls(db: Store, env: Env, c: Calling)
    decreases c, 0
  {
    var q, s, answer := c.request, c.start, c.answer;
    if Refusal(db, q, s) then
      c.course == Refused && answer == Answer([], q.gas, Failed, answer.end) && Same(db, s, answer.end)
    else if Absence(db, env, q, s) then
      c.course == Absent && answer == Answer([], q.gas, Success, answer.end) && Same(db, s, answer.end)
    else
      && c.course.Entered? && Begins(db, q, s, c.course.begun)
      && Enters(db, env, q, s, c.course.begun, c.course.run, answer)
  }

  // ---------------------------------------------------------------- creations

  /** The creator's nonce goes up and the address becomes warm, whatever happens afterwards. */
  ghost predicate Announces(db: Store, s: State, creator: Address, address: Address, t: State) {
    exists u {:trigger Same(db, s, u)} ::
      && Same(db, s, u) && InRange(u.warm)
      && t == WarmAddress(Apply(db, u, SetNonce(creator, Wrap64(GetNonce(db, s, creator) + 1))), address)
  }

  /** The new account gets nonce 1 and the value. */
  ghost predicate Endows(db: Store, s: State, creator: Address, address: Address, value: nat, t: State) {
    exists u {:trigger Same(db, s, u)} ::
      && Same(db, s, u) && InRange(u.warm) && InRange(Apply(db, u, CreateAccount(address)).warm)
      && t == Moved(Apply(db, Apply(db, u, CreateAccount(address)), SetNonce(address, 1)), creator, address, value)
  }

  /** The limits on deployed code, and its charge. */
  predicate Depositable(ret: seq<byte>, gas: int) {
    |ret| <= MAX_CODE_SIZE && (ret == [] || ret[0] != 0xEF) && |ret| * CREATE_DATA_GAS <= gas
  }

  /** What init code returned becomes the code of the account. */
  ghost predicate Deposits(db: Store, s: State, address: Address, inner: Answer, answer: Answer) {
    if !inner.status.Success? then Closes(db, s, inner, answer)
    else if Depositable(inner.ret, inner.left) then
      && InRange(inner.end.warm)
      && answer == Answer(inner.ret, inner.left - |inner.ret| * CREATE_DATA_GAS, Success,
                          Apply(db, inner.end, SetCode(address, inner.ret)))
    else answer == Answer(inner.ret, 0, Failed, answer.end) && Same(db, s, answer.end)
  }

  ghost predicate Creates(db: Store, env: Env, c: Creating)
    decreases c, 0
  {
    var o, s, answer := c.order, c.start, c.answer;
    if o.depth > CALL_CREATE_DEPTH || GetBalance(db, s, o.creator) < o.value then
      c.making == Denied && answer == Answer([], o.gas, Failed, answer.end) && Same(db, s, answer.end)
    else
      && !c.making.Denied? && Announces(db, s, o.creator, o.address, c.making.announced)
      && if IsTaken(db, c.making.announced, o.address) then
           && c.making.Clash? && answer == Answer([], 0, Failed, answer.end)
           && Same(db, c.making.announced, answer.end)
         else
           && c.making.Made? && Endows(db, c.making.announced, o.creator, o.address, o.value, c.making.run.start)
           && c.making.run.frame == Frame(o.address, o.creator, o.value, o.code, o.readOnly, o.depth + 1)
           && c.making.run.gas == o.gas && Runs(db, env, c.making.run)
           && Deposits(db, c.making.announced, o.address, c.making.run.answer, answer)
  }

  // ---------------------------------------------------------------- right jumps

  /** Every jump in the tree was judged by the code it is in. */
  predicate FairTurn(f: Frame, t: Turn)
    decreases t
  {
    match t.deed
    case Alone => true
    case Asked(valid) => t.paid.stack != [] && valid == Some(JumpCache.IsJumpdest(f.code, Back(t.paid.stack, 0)))
    case Called(c) => FairCalling(c)
    case Built(c) => FairCreating(c)
  }

  predicate FairPast(f: Frame, past: Past)
    decreases past
  {
    past.Then? ==> FairTurn(f, past.turn) && FairPast(f, past.past)
  }

  predicate FairRun(r: Run)
    decreases r
  {
    FairPast(r.frame, r.past) && (r.last.Some? ==> FairTurn(r.frame, r.last.value))
  }

  predicate FairCalling(c: Calling)
    decreases c
  {
    c.course.Entered? && c.course.run.Some? ==> FairRun(c.course.run.value)
  }

  predicate FairCreating(c: Creating)
    decreases c
  {
    c.making.Made? ==> FairRun(c.making.run)
  }
}
