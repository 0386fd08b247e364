/**
 Small programs, run by the semantics: what a frame stores and returns, in whose name a callee does so, and what a
 creation deploys. Each holds for every state, frame and operand.
 */
module Programs {
  import opened Common
  import opened AccessLists
  import opened CallGas
  import opened CodeBitmap
  import opened Opcodes
  import opened Scopes
  import opened Semantics
  import opened StateSpec
  import Memory
  import Sstore
  import SstoreGas

  // ---------------------------------------------------------------- single turns

  /** A stack operation other than a jump, with enough gas and room. */
  lemma StackTurn(db: Store, env: Env, f: Frame, t: Turn, op: byte)
    requires Turns(db, env, f, t) && op == OpAt(f.code, t.before.pc) && IsStackOp(op) && op != JUMP && op != JUMPI
    requires Fits(op, t.before.stack) && StackEntry(op).gas <= t.before.gas
    ensures var p := t.before.(gas := t.before.gas - StackEntry(op).gas);
            t.out == Continue && t.after == p.(pc := p.pc + 1 + PushSize(op), stack := Stacked(env, f, op, p))
  {
    hide Stacked, PaysState, StackEntry, Memory.Fee;
    StackPrice(db, f.address, op, t.before);
    assert Acts(db, env, f, op, t);
    assert PlainActs(db, env, f, op, t);
    assert t.paid.memory == t.before.memory;
    PlainState(db, f.address, op, t.before.stack, t.before.state, t.paid.state);
  }

  lemma StackPrice(db: Store, a: Address, op: byte, c: Config)
    requires IsStackOp(op) && Enough(op, c.stack)
    ensures MemorySize(op, c.stack) == Some(0) && Price(db, a, op, c) == StackEntry(op).gas
    ensures Share(op, c.stack, 0) == 0 && !IsCall(op) && !IsCreate(op) && Table(op) == Some(StackEntry(op))
  {
    hide StackEntry, Memory.Fee;
  }

  lemma PlainState(db: Store, a: Address, op: byte, stack: seq<nat>, s: State, t: State)
    requires IsStackOp(op) && Enough(op, stack) && PaysState(db, a, op, stack, s, t)
    ensures t == s
  {
  }

  /** SSTORE outside a static frame, with enough gas: the slot is written, and no other slot changes. */
  lemma SstoreTurn(db: Store, env: Env, f: Frame, t: Turn, k: Hash, v: Hash)
    requires Turns(db, env, f, t) && OpAt(f.code, t.before.pc) == SSTORE && !f.readOnly && t.before.stack == [v, k]
    requires SstoreGas.SENTRY < t.before.gas && SstorePrice(db, t.before.state, f.address, k, v) <= t.before.gas
    ensures t.out == Continue && t.after.pc == t.before.pc + 1 && t.after.stack == []
    ensures t.after.gas == t.before.gas - SstorePrice(db, t.before.state, f.address, k, v)
    ensures Writes(db, t.before.state, f.address, k, v, t.after.state)
  {
    hide SstorePrice, PaysState, Memory.Fee, Writes, Apply;
    var c := t.before;
    assert Back(c.stack, 0) == k && Back(c.stack, 1) == v;
    assert Price(db, f.address, SSTORE, c) == SstorePrice(db, c.state, f.address, k, v);
    assert Fits(SSTORE, c.stack) && Affordable(db, f.address, SSTORE, c);
    assert Acts(db, env, f, SSTORE, t);
    assert PlainActs(db, env, f, SSTORE, t);
    assert t.paid.stack == c.stack && c.stack[..0] == [];
    SstoreWrites(db, c.state, f.address, k, v, c.stack, t.paid.state, t.after.state);
  }

  /** The slot holds the value, and every other slot what it held. */
  ghost predicate Writes(db: Store, s: State, a: Address, k: Hash, v: Hash, t: State) {
    forall b, j :: GetState(db, t, b, j) == if b == a && j == k then v else GetState(db, s, b, j)
  }

  lemma SstoreWrites(db: Store, s: State, a: Address, k: Hash, v: Hash, stack: seq<nat>, p: State, t: State)
    requires stack == [v, k] && Enough(SSTORE, stack) && PaysState(db, a, SSTORE, stack, s, p)
    requires InRange(p.warm) && t == Apply(db, p, SetState(a, k, v))
    ensures Writes(db, s, a, k, v, t)
  {
    hide Apply, GetState, Same, WarmSlot, Sstore.Refunds, GetCommittedState;
    assert Back(stack, 0) == k && Back(stack, 1) == v;
    var xs := Sstore.Refunds(Sstore.EIP3529, GetCommittedState(db, s, a, k), GetState(db, s, a, k), v);
    var u := Sstore.ChangeAll(WarmSlot(s, a, k), xs);
    SameIsSeen(db, u, p);
    WarmedObjects(s, a, k);
    forall b, j ensures GetState(db, t, b, j) == if b == a && j == k then v else GetState(db, s, b, j) {
      SlotAfter(db, p, SetState(a, k, v), b, j);
      ObjectsDecideSlot(db, s, u, b, j);
    }
  }

  lemma WarmedObjects(s: State, a: Address, k: Hash)
    requires InRange(s.warm)
    ensures WarmSlot(s, a, k).objects == s.objects
  {
    hide AddSlot;
  }

  lemma ObjectsDecideSlot(db: Store, s: State, t: State, b: Address, j: Hash)
    requires t.objects == s.objects
    ensures GetState(db, t, b, j) == GetState(db, s, b, j)
  {
  }

  lemma StopTurn(db: Store, env: Env, f: Frame, t: Turn)
    requires Turns(db, env, f, t) && OpAt(f.code, t.before.pc) == STOP && |t.before.stack| <= STACK_LIMIT
    ensures t.out == Halt([]) && t.after.gas == t.before.gas && t.after.state == t.before.state
  {
    hide Memory.Fee;
    assert Price(db, f.address, STOP, t.before) == 0;
    assert Acts(db, env, f, STOP, t);
    assert PlainActs(db, env, f, STOP, t);
  }

  // ---------------------------------------------------------------- a program that stores one word

  /** Operations that push one word which the frame or the code determines. */
  predicate PushesWord(op: byte) {
    op == ADDRESS || op == CALLER || op == CALLVALUE || PUSH1 <= op <= PUSH32
  }

  function Word(f: Frame, op: byte, arg: seq<byte>): nat {
    if op == ADDRESS then f.address
    else if op == CALLER then f.caller
    else if op == CALLVALUE then f.value
    else FromBigEndian(arg)
  }

  /** Pushes a word, stores it in slot k, and stops. */
  function Store1(op: byte, arg: seq<byte>, k: byte): seq<byte> {
    [op] + arg + [PUSH1, k, SSTORE, STOP]
  }

  /** More than the program can cost. */
  const STORE_GAS := 22106

  /** Where the program can be: at its beginning, behind either push, or behind the store. */
  ghost predicate StoreAt(db: Store, f: Frame, op: byte, arg: seq<byte>, k: byte, first: Config, c: Config)
    requires PushesWord(op) && first.gas >= STORE_GAS
  {
    var v, n := Word(f, op, arg), |arg|;
    var cost := StackEntry(op).gas;
    || c == first
    || c == first.(pc := 1 + n, gas := first.gas - cost, stack := [v])
    || c == first.(pc := 3 + n, gas := first.gas - cost - 3, stack := [v, k])
    || (&& c.pc == 4 + n && c.stack == [] && Writes(db, first.state, f.address, k, v, c.state)
        && c.gas == first.gas - cost - 3 - SstorePrice(db, first.state, f.address, k, v))
  }

  ghost predicate StoreReady(f: Frame, op: byte, arg: seq<byte>, k: byte, first: Config) {
    && PushesWord(op) && |arg| == PushSize(op) && f.code == Store1(op, arg, k) && !f.readOnly
    && first.pc == 0 && first.stack == [] && first.gas >= STORE_GAS
  }

  lemma WordEntry(op: byte)
    requires PushesWord(op)
    ensures IsStackOp(op) && op != JUMP && op != JUMPI && Table(op) == Some(StackEntry(op))
    ensures StackEntry(op).pops == 0 && StackEntry(op).pushes == 1 && 2 <= StackEntry(op).gas <= 3
    ensures Table(PUSH1) == Some(StackEntry(PUSH1))
    ensures !IsAlu(op) && PushSize(PUSH1) == 1 && StackEntry(PUSH1) == Entry(0, 1, 3) && IsStackOp(PUSH1)
    ensures PushSize(op) == if op >= PUSH1 then op - PUSH0 else 0
  {
  }

  lemma SstorePriceBound(db: Store, s: State, a: Address, k: Hash, v: Hash)
    ensures 100 <= SstorePrice(db, s, a, k, v) <= 22100
  {
    hide GetState, GetCommittedState;
  }

  lemma StackedWord(env: Env, f: Frame, op: byte, arg: seq<byte>, p: Config)
    requires PushesWord(op) && |arg| == PushSize(op) && Enough(op, p.stack)
    requires p.pc + 1 + |arg| <= |f.code| && f.code[p.pc + 1..p.pc + 1 + |arg|] == arg
    ensures IsStackOp(op) && op != JUMP && op != JUMPI && Stacked(env, f, op, p) == p.stack + [Word(f, op, arg)]
  {
    WordEntry(op);
    if op >= PUSH1 {
      assert Argument(f.code, p.pc + 1, op - PUSH0) == arg;
    }
  }

  /** One turn of the program, from any place it can be at. */
  lemma StoreTurn(db: Store, env: Env, f: Frame, op: byte, arg: seq<byte>, k: byte, first: Config, t: Turn)
    requires StoreReady(f, op, arg, k, first) && StoreAt(db, f, op, arg, k, first, t.before) && Turns(db, env, f, t)
    ensures if t.before.pc == 4 + |arg|
            then t.out == Halt([]) && t.after.gas == t.before.gas && t.after.state == t.before.state
            else t.out == Continue && StoreAt(db, f, op, arg, k, first, t.after)
  {
    hide Turns, StackEntry, SstorePrice, Writes, Table, PushSize, Stacked, Store1;
    WordEntry(op);
    var c, v, n := t.before, Word(f, op, arg), |arg|;
    SstorePriceBound(db, first.state, f.address, k, v);
    StoreLayout(op, arg, k);
    if c.pc == 0 {
      StackTurn(db, env, f, t, op);
      StackedWord(env, f, op, arg, c.(gas := c.gas - StackEntry(op).gas));
    } else if c.pc == 1 + n {
      StackTurn(db, env, f, t, PUSH1);
      StackedWord(env, f, PUSH1, [k], c.(gas := c.gas - 3));
      OneByte(k);
    } else if c.pc == 3 + n {
      SstoreTurn(db, env, f, t, k, v);
    } else {
      StopTurn(db, env, f, t);
    }
  }

  lemma StoreLayout(op: byte, arg: seq<byte>, k: byte)
    ensures var code, n := Store1(op, arg, k), |arg|;
            && |code| == 5 + n && code[0] == op && code[1..1 + n] == arg && code[1 + n] == PUSH1
            && code[2 + n..3 + n] == [k] && code[3 + n] == SSTORE && code[4 + n] == STOP
  {
  }

  lemma OneByte(k: byte)
    ensures FromBigEndian([k]) == k
  {
    assert [k][..0] == [];
  }

  lemma {:induction false} StoreReaches(db: Store, env: Env, f: Frame, op: byte, arg: seq<byte>, k: byte, past: Past,
                                        first: Config, c: Config)
    requires StoreReady(f, op, arg, k, first) && Reaches(db, env, f, past, first, c)
    ensures StoreAt(db, f, op, arg, k, first, c)
    decreases past
  {
    hide Turns;
    match past
    case Beginning =>
    case Then(earlier, t) =>
      StoreReaches(db, env, f, op, arg, k, earlier, first, t.before);
      StoreTurn(db, env, f, op, arg, k, first, t);
  }

  /**
   Every run of the program, outside a static frame and with enough gas, succeeds; the slot of the frame's account
   then holds the word, no other slot has changed, and the gas left is what the three operations did not cost.
   */
  lemma StoresOneWord(db: Store, env: Env, r: Run, op: byte, arg: seq<byte>, k: byte)
    requires Runs(db, env, r) && PushesWord(op) && |arg| == PushSize(op) && r.frame.code == Store1(op, arg, k)
    requires !r.frame.readOnly && r.gas >= STORE_GAS
    ensures var v := Word(r.frame, op, arg);
            && r.answer.status == Success && r.answer.ret == []
            && Writes(db, r.start, r.frame.address, k, v, r.answer.end)
            && r.answer.left ==
               r.gas - StackEntry(op).gas - 3 - SstorePrice(db, r.start, r.frame.address, k, v)
  {
    hide Turns, Reaches, Writes, SstorePrice, StackEntry, PushSize;
    WordEntry(op);
    var f, first, t := r.frame, Config(r.start, 0, r.gas, [], []), r.last.value;
    StoreReaches(db, env, f, op, arg, k, r.past, first, t.before);
    StoreTurn(db, env, f, op, arg, k, first, t);
  }

  // ---------------------------------------------------------------- in whose name

  /** The call is let through to code that is no precompile. */
  ghost predicate Admitted(db: Store, env: Env, c: Calling) {
    && Calls(db, env, c) && !Refusal(db, c.request, c.start) && c.request.target !in env.precompiles
    && c.course.Entered?
  }

  lemma AdmittedRuns(db: Store, env: Env, c: Calling)
    requires Admitted(db, env, c)
    ensures c.course.run.Some?
    ensures var q, r := c.request, c.course.run.value;
            && Runs(db, env, r) && r.frame == FrameFor(q, CodeFor(db, q, c.course.begun)) && r.gas == q.gas
            && Same(db, c.course.begun, r.start) && Closes(db, c.start, r.answer, c.answer)
  {
    hide Runs, Same, Refusal, Begins;
    assert Enters(db, env, c.request, c.start, c.course.begun, c.course.run, c.answer);
    assert Entering(db, env, c.request, c.course.begun, c.course.run.value);
  }

  /**
   A callee that stores its own address, its caller or its value: CALL stores in the callee's account with the calling
   contract as caller, CALLCODE in the calling contract's account, and DELEGATECALL there too, but for the caller and
   the value of the calling contract's own frame.
   */
  lemma CalleeStores(db: Store, env: Env, c: Calling, op: byte, k: byte)
    requires Admitted(db, env, c) && (op == ADDRESS || op == CALLER || op == CALLVALUE)
    requires CodeFor(db, c.request, c.course.begun) == Store1(op, [], k)
    requires c.request.op == CALL || c.request.op == CALLCODE || c.request.op == DELEGATECALL
    requires !c.request.readOnly && c.request.gas >= STORE_GAS
    ensures c.answer.status == Success
    ensures c.request.op == CALL ==>
              GetState(db, c.answer.end, c.request.target, k) ==
              if op == ADDRESS then c.request.target else if op == CALLER then c.request.self else c.request.value
    ensures c.request.op == CALLCODE ==>
              GetState(db, c.answer.end, c.request.self, k) ==
              if op == ADDRESS then c.request.self else if op == CALLER then c.request.self else c.request.value
    ensures c.request.op == DELEGATECALL ==>
              GetState(db, c.answer.end, c.request.self, k) ==
              if op == ADDRESS then c.request.self else if op == CALLER then c.request.caller else c.request.own
  {
    hide Calls, Runs, Same, GetState, CodeFor, SstorePrice;
    AdmittedRuns(db, env, c);
    StoresOneWord(db, env, c.course.run.value, op, [], k);
  }

  // ---------------------------------------------------------------- a program that returns memory

  /** Returns `size` bytes of memory from `offset` on. */
  function ReturnBytes(size: byte, offset: byte): seq<byte> {
    [PUSH1, size, PUSH1, offset, RETURN]
  }

  function ReturnPrice(size: byte, offset: byte): int {
    6 + Growth(0, if size == 0 then 0 else Rounded(offset + size))
  }

  ghost predicate ReturnAt(size: byte, offset: byte, first: Config, c: Config)
    requires first.gas >= 6
  {
    || c == first
    || c == first.(pc := 2, gas := first.gas - 3, stack := [size])
    || c == first.(pc := 4, gas := first.gas - 6, stack := [size, offset])
  }

  ghost predicate ReturnReady(f: Frame, size: byte, offset: byte, first: Config) {
    && f.code == ReturnBytes(size, offset) && first.pc == 0 && first.stack == [] && first.memory == []
    && first.gas >= ReturnPrice(size, offset) >= 6
  }

  function Zeros(n: nat): seq<byte> {
    seq(n, _ => 0)
  }

  lemma ReturnTurn(db: Store, env: Env, f: Frame, size: byte, offset: byte, first: Config, t: Turn)
    requires ReturnReady(f, size, offset, first) && ReturnAt(size, offset, first, t.before) && Turns(db, env, f, t)
    ensures if t.before.pc == 4
            then && t.out == Halt(Zeros(size)) && t.after.state == first.state
                 && t.after.gas == first.gas - ReturnPrice(size, offset)
            else t.out == Continue && ReturnAt(size, offset, first, t.after)
  {
    hide Turns, StackEntry, Table, PushSize, Stacked, Growth, ReturnBytes, ReturnPrice;
    WordEntry(PUSH1);
    ReturnLayout(size, offset);
    var c := t.before;
    if c.pc == 0 {
      StackTurn(db, env, f, t, PUSH1);
      StackedWord(env, f, PUSH1, [size], c.(gas := c.gas - 3));
      OneByte(size);
    } else if c.pc == 2 {
      StackTurn(db, env, f, t, PUSH1);
      StackedWord(env, f, PUSH1, [offset], c.(gas := c.gas - 3));
      OneByte(offset);
    } else {
      Returned(db, env, f, size, offset, t);
    }
  }

  lemma ReturnLayout(size: byte, offset: byte)
    ensures var code := ReturnBytes(size, offset);
            |code| == 5 && code[0] == PUSH1 && code[1..2] == [size] && code[2] == PUSH1 && code[3..4] == [offset]
  {
  }

  lemma Returned(db: Store, env: Env, f: Frame, size: byte, offset: byte, t: Turn)
    requires Turns(db, env, f, t) && f.code == ReturnBytes(size, offset) && t.before.pc == 4
    requires t.before.stack == [size, offset] && t.before.memory == []
    requires t.before.gas >= ReturnPrice(size, offset) - 6
    ensures t.out == Halt(Zeros(size)) && t.after.state == t.before.state
    ensures t.after.gas == t.before.gas - (ReturnPrice(size, offset) - 6)
  {
    hide Growth;
    var c := t.before;
    assert f.code[4] == RETURN && Back(c.stack, 0) == offset && Back(c.stack, 1) == size;
    assert MemorySize(RETURN, c.stack) == Some(if size == 0 then 0 else offset + size);
    assert Price(db, f.address, RETURN, c) == ReturnPrice(size, offset) - 6;
    assert Acts(db, env, f, RETURN, t);
    assert PlainActs(db, env, f, RETURN, t);
    assert Window(t.paid.memory, offset, size) == Zeros(size);
  }

  lemma {:induction false} ReturnReaches(db: Store, env: Env, f: Frame, size: byte, offset: byte, past: Past,
                                         first: Config, c: Config)
    requires ReturnReady(f, size, offset, first) && Reaches(db, env, f, past, first, c)
    ensures ReturnAt(size, offset, first, c)
    decreases past
  {
    hide Turns;
    match past
    case Beginning =>
    case Then(earlier, t) =>
      ReturnReaches(db, env, f, size, offset, earlier, first, t.before);
      ReturnTurn(db, env, f, size, offset, first, t);
  }

  /** Every run with enough gas returns that many zero bytes, whatever the offset, and leaves the state alone. */
  lemma ReturnsZeros(db: Store, env: Env, r: Run, size: byte, offset: byte)
    requires Runs(db, env, r) && r.frame.code == ReturnBytes(size, offset)
    requires r.gas >= ReturnPrice(size, offset)
    ensures r.answer.ret == Zeros(size) && r.answer.status == Success && r.answer.end == r.start
    ensures r.answer.left == r.gas - ReturnPrice(size, offset)
  {
    hide Turns, Reaches, Growth;
    var f, first, t := r.frame, Config(r.start, 0, r.gas, [], []), r.last.value;
    GrowthRises(0, if size == 0 then 0 else Rounded(offset + size));
    ReturnReaches(db, env, f, size, offset, r.past, first, t.before);
    ReturnTurn(db, env, f, size, offset, first, t);
  }

  /** A creation with this init code that is let through and can pay its deposit leaves just these bytes as code. */
  lemma DeploysZeros(db: Store, env: Env, c: Creating, size: byte, offset: byte)
    requires Creates(db, env, c) && c.making.Made? && c.order.code == ReturnBytes(size, offset)
    requires c.order.gas >= ReturnPrice(size, offset) + size * CREATE_DATA_GAS
    ensures c.answer.status == Success && GetCode(db, c.answer.end, c.order.address) == Zeros(size)
    ensures c.answer.left == c.order.gas - ReturnPrice(size, offset) - size * CREATE_DATA_GAS
  {
    hide Runs, Endows, Announces, IsTaken, GetBalance, GetCode, Apply, ReturnPrice;
    var r, a := c.making.run, c.order.address;
    ReturnsZeros(db, env, r, size, offset);
    EndowedIsThere(db, c.making.announced, c.order.creator, a, c.order.value, r.start);
    CodeAfter(db, r.answer.end, SetCode(a, r.answer.ret), a);
  }

  lemma EndowedIsThere(db: Store, s: State, creator: Address, address: Address, value: nat, t: State)
    requires Endows(db, s, creator, address, value, t)
    ensures !Get(t, address).deleted
  {
    hide Same, Apply, Credit, InRange, Get;
    var u :| && Same(db, s, u) && InRange(u.warm) && InRange(Apply(db, u, CreateAccount(address)).warm)
             && t == Moved(Apply(db, Apply(db, u, CreateAccount(address)), SetNonce(address, 1)), creator, address,
                           value);
    var v := Apply(db, u, CreateAccount(address));
    var w := Apply(db, v, SetNonce(address, 1));
    CreatedAfter(db, u, CreateAccount(address), address);
    CreatedAfter(db, v, SetNonce(address, 1), address);
    CreditKeeps(db, w, creator, 0 - value, address);
    CreditKeeps(db, Credit(w, creator, 0 - value), address, value, address);
  }
}
