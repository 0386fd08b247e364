/** One frame of execution: program counter, gas, stack and memory, with the operations that touch nothing else. */
module Scopes {
  import opened Common
  import opened AccessLists
  import opened CodeBitmap
  import opened Opcodes
  import JumpCache
  import Memory

  datatype Outcome = Continue | Halt(ret: seq<byte>) | Revert(ret: seq<byte>) | Fail | Panic

  /** What the model leaves open: the results of arithmetic, of precompiles and of address derivation. */
  datatype Env = Env(alu: (byte, seq<nat>) -> nat,
                     precompiles: set<Address>,
                     requiredGas: (Address, seq<byte>) -> uint64,
                     runPrecompile: (Address, seq<byte>) -> Option<seq<byte>>,
                     createAddress: (Address, uint64) -> Address,
                     create2Address: (Address, nat, seq<byte>) -> Address)

  /** The n bytes at pos, padded with zeros behind the end of the code. */
  function Argument(code: seq<byte>, pos: nat, n: nat): seq<byte> {
    seq(n, i => if 0 <= pos + i < |code| then code[pos + i] else 0)
  }

  /** What a memory operation makes of stack and memory. */
  predicate Remembers(op: byte, stack: seq<nat>, memory: seq<byte>, stack': seq<nat>, memory': seq<byte>) {
    IsMemoryOp(op) && Enough(op, stack) && WindowsInside(op, stack, |memory|) &&
    var n, a := |stack|, Back(stack, 0);
    if op == MLOAD then
      memory' == memory && stack' == stack[..n - 1] + [FromBigEndian(memory[a..a + 32])]
    else if op == MSTORE then
      memory' == Written(memory, a, FixedBytes(Back(stack, 1), 32)) && stack' == stack[..n - 2]
    else if op == MSTORE8 then
      memory' == Written(memory, a, FixedBytes(Back(stack, 1), 1)) && stack' == stack[..n - 2]
    else
      memory' == Written(memory, a, Window(memory, Back(stack, 1), Back(stack, 2))) && stack' == stack[..n - 3]
  }

  lemma IsWritten(memory: seq<byte>, a: nat, bytes: seq<byte>, memory': seq<byte>)
    requires Inside(a, |bytes|, |memory|) && |memory'| == |memory|
    requires |bytes| > 0 ==> memory'[a..a + |bytes|] == bytes
    requires forall i :: 0 <= i < |memory'| && !(a <= i < a + |bytes|) ==> memory'[i] == memory[i]
    ensures memory' == Written(memory, a, bytes)
  {
    if |bytes| > 0 {
      assert memory' == memory'[..a] + memory'[a..a + |bytes|] + memory'[a + |bytes|..];
    }
  }

  class Scope {
    const address: Address
    const caller: Address
    const value: nat
    const code: seq<byte>
    const contract: JumpCache.Contract
    const mem: Memory.Store
    var pc: uint64
    var gas: uint64
    var stack: seq<nat>

    /** The program counter is at an instruction, or behind the end of the code. */
    ghost predicate AtInstruction()
      reads this
    {
      pc >= |code| || IsStart(code, 0, pc)
    }

    /** What holds each time the interpreter fetches an opcode. */
    ghost predicate Ready()
      reads this, mem, contract
    {
      && |code| < TWO_63 && pc <= |code| + 33 && |stack| <= STACK_LIMIT && mem.Paid()
      && contract.code == code && contract.Own()
    }

    /** What holds besides as long as every hash belongs to one code: the next instruction is a real one. */
    ghost predicate OnTrack(codeOf: JumpCache.CodeOf)
      reads this, contract
    {
      AtInstruction() && contract.Honest(codeOf)
    }

    constructor (address: Address, caller: Address, value: nat, code: seq<byte>, codeHash: Hash, gas: uint64,
                 jumpdests: JumpCache.Jumpdests)
      requires |code| < TWO_63
      ensures this.address == address && this.caller == caller && this.value == value && this.code == code
      ensures this.gas == gas && pc == 0 && stack == [] && mem.store == [] && Ready() && AtInstruction()
      ensures fresh(mem) && fresh(contract)
      ensures contract.jumpdests == jumpdests && contract.codeHash == codeHash && contract.analysis.None?
    {
      this.address, this.caller, this.value, this.code, this.gas := address, caller, value, code, gas;
      pc, stack := 0, [];
      contract := new JumpCache.Contract(code, codeHash, jumpdests);
      mem := new Memory.Store();
    }

    /** GetOp */
    function Op(): byte
      reads this
    {
      if pc < |code| then code[pc] else STOP
    }

    /** UseGas */
    method UseGas(amount: uint64) returns (ok: bool)
      modifies `gas
      ensures ok <==> amount <= old(gas)
      ensures gas == if ok then old(gas) - amount else old(gas)
    {
      if gas < amount {
        return false;
      }
      gas := gas - amount;
      return true;
    }

    /** Popping n words and pushing others. */
    method Replace(n: nat, words: seq<nat>)
      requires n <= |stack|
      modifies `stack
      ensures stack == old(stack)[..|old(stack)| - n] + words
    {
      stack := stack[..|stack| - n] + words;
    }

    /** The interpreter's increment keeps the program counter near the code. */
    predicate NextInRange(pc: uint64) {
      Wrap64((pc as int) + 1) <= |code| + 33
    }

    /** The interpreter's increment leads to an instruction, or behind the end of the code. */
    predicate NextAtInstruction(pc: uint64) {
      var next := Wrap64((pc as int) + 1);
      next >= |code| || IsStart(code, 0, next)
    }

    lemma StepOver()
      requires |code| < TWO_63 && pc < |code|
      ensures NextInRange(pc + PushSize(code[pc]))
      ensures AtInstruction() ==> NextAtInstruction(pc + PushSize(code[pc]))
    {
      if AtInstruction() {
        NextStart(code, 0, pc);
      }
    }

    /** What the contract's analysis makes of a jump. */
    function Landing(judged: Option<bool>): Outcome {
      match judged
      case None => Panic
      case Some(valid) => if valid then Continue else Fail
    }

    /** opJump and opJumpi: the target less one, wrapping at zero; validJumpdest asks the cached analysis. */
    method JumpTo(dest: nat, ghost codeOf: JumpCache.CodeOf) returns (out: Outcome)
      requires |code| < TWO_63 && contract.code == code && contract.Valid()
      modifies `pc, contract, contract.jumpdests
      ensures contract.Valid() && out == Landing(JumpCache.Judged(old(contract.Subject()), code, dest))
      ensures out.Continue? ==> Wrap64((pc as int) + 1) == dest && NextInRange(pc)
      ensures old(contract.Honest(codeOf)) && old(contract.jumpdests.Right(codeOf)) ==>
                && contract.Honest(codeOf) && contract.jumpdests.Right(codeOf)
                && out == (if JumpCache.IsJumpdest(code, dest) then Continue else Fail)
                && (out.Continue? ==> NextAtInstruction(pc))
    {
      hide JumpCache.Analysed, CodeBitmap.InData;
      var r := contract.ValidJumpdest(dest);
      out := Landing(r);
      if out.Continue? {
        pc := Wrap64(dest - 1);
      }
    }

    /** The words an operation without side effects pushes in place of its operands. */
    function Pushed(env: Env, op: byte): seq<nat>
      requires IsStackOp(op) && Enough(op, stack)
      reads this, mem
    {
      var n := |stack|;
      if IsAlu(op) then [env.alu(op, stack[n - AluEntry(op).pops..])]
      else if op == ADDRESS then [address]
      else if op == CALLER then [caller]
      else if op == CALLVALUE then [value]
      else if op == PC then var w: nat := pc; [w]
      else if op == MSIZE then [|mem.store|]
      else if op == GAS then var w: nat := gas; [w]
      else if op == PUSH0 then [0]
      else if PUSH1 <= op <= PUSH32 then [FromBigEndian(Argument(code, pc + 1, PushSize(op)))]
      else if DUP1 <= op <= DUP16 then var d := op - DUP1; stack[n - d - 1..] + [stack[n - d - 1]]
      else if SWAP1 <= op <= SWAP16 then
        var d := op - SWAP1 + 1;
        [stack[n - 1]] + stack[n - d..n - 1] + [stack[n - d - 1]]
      else []
    }

    /** Whether the operation jumps, and where to. */
    predicate Jumps(op: byte)
      requires IsStackOp(op) && Enough(op, stack)
      reads this
    {
      op == JUMP || (op == JUMPI && Back(stack, 1) != 0)
    }

    /** The stack operations, jumps included. */
    method ExecuteStack(env: Env, op: byte, ghost codeOf: JumpCache.CodeOf) returns (out: Outcome)
      requires |code| < TWO_63 && pc < |code| && op == code[pc] && IsStackOp(op) && Enough(op, stack)
      requires contract.code == code && contract.Valid()
      modifies `pc, `stack, contract, contract.jumpdests
      ensures contract.Valid() && |stack| == |old(stack)| - StackEntry(op).pops + StackEntry(op).pushes
      ensures op != JUMP && op != JUMPI ==>
                stack == old(stack)[..|old(stack)| - StackEntry(op).pops] + old(Pushed(env, op))
      ensures op == JUMP || op == JUMPI ==> stack == old(stack)[..|old(stack)| - StackEntry(op).pops]
      ensures !old(Jumps(op)) ==> out == Continue && pc == old(pc) + PushSize(op)
      ensures old(Jumps(op)) ==> out == Landing(JumpCache.Judged(old(contract.Subject()), code, Back(old(stack), 0)))
      ensures old(Jumps(op)) && out.Continue? ==> Wrap64((pc as int) + 1) == Back(old(stack), 0)
      ensures out.Continue? ==> NextInRange(pc)
      ensures old(OnTrack(codeOf)) && old(contract.jumpdests.Right(codeOf)) ==>
                && contract.Honest(codeOf) && contract.jumpdests.Right(codeOf)
                && (out.Continue? ==> NextAtInstruction(pc)) && !out.Panic?
    {
      hide IsStart, StackEntry, Table, IsAlu, Pushed, JumpCache.IsJumpdest, JumpCache.Judged, JumpCache.Analysed;
      StepOver();
      StackOperands(op, stack);
      if op == JUMP {
        var dest := Back(stack, 0);
        Replace(1, []);
        out := JumpTo(dest, codeOf);
      } else if op == JUMPI {
        var dest, cond := Back(stack, 0), Back(stack, 1);
        Replace(2, []);
        if cond != 0 {
          out := JumpTo(dest, codeOf);
        } else {
          out := Continue;
        }
      } else {
        var words := Pushed(env, op);
        PushedLength(env, op);
        Replace(StackEntry(op).pops, words);
        pc := pc + PushSize(op);
        out := Continue;
      }
    }

    /** DUP pushes a copy of a word further down; SWAP exchanges it with the top. */
    lemma MovedWords(env: Env, op: byte)
      requires DUP1 <= op <= SWAP16 && Enough(op, stack)
      ensures var n := |stack|;
              var after := stack[..n - StackEntry(op).pops] + Pushed(env, op);
              if op <= DUP16 then after == stack + [Back(stack, op - DUP1)]
              else after == stack[n - 1 := Back(stack, op - SWAP1 + 1)][n - 2 - (op - SWAP1) := stack[n - 1]]
    {
    }

    static lemma StackOperands(op: byte, stack: seq<nat>)
      requires IsStackOp(op) && Enough(op, stack)
      ensures |stack| >= StackEntry(op).pops
      ensures StackEntry(JUMP) == Entry(1, 0, 8) && StackEntry(JUMPI) == Entry(2, 0, 10)
    {
    }

    lemma PushedLength(env: Env, op: byte)
      requires IsStackOp(op) && Enough(op, stack) && op != JUMP && op != JUMPI
      ensures |Pushed(env, op)| == StackEntry(op).pushes
    {
    }

    static lemma MemoryOperands(op: byte, stack: seq<nat>, size: nat)
      requires IsMemoryOp(op) && Enough(op, stack) && WindowsInside(op, stack, size)
      ensures |stack| >= 1 && (op != MLOAD ==> |stack| >= 2) && (op == MCOPY ==> |stack| >= 3)
      ensures Table(op).value.pops == (if op == MLOAD then 1 else if op == MCOPY then 3 else 2)
      ensures Table(op).value.pushes == if op == MLOAD then 1 else 0
      ensures op == MLOAD || op == MSTORE ==> Back(stack, 0) + 32 <= size
      ensures op == MSTORE8 ==> Back(stack, 0) + 1 <= size
      ensures op == MCOPY ==>
              Inside(Back(stack, 0), Back(stack, 2), size) && Inside(Back(stack, 1), Back(stack, 2), size)
    {
    }

    method Mload()
      requires |stack| >= 1 && Back(stack, 0) + 32 <= |mem.store|
      modifies `stack
      ensures var offset := Back(old(stack), 0);
              stack == old(stack)[..|old(stack)| - 1] + [FromBigEndian(mem.store[offset..offset + 32])]
    {
      hide FromBigEndian;
      var a := Back(stack, 0);
      var bytes := mem.Get(a, 32);
      assert bytes == mem.store[a..a + 32];
      Replace(1, [FromBigEndian(bytes)]);
    }

    /** MSTORE writes 32 bytes, MSTORE8 one. */
    method Mstore(n: nat)
      requires |stack| >= 2 && (n == 1 || n == 32) && Back(stack, 0) + n <= |mem.store|
      modifies `stack, mem`store
      ensures stack == old(stack)[..|old(stack)| - 2] && |mem.store| == |old(mem.store)|
      ensures mem.store == Written(old(mem.store), Back(old(stack), 0), FixedBytes(Back(old(stack), 1), n))
    {
      hide FixedBytes;
      var a, w := Back(stack, 0), Back(stack, 1);
      if n == 32 {
        mem.Set32(a, FixedBytes(w, 32));
      } else {
        mem.Set(a, 1, FixedBytes(w, 1));
        assert mem.store[a..a + 1] == FixedBytes(w, 1);
      }
      IsWritten(old(mem.store), a, FixedBytes(w, n), mem.store);
      Replace(2, []);
    }

    method Mcopy()
      requires |stack| >= 3 && Inside(Back(stack, 0), Back(stack, 2), |mem.store|)
               && Inside(Back(stack, 1), Back(stack, 2), |mem.store|)
      modifies `stack, mem`store
      ensures stack == old(stack)[..|old(stack)| - 3] && |mem.store| == |old(mem.store)|
      ensures var dst, src, len := Back(old(stack), 0), Back(old(stack), 1), Back(old(stack), 2);
              mem.store == Written(old(mem.store), dst, Window(old(mem.store), src, len))
    {
      var dst, src, len := Back(stack, 0), Back(stack, 1), Back(stack, 2);
      mem.Copy(dst, src, len);
      IsWritten(old(mem.store), dst, Window(old(mem.store), src, len), mem.store);
      Replace(3, []);
    }

    /** The memory operations: every access lies inside the resized memory. */
    method ExecuteMemory(op: byte)
      requires IsMemoryOp(op) && Enough(op, stack) && mem.Paid() && WindowsInside(op, stack, |mem.store|)
      modifies `stack, mem`store
      ensures mem.Paid() && |mem.store| == |old(mem.store)|
      ensures |stack| == |old(stack)| - Table(op).value.pops + Table(op).value.pushes
      ensures Remembers(op, old(stack), old(mem.store), stack, mem.store)
    {
      hide Table, Memory.Fee, FixedBytes, FromBigEndian, Written;
      MemoryOperands(op, stack, |mem.store|);
      if op == MLOAD {
        Mload();
      } else if op == MSTORE {
        Mstore(32);
      } else if op == MSTORE8 {
        Mstore(1);
      } else {
        Mcopy();
      }
    }
  }
}
