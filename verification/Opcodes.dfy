/** The opcodes of the model: their stack effect, constant gas and the memory they touch (Osaka instruction set). */
module Opcodes {
  import opened Common
  import opened CodeBitmap
  import opened Memory

  const STOP: byte := 0x00
  const ADDRESS: byte := 0x30
  const CALLER: byte := 0x33
  const CALLVALUE: byte := 0x34
  const POP: byte := 0x50
  const MLOAD: byte := 0x51
  const MSTORE: byte := 0x52
  const MSTORE8: byte := 0x53
  const SLOAD: byte := 0x54
  const SSTORE: byte := 0x55
  const JUMP: byte := 0x56
  const JUMPI: byte := 0x57
  const PC: byte := 0x58
  const MSIZE: byte := 0x59
  const GAS: byte := 0x5a
  const TLOAD: byte := 0x5c
  const TSTORE: byte := 0x5d
  const MCOPY: byte := 0x5e
  const PUSH0: byte := 0x5f
  const DUP1: byte := 0x80
  const DUP16: byte := 0x8f
  const SWAP1: byte := 0x90
  const SWAP16: byte := 0x9f
  const CREATE: byte := 0xf0
  const CALL: byte := 0xf1
  const CALLCODE: byte := 0xf2
  const RETURN: byte := 0xf3
  const DELEGATECALL: byte := 0xf4
  const CREATE2: byte := 0xf5
  const STATICCALL: byte := 0xfa
  const REVERT: byte := 0xfd
  const SELFDESTRUCT: byte := 0xff

  const STACK_LIMIT := 1024

  datatype Entry = Entry(pops: nat, pushes: nat, gas: nat)

  predicate IsAlu(op: byte) {
    (0x01 <= op <= 0x09) || op == 0x0b || (0x10 <= op <= 0x1d)
  }

  /** Arithmetic, comparison and bit operations. */
  function AluEntry(op: byte): Entry {
    if op == 0x08 || op == 0x09 then Entry(3, 1, 8)
    else if op == 0x02 || (0x04 <= op <= 0x07) || op == 0x0b then Entry(2, 1, 5)
    else if op == 0x15 || op == 0x19 then Entry(1, 1, 3)
    else Entry(2, 1, 3)
  }

  /** Operations that only push, pop, move or duplicate stack words, or move the program counter. */
  predicate IsStackOp(op: byte) {
    || IsAlu(op) || op == ADDRESS || op == CALLER || op == CALLVALUE || op == POP || op == JUMP || op == JUMPI
    || op == PC
    || op == MSIZE || op == GAS || op == JUMPDEST || (PUSH0 <= op <= SWAP16)
  }

  function StackEntry(op: byte): Entry {
    if IsAlu(op) then AluEntry(op)
    else if op == ADDRESS || op == CALLER || op == CALLVALUE || op == PC || op == MSIZE || op == GAS || op == PUSH0 then
      Entry(0, 1, 2)
    else if op == POP then Entry(1, 0, 2)
    else if op == JUMP then Entry(1, 0, 8)
    else if op == JUMPI then Entry(2, 0, 10)
    else if op == JUMPDEST then Entry(0, 0, 1)
    else if PUSH1 <= op <= PUSH32 then Entry(0, 1, 3)
    else if DUP1 <= op <= DUP16 then Entry(op - DUP1 + 1, op - DUP1 + 2, 3)
    else if SWAP1 <= op <= SWAP16 then Entry(op - SWAP1 + 2, op - SWAP1 + 2, 3)
    else Entry(0, 0, 1)
  }

  predicate IsMemoryOp(op: byte) {
    op == MLOAD || op == MSTORE || op == MSTORE8 || op == MCOPY
  }

  predicate IsStateOp(op: byte) {
    op == SLOAD || op == SSTORE || op == TLOAD || op == TSTORE
  }

  predicate IsCall(op: byte) {
    op == CALL || op == CALLCODE || op == DELEGATECALL || op == STATICCALL
  }

  predicate IsCreate(op: byte) {
    op == CREATE || op == CREATE2
  }

  predicate IsHalt(op: byte) {
    op == STOP || op == RETURN || op == REVERT || op == SELFDESTRUCT
  }

  /** The jump table; None is an opcode without an operation. */
  function Table(op: byte): (r: Option<Entry>)
    ensures r.Some? <==> IsStackOp(op) || IsMemoryOp(op) || IsStateOp(op) || IsCall(op) || IsCreate(op) || IsHalt(op)
    ensures r.Some? ==> r.value.gas <= 32000 && (r.value.gas == 0 ==> op == SLOAD || op == SSTORE || IsHalt(op))
  {
    if IsStackOp(op) then Some(StackEntry(op))
    else if op == MLOAD then Some(Entry(1, 1, 3))
    else if op == MSTORE || op == MSTORE8 then Some(Entry(2, 0, 3))
    else if op == MCOPY then Some(Entry(3, 0, 3))
    else if op == SLOAD then Some(Entry(1, 1, 0))
    else if op == SSTORE then Some(Entry(2, 0, 0))
    else if op == TLOAD then Some(Entry(1, 1, 100))
    else if op == TSTORE then Some(Entry(2, 0, 100))
    else if op == CALL || op == CALLCODE then Some(Entry(7, 1, 100))
    else if op == DELEGATECALL || op == STATICCALL then Some(Entry(6, 1, 100))
    else if op == CREATE then Some(Entry(3, 1, 32000))
    else if op == CREATE2 then Some(Entry(4, 1, 32000))
    else if op == STOP then Some(Entry(0, 0, 0))
    else if op == RETURN || op == REVERT then Some(Entry(2, 0, 0))
    else if op == SELFDESTRUCT then Some(Entry(1, 0, 5000))
    else None
  }

  /** The n-th word from the top. */
  function Back(stack: seq<nat>, n: nat): nat
    requires n < |stack|
  {
    stack[|stack| - 1 - n]
  }

  predicate Enough(op: byte, stack: seq<nat>) {
    Table(op).Some? && |stack| >= Table(op).value.pops
  }

  function Larger(x: Option<uint64>, y: Option<uint64>): Option<uint64> {
    if x.None? || y.None? then None else if x.value > y.value then x else y
  }

  /** The memory an operation needs, from the operands on the stack; None is an overflow. */
  function MemorySize(op: byte, stack: seq<nat>): Option<uint64>
    requires Enough(op, stack)
  {
    if op == MLOAD || op == MSTORE then CalcMemSize(Back(stack, 0), 32)
    else if op == MSTORE8 then CalcMemSize(Back(stack, 0), 1)
    else if op == RETURN || op == REVERT then CalcMemSize(Back(stack, 0), Back(stack, 1))
    else if op == MCOPY then
      CalcMemSize(if Back(stack, 1) > Back(stack, 0) then Back(stack, 1) else Back(stack, 0), Back(stack, 2))
    else if IsCreate(op) then CalcMemSize(Back(stack, 1), Back(stack, 2))
    else if op == CALL || op == CALLCODE then
      Larger(CalcMemSize(Back(stack, 5), Back(stack, 6)), CalcMemSize(Back(stack, 3), Back(stack, 4)))
    else if op == DELEGATECALL || op == STATICCALL then
      Larger(CalcMemSize(Back(stack, 4), Back(stack, 5)), CalcMemSize(Back(stack, 2), Back(stack, 3)))
    else Some(0)
  }

  predicate Inside(offset: nat, length: nat, size: nat) {
    length > 0 ==> offset + length <= size
  }

  function Window(store: seq<byte>, offset: nat, length: nat): seq<byte>
    requires Inside(offset, length, |store|)
  {
    if length == 0 then [] else store[offset..offset + length]
  }

  /** Memory with some bytes written over. */
  function Written(memory: seq<byte>, offset: nat, bytes: seq<byte>): seq<byte>
    requires Inside(offset, |bytes|, |memory|)
  {
    if bytes == [] then memory else memory[..offset] + bytes + memory[offset + |bytes|..]
  }

  /** Every window the operation reads or writes lies in a memory of that size. */
  predicate WindowsInside(op: byte, stack: seq<nat>, size: nat)
    requires Enough(op, stack)
  {
    if op == MLOAD || op == MSTORE then Inside(Back(stack, 0), 32, size)
    else if op == MSTORE8 then Inside(Back(stack, 0), 1, size)
    else if op == RETURN || op == REVERT then Inside(Back(stack, 0), Back(stack, 1), size)
    else if op == MCOPY then
      Inside(Back(stack, 0), Back(stack, 2), size) && Inside(Back(stack, 1), Back(stack, 2), size)
    else if IsCreate(op) then Inside(Back(stack, 1), Back(stack, 2), size)
    else if op == CALL || op == CALLCODE then
      Inside(Back(stack, 5), Back(stack, 6), size) && Inside(Back(stack, 3), Back(stack, 4), size)
    else if op == DELEGATECALL || op == STATICCALL then
      Inside(Back(stack, 4), Back(stack, 5), size) && Inside(Back(stack, 2), Back(stack, 3), size)
    else true
  }

  /** Once the memory is resized for an operation, every slice the operation takes lies inside it. */
  lemma ResizedForWindows(op: byte, stack: seq<nat>, size: nat)
    requires Enough(op, stack) && MemorySize(op, stack).Some? && 32 * ToWordSize(MemorySize(op, stack).value) <= size
    ensures WindowsInside(op, stack, size)
  {
  }

  /** The instruction after the one at pc starts right behind its argument. */
  lemma {:induction false} NextStart(code: seq<byte>, from: nat, pc: nat)
    requires pc < |code| && IsStart(code, from, pc)
    ensures IsStart(code, from, pc + 1 + PushSize(code[pc]))
    decreases |code| - from
  {
    if from < pc {
      NextStart(code, from + 1 + PushSize(code[from]), pc);
    } else {
      assert IsStart(code, pc + 1 + PushSize(code[pc]), pc + 1 + PushSize(code[pc]));
    }
  }
}
