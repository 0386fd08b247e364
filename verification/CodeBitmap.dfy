/**
 Jump analysis: a bit for every byte of a contract, set when the byte is the argument of a PUSH. The marking
 routines overwrite the bytes after the first instead of or-ing into them, which is sound because the scan
 runs left to right and nothing ahead of it is set.
 */
module CodeBitmap {
  import opened Common

  const PUSH1: byte := 0x60
  const PUSH32: byte := 0x7f
  const JUMPDEST: byte := 0x5b

  /** How many argument bytes follow the opcode. */
  function PushSize(op: byte): nat {
    if PUSH1 <= op <= PUSH32 then op - PUSH1 + 1 else 0
  }

  /** Position `i` is an instruction of the code read from `from`. */
  predicate IsStart(code: seq<byte>, from: nat, i: nat)
    decreases |code| - from
  {
    i == from || (from < |code| && from < i && IsStart(code, from + 1 + PushSize(code[from]), i))
  }

  /** Position `i` is an argument byte of some instruction of the code read from `from`. */
  predicate InData(code: seq<byte>, from: nat, i: nat)
    decreases |code| - from
  {
    from < |code| &&
    var next := from + 1 + PushSize(code[from]);
    from < i < next || (next <= i && InData(code, next, i))
  }

  /** Inside the code every byte is one or the other. */
  lemma {:induction false} StartOrData(code: seq<byte>, from: nat, i: nat)
    requires from <= i < |code|
    ensures InData(code, from, i) <==> !IsStart(code, from, i)
    decreases |code| - from
  {
    var next := from + 1 + PushSize(code[from]);
    if next <= i {
      StartOrData(code, next, i);
    } else if from < i {
      StartAhead(code, next, i);
    }
  }

  lemma StartAhead(code: seq<byte>, from: nat, i: nat)
    requires i < from
    ensures !IsStart(code, from, i)
  {
  }

  // ---------------------------------------------------------------- bits of a byte

  /** Bit `j` of a byte. */
  predicate Test(b: bv8, j: nat) {
    if j == 0 then b & 1 != 0
    else if j == 1 then b & 2 != 0
    else if j == 2 then b & 4 != 0
    else if j == 3 then b & 8 != 0
    else if j == 4 then b & 16 != 0
    else if j == 5 then b & 32 != 0
    else if j == 6 then b & 64 != 0
    else b & 128 != 0
  }

  predicate Test16(b: bv16, j: nat) {
    if j < 8 then Test((b & 0xFF) as bv8, j) else Test((b >> 8) as bv8, j - 8)
  }

  function Shl(b: bv16, s: nat): bv16 {
    if s == 0 then b
    else if s == 1 then b << 1
    else if s == 2 then b << 2
    else if s == 3 then b << 3
    else if s == 4 then b << 4
    else if s == 5 then b << 5
    else if s == 6 then b << 6
    else b << 7
  }

  lemma OrTest(a: bv8, b: bv8, j: nat)
    ensures Test(a | b, j) == (Test(a, j) || Test(b, j))
  {
    OrAnd(a, b, if j == 0 then 1 else if j == 1 then 2 else if j == 2 then 4 else if j == 3 then 8
                else if j == 4 then 16 else if j == 5 then 32 else if j == 6 then 64 else 128);
  }

  lemma OrAnd(a: bv8, b: bv8, m: bv8)
    ensures (a | b) & m == (a & m) | (b & m)
  {
  }

  lemma NotTest(a: bv8, j: nat)
    ensures Test(!a, j) == !Test(a, j)
  {
  }

  /** The n lowest bits. */
  function Mask(n: nat): bv16 {
    if n == 1 then 1
    else if n == 2 then 3
    else if n == 3 then 7
    else if n == 4 then 0xF
    else if n == 5 then 0x1F
    else if n == 6 then 0x3F
    else if n == 7 then 0x7F
    else 0xFF
  }

  lemma MaskTest(n: nat, s: nat, j: nat)
    requires 1 <= n <= 8 && s < 8 && j < 16
    ensures Test16(Shl(Mask(n), s), j) == (s <= j < s + n)
  {
  }

  // ---------------------------------------------------------------- the bit vector

  predicate Bit(bits: seq<bv8>, i: nat)
    requires i < 8 * |bits|
  {
    Test(bits[i / 8], i % 8)
  }

  ghost predicate ZeroFrom(bits: seq<bv8>, pos: nat) {
    forall i: nat :: pos <= i < 8 * |bits| ==> !Bit(bits, i)
  }

  /** `after` is `before` with the n bits from pos set. */
  ghost predicate Marks(before: seq<bv8>, after: seq<bv8>, pos: nat, n: nat) {
    && |after| == |before|
    && forall i: nat :: i < 8 * |after| ==> Bit(after, i) == (Bit(before, i) || pos <= i < pos + n)
  }

  /** How the bytes from pos / 8 on change when n bits from pos are marked: or-ed once, then overwritten. */
  lemma MarksByBytes(before: seq<bv8>, after: seq<bv8>, pos: nat, n: nat)
    requires |after| == |before| && ZeroFrom(before, pos) && pos < 8 * |before|
    requires forall j :: 0 <= j < 8 ==>
             Test(after[pos / 8], j) == (Test(before[pos / 8], j) || pos <= pos / 8 * 8 + j < pos + n)
    requires forall q, j :: pos / 8 < q < |before| && 0 <= j < 8 ==> Test(after[q], j) == (8 * q + j < pos + n)
    requires forall q :: 0 <= q < pos / 8 ==> after[q] == before[q]
    ensures Marks(before, after, pos, n)
  {
    hide Test;
    forall i: nat | i < 8 * |after| ensures Bit(after, i) == (Bit(before, i) || pos <= i < pos + n) {
      var q, j := i / 8, i % 8;
      assert i == 8 * q + j;
    }
  }

  lemma MarksThenMarks(a: seq<bv8>, b: seq<bv8>, c: seq<bv8>, pos: nat, m: nat, n: nat)
    requires Marks(a, b, pos, m) && Marks(b, c, pos + m, n)
    ensures Marks(a, c, pos, m + n)
  {
    hide Bit;
    forall i: nat | i < 8 * |c| ensures Bit(c, i) == (Bit(a, i) || pos <= i < pos + m + n) {
      assert Bit(c, i) == (Bit(b, i) || pos + m <= i < pos + m + n);
    }
  }

  lemma ZeroAfter(a: seq<bv8>, b: seq<bv8>, pos: nat, n: nat)
    requires Marks(a, b, pos, n) && ZeroFrom(a, pos)
    ensures ZeroFrom(b, pos + n)
  {
    hide Bit;
    forall i: nat | pos + n <= i < 8 * |b| ensures !Bit(b, i) {
      assert Bit(b, i) == (Bit(a, i) || pos <= i < pos + n);
    }
  }

  /** Past the mark a byte is untouched, so still zero. */
  lemma ZeroByte(bits: seq<bv8>, pos: nat, q: nat)
    requires ZeroFrom(bits, pos) && pos <= 8 * q && q < |bits|
    ensures forall j :: 0 <= j < 8 ==> !Test(bits[q], j)
  {
    hide Test;
    forall j | 0 <= j < 8 ensures !Test(bits[q], j) {
      var i: nat := 8 * q + j;
      assert !Bit(bits, i);
      assert i / 8 == q && i % 8 == j;
    }
  }

  /** setN, and set1 for n = 1: the second byte is written only when bits spill into it. */
  method SetN(bits: array<bv8>, n: nat, pos: nat)
    requires 1 <= n <= 7 && pos / 8 + 1 < bits.Length && ZeroFrom(bits[..], pos)
    modifies bits
    ensures Marks(old(bits[..]), bits[..], pos, n)
  {
    hide Test, Shl, Mask, ZeroFrom, Marks, Low, High;
    var a := Shl(Mask(n), pos % 8);
    bits[pos / 8] := bits[pos / 8] | Low(a);
    var b := High(a);
    if b != 0 {
      bits[pos / 8 + 1] := b;
    }
    WrittenN(old(bits[..]), bits[..], n, pos);
  }

  /** set8 */
  method Set8(bits: array<bv8>, pos: nat)
    requires pos / 8 + 1 < bits.Length && ZeroFrom(bits[..], pos)
    modifies bits
    ensures Marks(old(bits[..]), bits[..], pos, 8)
  {
    hide Test, Shl, ZeroFrom, Marks, Low;
    var a := Low(Shl(0xFF, pos % 8));
    bits[pos / 8] := bits[pos / 8] | a;
    bits[pos / 8 + 1] := !a;
    Written8(old(bits[..]), bits[..], pos);
  }

  /** set16 */
  method Set16(bits: array<bv8>, pos: nat)
    requires pos / 8 + 2 < bits.Length && ZeroFrom(bits[..], pos)
    modifies bits
    ensures Marks(old(bits[..]), bits[..], pos, 16)
  {
    hide Test, Shl, ZeroFrom, Marks, Low;
    var a := Low(Shl(0xFF, pos % 8));
    bits[pos / 8] := bits[pos / 8] | a;
    bits[pos / 8 + 1] := 0xFF;
    bits[pos / 8 + 2] := !a;
    Written16(old(bits[..]), bits[..], pos);
  }

  function Low(a: bv16): bv8 {
    (a & 0xFF) as bv8
  }

  function High(a: bv16): bv8 {
    (a >> 8) as bv8
  }

  /** A mask shifted over a byte boundary, bit by bit. */
  lemma ShiftedBits(b: bv8, n: nat, s: nat, j: nat)
    requires 1 <= n <= 8 && s < 8 && j < 8
    ensures var a := Shl(Mask(n), s);
            && Test(b | Low(a), j) == (Test(b, j) || s <= j < s + n)
            && Test(High(a), j) == (j + 8 < s + n)
            && Test(!Low(a), j) == !(s <= j < s + n) && !Test(0, j) && Test(0xFF, j)
  {
    hide Test, Shl, Mask;
    var a := Shl(Mask(n), s);
    MaskTest(n, s, j);
    MaskTest(n, s, j + 8);
    OrTest(b, Low(a), j);
    NotTest(Low(a), j);
    ConstantBits(j);
  }

  lemma ConstantBits(j: nat)
    ensures !Test(0, j) && Test(0xFF, j)
  {
  }

  /** The byte of `pos` itself: the old bits and those from s on. */
  lemma FirstByte(b: bv8, c: bv8, n: nat, s: nat, j: nat)
    requires 1 <= n <= 8 && s < 8 && j < 8 && c == b | Low(Shl(Mask(n), s))
    ensures Test(c, j) == (Test(b, j) || s <= j < s + n)
  {
    hide Test, Mask, Shl, Low;
    ShiftedBits(b, n, s, j);
  }

  lemma SpillByte(b: bv8, c: bv8, n: nat, s: nat, j: nat)
    requires 1 <= n <= 8 && s < 8 && j < 8 && !Test(b, j)
    requires c == if High(Shl(Mask(n), s)) != 0 then High(Shl(Mask(n), s)) else b
    ensures Test(c, j) == (j + 8 < s + n)
  {
    hide Test, Mask, Shl, High;
    ShiftedBits(b, n, s, j);
  }

  lemma InverseByte(c: bv8, s: nat, j: nat)
    requires s < 8 && j < 8 && c == !Low(Shl(Mask(8), s))
    ensures Test(c, j) == (j < s)
  {
    hide Test, Mask, Shl, Low;
    ShiftedBits(0, 8, s, j);
  }

  lemma WrittenN(before: seq<bv8>, after: seq<bv8>, n: nat, pos: nat)
    requires |after| == |before| && pos / 8 + 1 < |before| && ZeroFrom(before, pos) && 1 <= n <= 7
    requires after[pos / 8] == before[pos / 8] | Low(Shl(Mask(n), pos % 8))
    requires after[pos / 8 + 1] ==
             if High(Shl(Mask(n), pos % 8)) != 0 then High(Shl(Mask(n), pos % 8)) else before[pos / 8 + 1]
    requires forall q :: 0 <= q < |before| && q != pos / 8 && q != pos / 8 + 1 ==> after[q] == before[q]
    ensures Marks(before, after, pos, n)
  {
    hide Test, Mask, Shl, Low, High, Marks, ZeroFrom;
    var s, q0 := pos % 8, pos / 8;
    forall j | 0 <= j < 8 ensures Test(after[q0], j) == (Test(before[q0], j) || pos <= q0 * 8 + j < pos + n) {
      FirstByte(before[q0], after[q0], n, s, j);
    }
    forall q, j | q0 < q < |before| && 0 <= j < 8 ensures Test(after[q], j) == (8 * q + j < pos + n) {
      ZeroByte(before, pos, q);
      if q == q0 + 1 {
        SpillByte(before[q], after[q], n, s, j);
      }
    }
    MarksByBytes(before, after, pos, n);
  }

  lemma Written8(before: seq<bv8>, after: seq<bv8>, pos: nat)
    requires |after| == |before| && pos / 8 + 1 < |before| && ZeroFrom(before, pos)
    requires after[pos / 8] == before[pos / 8] | Low(Shl(Mask(8), pos % 8))
    requires after[pos / 8 + 1] == !Low(Shl(Mask(8), pos % 8))
    requires forall q :: 0 <= q < |before| && q != pos / 8 && q != pos / 8 + 1 ==> after[q] == before[q]
    ensures Marks(before, after, pos, 8)
  {
    hide Test, Mask, Shl, Low, Marks, ZeroFrom;
    var s, q0 := pos % 8, pos / 8;
    forall j | 0 <= j < 8 ensures Test(after[q0], j) == (Test(before[q0], j) || pos <= q0 * 8 + j < pos + 8) {
      FirstByte(before[q0], after[q0], 8, s, j);
    }
    forall q, j | q0 < q < |before| && 0 <= j < 8 ensures Test(after[q], j) == (8 * q + j < pos + 8) {
      ZeroByte(before, pos, q);
      if q == q0 + 1 {
        InverseByte(after[q], s, j);
      }
    }
    MarksByBytes(before, after, pos, 8);
  }

  lemma Written16(before: seq<bv8>, after: seq<bv8>, pos: nat)
    requires |after| == |before| && pos / 8 + 2 < |before| && ZeroFrom(before, pos)
    requires after[pos / 8] == before[pos / 8] | Low(Shl(Mask(8), pos % 8))
    requires after[pos / 8 + 1] == 0xFF && after[pos / 8 + 2] == !Low(Shl(Mask(8), pos % 8))
    requires forall q :: 0 <= q < |before| && !(pos / 8 <= q <= pos / 8 + 2) ==> after[q] == before[q]
    ensures Marks(before, after, pos, 16)
  {
    hide Test, Mask, Shl, Low, Marks, ZeroFrom;
    var s, q0 := pos % 8, pos / 8;
    forall j | 0 <= j < 8 ensures Test(after[q0], j) == (Test(before[q0], j) || pos <= q0 * 8 + j < pos + 16) {
      FirstByte(before[q0], after[q0], 8, s, j);
    }
    forall q, j | q0 < q < |before| && 0 <= j < 8 ensures Test(after[q], j) == (8 * q + j < pos + 16) {
      ZeroByte(before, pos, q);
      if q == q0 + 1 {
        ConstantBits(j);
      } else if q == q0 + 2 {
        InverseByte(after[q], s, j);
      }
    }
    MarksByBytes(before, after, pos, 16);
  }

  // ---------------------------------------------------------------- the scan

  /** Marking the argument of one PUSH: sixteens, then eights, then what is left. */
  method MarkArgument(bits: array<bv8>, pos: nat, size: nat) returns (pc: nat)
    requires 1 <= size <= 32 && pos / 8 + 4 < bits.Length && ZeroFrom(bits[..], pos)
    modifies bits
    ensures pc == pos + size && Marks(old(bits[..]), bits[..], pos, size) && ZeroFrom(bits[..], pc)
  {
    hide Marks, ZeroFrom;
    ghost var start := bits[..];
    pc := pos;
    var numbits := size;
    MarksNothing(start, pos);
    while numbits >= 16
      invariant pc == pos + (size - numbits) && numbits <= size && (size - numbits) % 16 == 0
      invariant Marks(start, bits[..], pos, size - numbits) && ZeroFrom(bits[..], pc)
    {
      ghost var t := bits[..];
      Set16(bits, pc);
      MarksThenMarks(start, t, bits[..], pos, size - numbits, 16);
      ZeroAfter(t, bits[..], pc, 16);
      pc := pc + 16;
      numbits := numbits - 16;
    }
    while numbits >= 8
      invariant pc == pos + (size - numbits) && numbits < 16 && numbits <= size && (size - numbits) % 8 == 0
      invariant Marks(start, bits[..], pos, size - numbits) && ZeroFrom(bits[..], pc)
    {
      ghost var t := bits[..];
      Set8(bits, pc);
      MarksThenMarks(start, t, bits[..], pos, size - numbits, 8);
      ZeroAfter(t, bits[..], pc, 8);
      pc := pc + 8;
      numbits := numbits - 8;
    }
    if numbits > 0 {
      ghost var t := bits[..];
      SetN(bits, numbits, pc);
      MarksThenMarks(start, t, bits[..], pos, size - numbits, numbits);
      ZeroAfter(t, bits[..], pc, numbits);
      pc := pc + numbits;
    }
  }

  lemma MarksNothing(bits: seq<bv8>, pos: nat)
    ensures Marks(bits, bits, pos, 0)
  {
  }

  /** The bits below `pc` are the data positions of the code. */
  ghost predicate MarkedBelow(code: seq<byte>, bits: seq<bv8>, pc: nat) {
    forall i: nat :: i < 8 * |bits| && i < pc ==> Bit(bits, i) == InData(code, 0, i)
  }

  /**
   codeBitmap: no write leaves the vector, and a bit is set exactly for PUSH data, also behind the end of the
   code.
   */
  method Analyse(code: seq<byte>) returns (bits: array<bv8>)
    ensures fresh(bits) && bits.Length == |code| / 8 + 5
    ensures forall i: nat :: i < 8 * bits.Length ==> Bit(bits[..], i) == InData(code, 0, i)
  {
    hide Marks, ZeroFrom, MarkedBelow, Bit;
    bits := new bv8[|code| / 8 + 5](_ => 0);
    var pc: nat := 0;
    NothingMarked(code, bits[..]);
    while pc < |code|
      invariant MarkedBelow(code, bits[..], pc) && ZeroFrom(bits[..], pc)
      invariant forall i: nat :: pc <= i ==> InData(code, 0, i) == InData(code, pc, i)
      decreases |code| - pc
    {
      var op := code[pc];
      ghost var before, from := bits[..], pc;
      pc := pc + 1;
      if op < PUSH1 || op > PUSH32 {
        SkipOne(code, before, from);
        continue;
      }
      ZeroLater(before, from, pc);
      pc := MarkArgument(bits, pc, op - PUSH1 + 1);
      MarkedFurther(code, before, bits[..], from);
    }
    Finished(code, bits[..], pc);
  }

  lemma NothingMarked(code: seq<byte>, bits: seq<bv8>)
    requires forall q :: 0 <= q < |bits| ==> bits[q] == 0
    ensures MarkedBelow(code, bits, 0) && ZeroFrom(bits, 0)
  {
  }

  lemma ZeroLater(bits: seq<bv8>, pos: nat, later: nat)
    requires ZeroFrom(bits, pos) && pos <= later
    ensures ZeroFrom(bits, later)
  {
  }

  lemma SkipOne(code: seq<byte>, bits: seq<bv8>, pc: nat)
    requires pc < |code| && PushSize(code[pc]) == 0 && MarkedBelow(code, bits, pc) && ZeroFrom(bits, pc)
    requires forall i: nat :: pc <= i ==> InData(code, 0, i) == InData(code, pc, i)
    ensures MarkedBelow(code, bits, pc + 1) && ZeroFrom(bits, pc + 1)
    ensures forall i: nat :: pc + 1 <= i ==> InData(code, 0, i) == InData(code, pc + 1, i)
  {
    hide Bit;
  }

  lemma MarkedFurther(code: seq<byte>, before: seq<bv8>, after: seq<bv8>, pc: nat)
    requires pc < |code| && MarkedBelow(code, before, pc) && ZeroFrom(before, pc)
    requires Marks(before, after, pc + 1, PushSize(code[pc]))
    requires forall i: nat :: pc <= i ==> InData(code, 0, i) == InData(code, pc, i)
    ensures var next := pc + 1 + PushSize(code[pc]);
            && MarkedBelow(code, after, next)
            && forall i: nat :: next <= i ==> InData(code, 0, i) == InData(code, next, i)
  {
    hide Bit;
    var next := pc + 1 + PushSize(code[pc]);
    forall i: nat | i < 8 * |after| && i < next ensures Bit(after, i) == InData(code, 0, i) {
      assert Bit(after, i) == (Bit(before, i) || pc + 1 <= i < next);
      if i < pc {
        assert Bit(before, i) == InData(code, 0, i);
      } else {
        assert !Bit(before, i);
      }
    }
  }

  lemma Finished(code: seq<byte>, bits: seq<bv8>, pc: nat)
    requires |code| <= pc && MarkedBelow(code, bits, pc) && ZeroFrom(bits, pc)
    requires forall i: nat :: pc <= i ==> InData(code, 0, i) == InData(code, pc, i)
    ensures forall i: nat :: i < 8 * |bits| ==> Bit(bits, i) == InData(code, 0, i)
  {
    hide Bit;
    forall i: nat | i < 8 * |bits| ensures Bit(bits, i) == InData(code, 0, i) {
      assert i >= pc ==> !InData(code, pc, i);
    }
  }
}
