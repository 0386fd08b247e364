/**
 Types and values of the contract ABI codec (abi/type.go), as typed trees in which
 tuples are positional.
 */
module AbiTypes {
  import opened Common

  const TWO_256: int := 0x1_0000000000000000000000000000000000000000000000000000000000000000
  const TWO_255: int := 0x8000000000000000000000000000000000000000000000000000000000000000

  datatype Type =
    | IntTy(bits: nat)
    | UintTy(bits: nat)
    | BoolTy
    | StringTy
    | BytesTy
    | AddressTy
    | FixedBytesTy(width: nat)
    | FunctionTy
    | SliceTy(elem: Type)
    | ArrayTy(size: nat, elem: Type)
    | TupleTy(elems: seq<Type>)

  datatype Value =
    | Int(n: int)
    | Bool(b: bool)
    | Bytes(s: seq<byte>)
    | Seq(vs: seq<Value>)

  datatype Result<+T> = Ok(value: T) | Err

  // ---------------------------------------------------------------- types

  /** T[] , bytes and string are dynamic, and so is every array or tuple that contains a dynamic type. */
  predicate IsDynamic(t: Type) {
    match t
    case StringTy => true
    case BytesTy => true
    case SliceTy(_) => true
    case ArrayTy(_, elem) => IsDynamic(elem)
    case TupleTy(ts) => exists i :: 0 <= i < |ts| && IsDynamic(ts[i])
    case _ => false
  }

  /** The bytes a value takes in place: its encoding if static, an offset word if dynamic. */
  function TypeSize(t: Type): (n: nat)
    ensures n % 32 == 0
    ensures IsDynamic(t) ==> n == 32
    decreases t
  {
    if t.ArrayTy? && !IsDynamic(t.elem) then
      MultipleOf32(t.size, TypeSize(t.elem));
      if t.elem.ArrayTy? || t.elem.TupleTy? then t.size * TypeSize(t.elem) else t.size * 32
    else if t.TupleTy? && !IsDynamic(t) then
      TotalSize(t.elems)
    else 32
  }

  function TotalSize(ts: seq<Type>): (n: nat)
    ensures n % 32 == 0
    decreases ts
  {
    if ts == [] then 0
    else
      SumOfMultiples(TypeSize(ts[0]), TotalSize(ts[1..]));
      TypeSize(ts[0]) + TotalSize(ts[1..])
  }

  lemma SumOfMultiples(m: nat, n: nat)
    requires m % 32 == 0 && n % 32 == 0
    ensures (m + n) % 32 == 0
  {
  }

  lemma MultipleOf32(n: nat, m: nat)
    requires m % 32 == 0
    ensures n * m % 32 == 0
  {
    var k := m / 32;
    assert n * m == 32 * (n * k);
  }

  predicate Native(bits: nat) {
    bits == 8 || bits == 16 || bits == 32 || bits == 64
  }

  /** Integers of the four machine widths are machine integers; all others are 256-bit big integers. */
  function Modulus(bits: nat): int {
    if bits == 8 then 0x100
    else if bits == 16 then 0x1_0000
    else if bits == 32 then 0x1_0000_0000
    else if bits == 64 then TWO_64
    else TWO_256
  }

  /** Every part of the type takes bytes in place: no empty array of a static type and no empty tuple inside. */
  predicate Sized(t: Type) {
    TypeSize(t) > 0 &&
    match t
    case SliceTy(elem) => Sized(elem)
    case ArrayTy(_, elem) => Sized(elem)
    case TupleTy(ts) => AllSized(ts)
    case _ => true
  }

  predicate AllSized(ts: seq<Type>) {
    forall i :: 0 <= i < |ts| ==> Sized(ts[i])
  }

  /** An array is laid out like a tuple of equal types. */
  function Repeat(n: nat, t: Type): (ts: seq<Type>) {
    seq(n, _ => t)
  }

  lemma {:induction false} TotalSizeRepeat(n: nat, t: Type)
    ensures TotalSize(Repeat(n, t)) == n * TypeSize(t)
  {
    if n > 0 {
      assert Repeat(n, t)[0] == t && Repeat(n, t)[1..] == Repeat(n - 1, t);
      TotalSizeRepeat(n - 1, t);
      assert n * TypeSize(t) == TypeSize(t) + (n - 1) * TypeSize(t);
    }
  }

  // ---------------------------------------------------------------- values

  /** What the type check accepts: big integers of any size, everything else exactly its Go type. */
  predicate HasType(t: Type, v: Value)
    decreases v
  {
    match t
    case IntTy(bits) => v.Int? && (Native(bits) ==> -Modulus(bits) / 2 <= v.n < Modulus(bits) / 2)
    case UintTy(bits) => v.Int? && (Native(bits) ==> 0 <= v.n < Modulus(bits))
    case BoolTy => v.Bool?
    case StringTy => v.Bytes?
    case BytesTy => v.Bytes?
    case AddressTy => v.Bytes? && |v.s| == 20
    case FixedBytesTy(w) => v.Bytes? && |v.s| == w
    case FunctionTy => v.Bytes? && |v.s| == 24
    case SliceTy(elem) => v.Seq? && HaveTypes(Repeat(|v.vs|, elem), v.vs)
    case ArrayTy(n, elem) => v.Seq? && |v.vs| == n && HaveTypes(Repeat(n, elem), v.vs)
    case TupleTy(ts) => v.Seq? && HaveTypes(ts, v.vs)
  }

  predicate HaveTypes(ts: seq<Type>, vs: seq<Value>)
    decreases vs
  {
    |ts| == |vs| && (vs != [] ==> HasType(ts[0], vs[0]) && HaveTypes(ts[1..], vs[1..]))
  }

  /** The length of every list is a machine integer, as that of a Go slice. */
  predicate Countable(v: Value) {
    v.Seq? ==> |v.vs| < TWO_63 && AllCountable(v.vs)
  }

  predicate AllCountable(vs: seq<Value>) {
    forall i :: 0 <= i < |vs| ==> Countable(vs[i])
  }

  /** Reduction of an integer to a 256-bit word read back with or without sign. */
  function Signed(n: int): int {
    var m := n % TWO_256;
    if m < TWO_255 then m else m - TWO_256
  }

  /** The value a decoder sees: big integers are reduced to 256 bits. */
  function Canon(t: Type, v: Value): Value
    requires HasType(t, v)
    decreases v
  {
    match t
    case IntTy(_) => Int(Signed(v.n))
    case UintTy(_) => Int(v.n % TWO_256)
    case SliceTy(elem) => Seq(CanonAll(Repeat(|v.vs|, elem), v.vs))
    case ArrayTy(n, elem) => Seq(CanonAll(Repeat(n, elem), v.vs))
    case TupleTy(ts) => Seq(CanonAll(ts, v.vs))
    case _ => v
  }

  function CanonAll(ts: seq<Type>, vs: seq<Value>): (ws: seq<Value>)
    requires HaveTypes(ts, vs)
    ensures |ws| == |vs|
    decreases vs
  {
    if vs == [] then [] else [Canon(ts[0], vs[0])] + CanonAll(ts[1..], vs[1..])
  }

  /** Every big integer fits 256 bits. */
  predicate InRange(t: Type, v: Value)
    requires HasType(t, v)
    decreases v
  {
    match t
    case IntTy(_) => -TWO_255 <= v.n < TWO_255
    case UintTy(_) => 0 <= v.n < TWO_256
    case SliceTy(elem) => AllInRange(Repeat(|v.vs|, elem), v.vs)
    case ArrayTy(n, elem) => AllInRange(Repeat(n, elem), v.vs)
    case TupleTy(ts) => AllInRange(ts, v.vs)
    case _ => true
  }

  predicate AllInRange(ts: seq<Type>, vs: seq<Value>)
    requires HaveTypes(ts, vs)
    decreases vs
  {
    vs == [] || (InRange(ts[0], vs[0]) && AllInRange(ts[1..], vs[1..]))
  }

  /** The decoder sees the value itself exactly when its integers are in range. */
  lemma {:induction false} CanonIsIdentity(t: Type, v: Value)
    requires HasType(t, v)
    ensures Canon(t, v) == v <==> InRange(t, v)
    decreases v
  {
    match t
    case SliceTy(elem) => CanonAllIsIdentity(Repeat(|v.vs|, elem), v.vs);
    case ArrayTy(n, elem) => CanonAllIsIdentity(Repeat(n, elem), v.vs);
    case TupleTy(ts) => CanonAllIsIdentity(ts, v.vs);
    case _ =>
  }

  lemma {:induction false} CanonAllIsIdentity(ts: seq<Type>, vs: seq<Value>)
    requires HaveTypes(ts, vs)
    ensures CanonAll(ts, vs) == vs <==> AllInRange(ts, vs)
    decreases vs
  {
    if vs != [] {
      CanonIsIdentity(ts[0], vs[0]);
      CanonAllIsIdentity(ts[1..], vs[1..]);
      var ws := CanonAll(ts, vs);
      assert ws[0] == Canon(ts[0], vs[0]) && ws[1..] == CanonAll(ts[1..], vs[1..]);
      assert vs == [vs[0]] + vs[1..];
    }
  }

  // ---------------------------------------------------------------- words

  function Word(n: int): (s: seq<byte>)
    ensures |s| == 32
  {
    FixedBytes(n, 32)
  }

  lemma {:induction false} FixedBytesSuffix(n: int, len: nat, k: nat)
    requires k <= len
    ensures FixedBytes(n, len)[len - k..] == FixedBytes(n, k)
    decreases len
  {
    if k > 0 {
      FixedBytesSuffix(n / 256, len - 1, k - 1);
      assert FixedBytes(n, len)[len - k..] == FixedBytes(n / 256, len - 1)[len - k..] + [n % 256];
    }
  }

  lemma PowValues()
    ensures Pow256(1) == 0x100 && Pow256(2) == 0x1_0000 && Pow256(4) == 0x1_0000_0000
    ensures Pow256(8) == TWO_64 && Pow256(32) == TWO_256
  {
    Pow256Eight();
    assert Pow256(2) == 0x1_0000 && Pow256(4) == 0x1_0000_0000;
    assert Pow256(10) == 256 * 256 * Pow256(8);
    assert Pow256(12) == 256 * 256 * Pow256(10);
    assert Pow256(14) == 256 * 256 * Pow256(12);
    assert Pow256(16) == 256 * 256 * Pow256(14);
    assert Pow256(18) == 256 * 256 * Pow256(16);
    assert Pow256(20) == 256 * 256 * Pow256(18);
    assert Pow256(22) == 256 * 256 * Pow256(20);
    assert Pow256(24) == 256 * 256 * Pow256(22);
    assert Pow256(26) == 256 * 256 * Pow256(24);
    assert Pow256(28) == 256 * 256 * Pow256(26);
    assert Pow256(30) == 256 * 256 * Pow256(28);
  }

  /** A word read back, whole or only its last bytes. */
  lemma WordValue(n: int, k: nat)
    requires 1 <= k <= 32
    ensures FromBigEndian(Word(n)[32 - k..]) == n % Pow256(k)
    ensures FromBigEndian(Word(n)) == n % TWO_256
  {
    hide FixedBytes, FromBigEndian, Pow256;
    FixedBytesSuffix(n, 32, k);
    FixedBytesValue(n, k);
    FixedBytesValue(n, 32);
    PowValues();
  }
}
