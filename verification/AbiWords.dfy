/**
 What the words of the ABI mean, by the numbers they stand for and without the encoder: integers, booleans and
 addresses are numbers, byte strings are followed by zeros. The decoder is described on any word, not only on words
 that the encoder wrote.
 */
module AbiWords {
  import opened Common
  import opened AbiTypes
  import opened AbiPack
  import opened AbiUnpack

  // ---------------------------------------------------------------- encoding

  /** An integer is 32 bytes that stand for it modulo 2^256. */
  lemma IntegerIsNumber(t: Type, v: Value)
    requires (t.IntTy? || t.UintTy?) && HasType(t, v)
    ensures |Enc(t, v)| == 32 && FromBigEndian(Enc(t, v)) == v.n % TWO_256
  {
    WordValue(v.n, 32);
  }

  /** A boolean is encoded as the number 0 or 1. */
  lemma BoolIsNumber(b: bool)
    ensures Enc(BoolTy, Bool(b)) == Enc(UintTy(8), Int(if b then 1 else 0))
  {
  }

  /** An address is encoded as the number of 160 bits that its bytes stand for. */
  lemma AddressIsNumber(s: seq<byte>)
    requires |s| == 20
    ensures Enc(AddressTy, Bytes(s)) == Enc(UintTy(160), Int(FromBigEndian(s)))
  {
    hide FromBigEndian, Pow256, Word;
    var n := FromBigEndian(s);
    FromBigEndianSplit(Zeros(12), s);
    ZerosAreNothing(12);
    FromBigEndianBound(s);
    SmallerPower();
    WordValue(n, 32);
    FromBigEndianInjective(LeftPad(s, 32), Word(n));
  }

  lemma {:induction false} ZerosAreNothing(n: nat)
    ensures FromBigEndian(Zeros(n)) == 0
  {
    if n > 0 {
      ZerosAreNothing(n - 1);
      assert Zeros(n)[..n - 1] == Zeros(n - 1);
    }
  }

  lemma SmallerPower()
    ensures Pow256(20) <= Pow256(32) == TWO_256
  {
    hide Pow256;
    PowValues();
    Pow256Monotone(20, 32);
  }

  /** Fixed bytes and functions come first in their word, and zeros follow. */
  lemma FixedBytesLead(t: Type, v: Value)
    requires ((t.FixedBytesTy? && t.width <= 32) || t.FunctionTy?) && HasType(t, v)
    ensures |Enc(t, v)| == 32 && forall i :: 0 <= i < 32 ==> Enc(t, v)[i] == if i < |v.s| then v.s[i] else 0
  {
  }

  /** Strings and bytes: their length as a number, then themselves, then zeros up to a whole word. */
  lemma BytesFollowLength(t: Type, v: Value)
    requires (t.StringTy? || t.BytesTy?) && HasType(t, v) && |v.s| < TWO_256
    ensures var b := Enc(t, v);
            && |b| % 32 == 0 && 32 + |v.s| <= |b| < 64 + |v.s| && FromBigEndian(b[..32]) == |v.s|
            && forall i :: 0 <= i < |b| - 32 ==> b[32 + i] == if i < |v.s| then v.s[i] else 0
  {
    assert Enc(t, v) == BytesSlice(v.s);
    SliceLayout(v.s);
  }

  lemma SliceLayout(s: seq<byte>)
    requires |s| < TWO_256
    ensures var b := BytesSlice(s);
            && |b| % 32 == 0 && 32 + |s| <= |b| < 64 + |s| && FromBigEndian(b[..32]) == |s|
            && forall i :: 0 <= i < |b| - 32 ==> b[32 + i] == if i < |s| then s[i] else 0
  {
    hide FromBigEndian, Word, RightPad, RoundUp;
    SmallWord(|s|);
    PaddedBehind(s, RoundUp(|s|));
    Behind(Word(|s|), RightPad(s, RoundUp(|s|)));
  }

  lemma SmallWord(n: nat)
    requires n < TWO_256
    ensures FromBigEndian(Word(n)) == n
  {
    hide FromBigEndian, Word;
    WordValue(n, 32);
    DivModUnique(n, TWO_256, 0, n);
  }

  lemma Behind(a: seq<byte>, b: seq<byte>)
    ensures (a + b)[..|a|] == a && forall i :: 0 <= i < |b| ==> (a + b)[|a| + i] == b[i]
  {
  }

  lemma PaddedBehind(s: seq<byte>, l: nat)
    requires |s| <= l
    ensures forall i :: 0 <= i < l ==> RightPad(s, l)[i] == if i < |s| then s[i] else 0
  {
  }

  // ---------------------------------------------------------------- decoding of any word

  /** The number of the last k bytes of a word. */
  lemma LowBytes(w: seq<byte>, k: nat)
    requires |w| == 32 && k <= 32
    ensures FromBigEndian(w[32 - k..]) == FromBigEndian(w) % Pow256(k)
    ensures FromBigEndian(w[..32 - k]) == FromBigEndian(w) / Pow256(k)
  {
    hide FromBigEndian, Pow256;
    assert w == w[..32 - k] + w[32 - k..];
    FromBigEndianSplit(w[..32 - k], w[32 - k..]);
    FromBigEndianBound(w[32 - k..]);
    var p, q, r := Pow256(k), FromBigEndian(w[..32 - k]), FromBigEndian(w[32 - k..]);
    assert q * p == p * q;
    DivModUnique(FromBigEndian(w), p, q, r);
  }

  /** An address is the low 160 bits of its word. */
  lemma AddressDecodes(w: seq<byte>)
    requires |w| == 32
    ensures var r := ReadElement(AddressTy, w);
            && r.Ok? && r.value.Bytes? && |r.value.s| == 20
            && FromBigEndian(r.value.s) == FromBigEndian(w) % Pow256(20)
  {
    hide FromBigEndian, Pow256;
    assert w[..32] == w;
    LowBytes(w, 20);
  }

  /** A boolean is read from the words 0 and 1, and any other word is an error. */
  lemma BoolDecodes(w: seq<byte>)
    requires |w| == 32
    ensures ReadElement(BoolTy, w) ==
            if FromBigEndian(w) <= 1 then Ok(Bool(FromBigEndian(w) == 1)) else Err
  {
    hide FromBigEndian;
    assert w[..32] == w && w == w[..31] + [w[31]];
    LastDigit(w[..31], w[31]);
    ZeroExactly(w[..31]);
  }

  lemma {:induction false} ZeroExactly(s: seq<byte>)
    ensures FromBigEndian(s) == 0 <==> AllZero(s)
  {
    if s != [] {
      ZeroExactly(s[..|s| - 1]);
    }
  }

  /** How many bits of the word an integer type reads. */
  function ReadBits(bits: nat): nat {
    if Native(bits) then bits else 256
  }

  lemma NativeModulus(bits: nat)
    ensures Modulus(bits) == Pow256(ReadBits(bits) / 8) && 1 <= ReadBits(bits) / 8 <= 32
  {
    PowValues();
  }

  function Low(x: nat, m: nat): nat
    requires m > 0
  {
    x % m
  }

  lemma LowWord(bits: nat, w: seq<byte>)
    requires |w| == 32
    ensures var width := if Native(bits) then bits / 8 else 32;
            FromBigEndian(w[32 - width..]) == Low(FromBigEndian(w), Modulus(bits))
  {
    hide FromBigEndian, Pow256, Modulus;
    NativeModulus(bits);
    LowBytes(w, ReadBits(bits) / 8);
  }

  /** An unsigned integer is the word modulo 2^bits; types without a machine integer read all 256 bits. */
  lemma UintDecodes(bits: nat, w: seq<byte>)
    requires |w| == 32
    ensures ReadElement(UintTy(bits), w) == Ok(Int(FromBigEndian(w) % Modulus(bits)))
  {
    hide FromBigEndian, Modulus;
    assert w[..32] == w;
    LowWord(bits, w);
  }

  /** The one number of the range that is congruent to x. */
  predicate IsResidue(v: int, x: nat, m: int) {
    m > 0 && -m / 2 <= v < m / 2 && v % m == x % m
  }

  /** A signed integer is the one number of its range that is congruent to the word. */
  lemma IntDecodes(bits: nat, w: seq<byte>)
    requires |w| == 32
    ensures var r := ReadElement(IntTy(bits), w);
            r.Ok? && r.value.Int? && IsResidue(r.value.n, FromBigEndian(w), Modulus(bits))
  {
    hide FromBigEndian, Modulus, Low, IsResidue;
    assert w[..32] == w;
    LowWord(bits, w);
    EvenModulus(bits);
    SignedResidue(FromBigEndian(w), Modulus(bits));
  }

  lemma SignedResidue(x: nat, m: nat)
    requires m > 0 && m % 2 == 0
    ensures var n: int := Low(x, m); IsResidue(if n < m / 2 then n else n - m, x, m)
  {
    var n := x % m;
    DivModUnique(n, m, 0, n);
    DivModUnique(n - m, m, -1, n);
  }

  lemma EvenModulus(bits: nat)
    ensures Modulus(bits) % 2 == 0 && Modulus(bits) > 0
  {
  }

  /** A function is the high 192 bits of a word whose low 64 bits are zero; any other word is an error. */
  lemma FunctionDecodes(w: seq<byte>)
    requires |w| == 32
    ensures var r := ReadElement(FunctionTy, w);
            && (r.Ok? <==> FromBigEndian(w) % TWO_64 == 0)
            && (r.Ok? ==> r.value.Bytes? && |r.value.s| == 24 && FromBigEndian(r.value.s) == FromBigEndian(w) / TWO_64)
  {
    hide FromBigEndian;
    assert w[..32] == w;
    LowBytes(w, 8);
    ZeroExactly(w[24..]);
    Pow256Eight();
  }

  /** Fixed bytes are the high bits of their word. */
  lemma FixedBytesDecode(width: nat, w: seq<byte>)
    requires |w| == 32 && width <= 32
    ensures var r := ReadElement(FixedBytesTy(width), w);
            && r.Ok? && r.value.Bytes? && |r.value.s| == width
            && FromBigEndian(r.value.s) == FromBigEndian(w) / Pow256(32 - width)
  {
    hide FromBigEndian, Pow256;
    LowBytes(w, 32 - width);
  }
}
