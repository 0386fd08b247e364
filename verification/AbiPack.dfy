/**
 Encoding of the contract ABI (abi/type.go, abi/pack.go, abi/argument.go): first as the recursive
 head and tail layout of the ABI specification, then as the loops that build it.
 */
module AbiPack {
  import opened Common
  import opened AbiTypes

  function Zeros(n: nat): (s: seq<byte>) {
    seq(n, _ => 0)
  }

  function RightPad(s: seq<byte>, l: nat): (r: seq<byte>)
    ensures |s| <= l ==> |r| == l && s <= r
  {
    if l <= |s| then s else s + Zeros(l - |s|)
  }

  function LeftPad(s: seq<byte>, l: nat): (r: seq<byte>)
    ensures |s| <= l ==> |r| == l && r[l - |s|..] == s
  {
    if l <= |s| then s else Zeros(l - |s|) + s
  }

  function RoundUp(l: nat): (n: nat)
    ensures l <= n < l + 32 && n % 32 == 0
  {
    (l + 31) / 32 * 32
  }

  function BytesSlice(s: seq<byte>): seq<byte> {
    Word(|s|) + RightPad(s, RoundUp(|s|))
  }

  // ---------------------------------------------------------------- specification

  function Enc(t: Type, v: Value): (b: seq<byte>)
    requires HasType(t, v)
    decreases v, 0
  {
    match t
    case IntTy(_) => Word(v.n)
    case UintTy(_) => Word(v.n)
    case BoolTy => Word(if v.b then 1 else 0)
    case StringTy => BytesSlice(v.s)
    case BytesTy => BytesSlice(v.s)
    case AddressTy => LeftPad(v.s, 32)
    case FixedBytesTy(_) => RightPad(v.s, 32)
    case FunctionTy => RightPad(v.s, 32)
    case SliceTy(elem) => Word(|v.vs|) + Block(Repeat(|v.vs|, elem), v.vs)
    case ArrayTy(n, elem) => Block(Repeat(n, elem), v.vs)
    case TupleTy(ts) => Block(ts, v.vs)
  }

  /** head(X1) ... head(Xk) tail(X1) ... tail(Xk) */
  function Block(ts: seq<Type>, vs: seq<Value>): (b: seq<byte>)
    requires HaveTypes(ts, vs)
    decreases vs, 1
  {
    Heads(ts, vs, TotalSize(ts)) + Tails(ts, vs)
  }

  /** Static values in place, dynamic ones as the offset of their tail; the first tail is at offset. */
  function Heads(ts: seq<Type>, vs: seq<Value>, offset: nat): (b: seq<byte>)
    requires HaveTypes(ts, vs)
    decreases vs, 0
  {
    if vs == [] then []
    else if IsDynamic(ts[0]) then Word(offset) + Heads(ts[1..], vs[1..], offset + |Enc(ts[0], vs[0])|)
    else Enc(ts[0], vs[0]) + Heads(ts[1..], vs[1..], offset)
  }

  function Tails(ts: seq<Type>, vs: seq<Value>): (b: seq<byte>)
    requires HaveTypes(ts, vs)
    decreases vs, 0
  {
    if vs == [] then []
    else (if IsDynamic(ts[0]) then Enc(ts[0], vs[0]) else []) + Tails(ts[1..], vs[1..])
  }

  // ---------------------------------------------------------------- sizes

  /** Fixed-width byte strings fit a word. */
  predicate Narrow(t: Type) {
    match t
    case FixedBytesTy(w) => w <= 32
    case SliceTy(elem) => Narrow(elem)
    case ArrayTy(_, elem) => Narrow(elem)
    case TupleTy(ts) => AllNarrow(ts)
    case _ => true
  }

  predicate AllNarrow(ts: seq<Type>) {
    forall i :: 0 <= i < |ts| ==> Narrow(ts[i])
  }

  lemma TailsOfStatic(ts: seq<Type>, vs: seq<Value>)
    requires HaveTypes(ts, vs) && (forall i :: 0 <= i < |ts| ==> !IsDynamic(ts[i]))
    ensures Tails(ts, vs) == []
    decreases vs
  {
    if vs != [] {
      TailsOfStatic(ts[1..], vs[1..]);
    }
  }

  /** By how much a static value is longer than its place: byte strings wider than a word are not cut. */
  function Excess(t: Type): nat
    decreases t
  {
    match t
    case FixedBytesTy(w) => if w > 32 then w - 32 else 0
    case ArrayTy(n, elem) => if IsDynamic(elem) then 0 else n * Excess(elem)
    case TupleTy(ts) => if IsDynamic(t) then 0 else TotalExcess(ts)
    case _ => 0
  }

  function TotalExcess(ts: seq<Type>): nat
    decreases ts
  {
    if ts == [] then 0 else Excess(ts[0]) + TotalExcess(ts[1..])
  }

  lemma {:induction false} TotalExcessRepeat(n: nat, t: Type)
    ensures TotalExcess(Repeat(n, t)) == n * Excess(t)
  {
    if n > 0 {
      assert Repeat(n, t)[0] == t && Repeat(n, t)[1..] == Repeat(n - 1, t);
      TotalExcessRepeat(n - 1, t);
      assert n * Excess(t) == Excess(t) + (n - 1) * Excess(t);
    }
  }

  lemma {:induction false} NarrowFits(t: Type)
    requires Narrow(t)
    ensures Excess(t) == 0
    decreases t, 1
  {
    match t
    case ArrayTy(n, elem) => NarrowFits(elem);
    case TupleTy(ts) => AllNarrowFit(ts);
    case _ =>
  }

  lemma {:induction false} AllNarrowFit(ts: seq<Type>)
    requires AllNarrow(ts)
    ensures TotalExcess(ts) == 0
    decreases ts, 0
  {
    if ts != [] {
      NarrowFits(ts[0]);
      AllNarrowFit(ts[1..]);
    }
  }

  /** A static value is encoded in the bytes reserved for its type, exactly if no byte string in it is too wide. */
  lemma {:induction false} StaticSize(t: Type, v: Value)
    requires HasType(t, v) && !IsDynamic(t)
    ensures |Enc(t, v)| == TypeSize(t) + Excess(t)
    ensures |Enc(t, v)| == TypeSize(t) <==> Excess(t) == 0
    decreases v, 0
  {
    match t
    case ArrayTy(n, elem) =>
      BlockSize(Repeat(n, elem), v.vs, TotalSize(Repeat(n, elem)));
      TailsOfStatic(Repeat(n, elem), v.vs);
      TotalSizeRepeat(n, elem);
      TotalExcessRepeat(n, elem);
      StaticElementSize(elem);
    case TupleTy(ts) =>
      BlockSize(ts, v.vs, TotalSize(ts));
      TailsOfStatic(ts, v.vs);
    case _ =>
  }

  lemma NarrowSize(t: Type, v: Value)
    requires HasType(t, v) && !IsDynamic(t) && Narrow(t)
    ensures |Enc(t, v)| == TypeSize(t)
  {
    hide Enc, TypeSize, Excess, Narrow, HasType;
    StaticSize(t, v);
    NarrowFits(t);
  }

  lemma StaticElementSize(elem: Type)
    requires !IsDynamic(elem)
    ensures elem.ArrayTy? || elem.TupleTy? || TypeSize(elem) == 32
  {
  }

  lemma InPlaceOrOffset(t: Type)
    requires IsDynamic(t)
    ensures TypeSize(t) == 32
  {
  }

  lemma DynamicFits(t: Type)
    requires IsDynamic(t)
    ensures Excess(t) == 0
  {
  }

  lemma {:induction false} BlockSize(ts: seq<Type>, vs: seq<Value>, offset: nat)
    requires HaveTypes(ts, vs)
    ensures |Heads(ts, vs, offset)| == TotalSize(ts) + TotalExcess(ts)
    decreases vs, 1
  {
    hide HasType, Enc, IsDynamic, TypeSize, Word, Excess;
    if vs != [] {
      if IsDynamic(ts[0]) {
        InPlaceOrOffset(ts[0]);
        DynamicFits(ts[0]);
        BlockSize(ts[1..], vs[1..], offset + |Enc(ts[0], vs[0])|);
      } else {
        StaticSize(ts[0], vs[0]);
        BlockSize(ts[1..], vs[1..], offset);
      }
    }
  }

  // ---------------------------------------------------------------- where a value is found

  /** The encoding of v, or the offset of its encoding, is found at the given index. */
  predicate Located(t: Type, v: Value, out: seq<byte>, index: nat, offset: nat)
    requires HasType(t, v)
  {
    if IsDynamic(t) then
      && index + 32 <= |out| && out[index..index + 32] == Word(offset)
      && offset <= |out| && Enc(t, v) <= out[offset..]
    else
      index <= |out| && Enc(t, v) <= out[index..]
  }

  /** The heads of the values are found at index, their tails at offset. */
  predicate BlockAt(ts: seq<Type>, vs: seq<Value>, out: seq<byte>, index: nat, offset: nat)
    requires HaveTypes(ts, vs)
  {
    && index <= |out| && Heads(ts, vs, offset) <= out[index..]
    && offset <= |out| && Tails(ts, vs) <= out[offset..]
  }

  lemma PrefixParts(a: seq<byte>, b: seq<byte>, out: seq<byte>, at: nat)
    requires at <= |out| && a + b <= out[at..]
    ensures at + |a| + |b| <= |out|
    ensures a <= out[at..] && b <= out[at + |a|..]
    ensures out[at..at + |a|] == a
  {
    assert a == (a + b)[..|a|] && b == (a + b)[|a|..];
    assert out[at + |a|..] == out[at..][|a|..];
    assert out[at..at + |a|] == out[at..][..|a|];
  }

  /** Every offset points at its own tail: a block is its first value followed by a block. */
  lemma BlockSplits(ts: seq<Type>, vs: seq<Value>, out: seq<byte>, index: nat, offset: nat)
    requires HaveTypes(ts, vs) && AllNarrow(ts) && vs != []
    requires BlockAt(ts, vs, out, index, offset)
    ensures Located(ts[0], vs[0], out, index, offset)
    ensures BlockAt(ts[1..], vs[1..], out, index + TypeSize(ts[0]),
                    if IsDynamic(ts[0]) then offset + |Enc(ts[0], vs[0])| else offset)
  {
    hide *;
    BlockUnfolds(ts, vs, offset);
    UnfoldBlockAt(ts, vs, out, index, offset);
    var e := Enc(ts[0], vs[0]);
    if IsDynamic(ts[0]) {
      PrefixParts(Word(offset), Heads(ts[1..], vs[1..], offset + |e|), out, index);
      PrefixParts(e, Tails(ts[1..], vs[1..]), out, offset);
      FoldLocated(ts[0], vs[0], out, index, offset);
      FoldBlockAt(ts[1..], vs[1..], out, index + TypeSize(ts[0]), offset + |e|);
    } else {
      NarrowSize(ts[0], vs[0]);
      PrefixParts(e, Heads(ts[1..], vs[1..], offset), out, index);
      FoldLocated(ts[0], vs[0], out, index, offset);
      FoldBlockAt(ts[1..], vs[1..], out, index + TypeSize(ts[0]), offset);
    }
  }

  lemma BlockUnfolds(ts: seq<Type>, vs: seq<Value>, offset: nat)
    requires HaveTypes(ts, vs) && AllNarrow(ts) && vs != []
    ensures |ts| == |vs| && HasType(ts[0], vs[0]) && Narrow(ts[0])
    ensures HaveTypes(ts[1..], vs[1..]) && AllNarrow(ts[1..])
    ensures var e := Enc(ts[0], vs[0]);
            if IsDynamic(ts[0]) then
              && Heads(ts, vs, offset) == Word(offset) + Heads(ts[1..], vs[1..], offset + |e|)
              && Tails(ts, vs) == e + Tails(ts[1..], vs[1..])
            else
              && Heads(ts, vs, offset) == e + Heads(ts[1..], vs[1..], offset)
              && Tails(ts, vs) == Tails(ts[1..], vs[1..])
  {
    hide Enc, IsDynamic, Word;
    assert [] + Tails(ts[1..], vs[1..]) == Tails(ts[1..], vs[1..]);
  }

  lemma UnfoldBlockAt(ts: seq<Type>, vs: seq<Value>, out: seq<byte>, index: nat, offset: nat)
    requires HaveTypes(ts, vs) && BlockAt(ts, vs, out, index, offset)
    ensures index <= |out| && Heads(ts, vs, offset) <= out[index..]
    ensures offset <= |out| && Tails(ts, vs) <= out[offset..]
  {
    hide Heads, Tails;
  }

  lemma FoldBlockAt(ts: seq<Type>, vs: seq<Value>, out: seq<byte>, index: nat, offset: nat)
    requires HaveTypes(ts, vs)
    requires index <= |out| && Heads(ts, vs, offset) <= out[index..]
    requires offset <= |out| && Tails(ts, vs) <= out[offset..]
    ensures BlockAt(ts, vs, out, index, offset)
  {
    hide Heads, Tails;
  }

  lemma FoldLocated(t: Type, v: Value, out: seq<byte>, index: nat, offset: nat)
    requires HasType(t, v) && index <= |out|
    requires IsDynamic(t) ==>
               && index + 32 <= |out| && out[index..index + 32] == Word(offset)
               && offset <= |out| && Enc(t, v) <= out[offset..]
    requires !IsDynamic(t) ==> Enc(t, v) <= out[index..]
    ensures Located(t, v, out, index, offset)
  {
    hide Enc, IsDynamic, Word;
  }

  /** A block at the front of some data, or after a prefix of it. */
  lemma BlockInFront(ts: seq<Type>, vs: seq<Value>, out: seq<byte>)
    requires HaveTypes(ts, vs) && AllNarrow(ts) && Block(ts, vs) <= out
    ensures BlockAt(ts, vs, out, 0, TotalSize(ts))
    ensures TotalSize(ts) <= |out|
  {
    assert out[0..] == out;
    BlockSize(ts, vs, TotalSize(ts));
    AllNarrowFit(ts);
    PrefixParts(Heads(ts, vs, TotalSize(ts)), Tails(ts, vs), out, 0);
  }

  // ---------------------------------------------------------------- the loops

  /** ret and tail are what the first i values contribute to the heads and tails. */
  ghost predicate Packed(ts: seq<Type>, vs: seq<Value>, i: nat, offset: nat, ret: seq<byte>, tail: seq<byte>)
    requires i <= |ts| == |vs|
  {
    && (HaveTypes(ts, vs) <==> HaveTypes(ts[i..], vs[i..]))
    && (HaveTypes(ts, vs) ==>
          && ret + Heads(ts[i..], vs[i..], offset) == Heads(ts, vs, TotalSize(ts))
          && tail + Tails(ts[i..], vs[i..]) == Tails(ts, vs))
  }

  lemma PackedStart(ts: seq<Type>, vs: seq<Value>)
    requires |ts| == |vs|
    ensures Packed(ts, vs, 0, TotalSize(ts), [], [])
  {
    hide Heads, Tails, HaveTypes, TotalSize;
    assert ts[0..] == ts && vs[0..] == vs;
    if HaveTypes(ts, vs) {
      var h, t := Heads(ts, vs, TotalSize(ts)), Tails(ts, vs);
      assert [] + h == h && [] + t == t;
    }
  }

  lemma PackedStep(ts: seq<Type>, vs: seq<Value>, i: nat, offset: nat, ret: seq<byte>, tail: seq<byte>)
    requires i < |ts| == |vs| && Packed(ts, vs, i, offset, ret, tail)
    ensures HaveTypes(ts, vs) ==> HasType(ts[i], vs[i])
    ensures HasType(ts[i], vs[i]) ==>
              var e := Enc(ts[i], vs[i]);
              if IsDynamic(ts[i]) then Packed(ts, vs, i + 1, offset + |e|, ret + Word(offset), tail + e)
              else Packed(ts, vs, i + 1, offset, ret + e, tail)
  {
    hide Enc, Word, IsDynamic, HasType, TotalSize;
    var us, ws := ts[i..], vs[i..];
    assert us[0] == ts[i] && us[1..] == ts[i + 1..] && ws[0] == vs[i] && ws[1..] == vs[i + 1..];
    if HasType(ts[i], vs[i]) && HaveTypes(ts, vs) {
      var e := Enc(ts[i], vs[i]);
      if IsDynamic(ts[i]) {
        ConcatAssociates(ret, Word(offset), Heads(us[1..], ws[1..], offset + |e|));
        ConcatAssociates(tail, e, Tails(us[1..], ws[1..]));
      } else {
        ConcatAssociates(ret, e, Heads(us[1..], ws[1..], offset));
        assert [] + Tails(us[1..], ws[1..]) == Tails(us[1..], ws[1..]);
      }
    }
  }

  lemma PackedEnd(ts: seq<Type>, vs: seq<Value>, offset: nat, ret: seq<byte>, tail: seq<byte>)
    requires |ts| == |vs| && Packed(ts, vs, |vs|, offset, ret, tail)
    ensures HaveTypes(ts, vs) && ret + tail == Block(ts, vs)
  {
    assert HaveTypes(ts[|vs|..], vs[|vs|..]);
  }

  /** Type.pack: the encoding, or an error exactly when the value does not have the type. */
  method PackType(t: Type, v: Value) returns (r: Option<seq<byte>>)
    ensures r == if HasType(t, v) then Some(Enc(t, v)) else None
    decreases v, 0
  {
    match t
    case SliceTy(elem) =>
      if !v.Seq? {
        return None;
      }
      r := PackElements(elem, v.vs);
      r := if r.None? then None else Some(Word(|v.vs|) + r.value);
    case ArrayTy(n, elem) =>
      if !v.Seq? || |v.vs| != n {
        return None;
      }
      r := PackElements(elem, v.vs);
    case TupleTy(ts) =>
      if !v.Seq? {
        return None;
      }
      r := Pack(ts, v.vs);
    case _ =>
      r := if HasType(t, v) then Some(Enc(t, v)) else None;
  }

  /** The loop over a slice or an array. */
  method PackElements(elem: Type, vs: seq<Value>) returns (r: Option<seq<byte>>)
    ensures var ts := Repeat(|vs|, elem);
            r == if HaveTypes(ts, vs) then Some(Block(ts, vs)) else None
    decreases vs, 1
  {
    hide Enc, HasType, HaveTypes, Packed, Block, IsDynamic, Word;
    ghost var ts := Repeat(|vs|, elem);
    var offset, ret, tail := 0, [], [];
    var offsetReq := IsDynamic(elem);
    if offsetReq {
      offset := TypeSize(elem) * |vs|;
    }
    TotalSizeRepeat(|vs|, elem);
    PackedStart(ts, vs);
    ghost var place: nat := TotalSize(ts);
    for i := 0 to |vs|
      invariant Packed(ts, vs, i, place, ret, tail)
      invariant offsetReq ==> offset == place
    {
      var val := PackType(elem, vs[i]);
      PackedStep(ts, vs, i, place, ret, tail);
      if val.None? {
        return None;
      }
      if !offsetReq {
        ret := ret + val.value;
      } else {
        ret := ret + Word(offset);
        offset := offset + |val.value|;
        tail := tail + val.value;
        place := place + |val.value|;
      }
    }
    PackedEnd(ts, vs, place, ret, tail);
    return Some(ret + tail);
  }

  /** Arguments.Pack, and the same loop over the fields of a tuple. */
  method Pack(ts: seq<Type>, args: seq<Value>) returns (r: Option<seq<byte>>)
    ensures r == if HaveTypes(ts, args) then Some(Block(ts, args)) else None
    decreases args, 1
  {
    hide Enc, HasType, Packed, Block, IsDynamic, Word, TypeSize;
    if |args| != |ts| {
      return None;
    }
    var inputOffset := 0;
    assert ts[0..] == ts;
    for i := 0 to |ts|
      invariant inputOffset + TotalSize(ts[i..]) == TotalSize(ts)
    {
      assert ts[i..][0] == ts[i] && ts[i..][1..] == ts[i + 1..];
      inputOffset := inputOffset + TypeSize(ts[i]);
    }
    r := PackArgs(ts, args, inputOffset);
  }

  method PackArgs(ts: seq<Type>, args: seq<Value>, headSize: nat) returns (r: Option<seq<byte>>)
    requires |ts| == |args| && headSize == TotalSize(ts)
    ensures r == if HaveTypes(ts, args) then Some(Block(ts, args)) else None
    decreases args, 0
  {
    hide Enc, HasType, HaveTypes, Packed, Block, IsDynamic, Word, TypeSize, TotalSize;
    var inputOffset: nat, ret, variableInput := headSize, [], [];
    PackedStart(ts, args);
    for i := 0 to |args|
      invariant Packed(ts, args, i, inputOffset, ret, variableInput)
    {
      var packed := PackType(ts[i], args[i]);
      PackedStep(ts, args, i, inputOffset, ret, variableInput);
      if packed.None? {
        return None;
      }
      if IsDynamic(ts[i]) {
        ret := ret + Word(inputOffset);
        inputOffset := inputOffset + |packed.value|;
        variableInput := variableInput + packed.value;
      } else {
        ret := ret + packed.value;
      }
    }
    PackedEnd(ts, args, inputOffset, ret, variableInput);
    return Some(ret + variableInput);
  }
}
