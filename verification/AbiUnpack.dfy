/**
 Decoding of the contract ABI (abi/unpack.go, abi/argument.go). Input is untrusted: offsets and
 lengths are checked, and everything that does not fit is an error.
 */
module AbiUnpack {
  import opened Common
  import opened AbiTypes
  import opened AbiPack

  // ---------------------------------------------------------------- elements

  /** The last bytes of the word, with a sign for signed types. */
  function ReadInteger(t: Type, b: seq<byte>): int
    requires |b| == 32 && (t.IntTy? || t.UintTy?)
  {
    var width := if Native(t.bits) then t.bits / 8 else 32;
    var n := FromBigEndian(b[32 - width..]);
    if t.UintTy? || n < Modulus(t.bits) / 2 then n else n - Modulus(t.bits)
  }

  predicate AllZero(s: seq<byte>) {
    forall i :: 0 <= i < |s| ==> s[i] == 0
  }

  function ReadBool(word: seq<byte>): Result<Value>
    requires |word| == 32
  {
    if AllZero(word[..31]) && word[31] <= 1 then Ok(Bool(word[31] == 1)) else Err
  }

  /** Types that fit one word in place. */
  predicate Elementary(t: Type) {
    t.IntTy? || t.UintTy? || t.BoolTy? || t.AddressTy? || t.FixedBytesTy? || t.FunctionTy?
  }

  /**
   One word, and for a byte string wider than a word what follows it: the slice of the word is extended. Where the
   data ends before, the bytes behind it decide, or the decoder panics; both are an error here.
   */
  function ReadElement(t: Type, rest: seq<byte>): Result<Value>
    requires Elementary(t) && |rest| >= 32
  {
    var word := rest[..32];
    match t
    case IntTy(_) => Ok(Int(ReadInteger(t, word)))
    case UintTy(_) => Ok(Int(ReadInteger(t, word)))
    case BoolTy => ReadBool(word)
    case AddressTy => Ok(Bytes(word[12..]))
    case FixedBytesTy(w) => if w <= |rest| then Ok(Bytes(rest[..w])) else Err
    case FunctionTy => if AllZero(word[24..]) then Ok(Bytes(word[..24])) else Err
  }

  /** The element and its length that the offset at index refers to. */
  function LengthPrefixPointsTo(index: nat, output: seq<byte>): (r: Result<(nat, nat)>)
    requires index + 32 <= |output|
    ensures r.Ok? ==> r.value.0 + r.value.1 <= |output|
  {
    var offsetEnd := FromBigEndian(output[index..index + 32]) + 32;
    if offsetEnd > |output| || offsetEnd >= TWO_63 then Err
    else
      var length := FromBigEndian(output[offsetEnd - 32..offsetEnd]);
      var total := offsetEnd + length;
      if total >= TWO_63 || total > |output| then Err else Ok((offsetEnd, length))
  }

  function TuplePointsTo(index: nat, output: seq<byte>): (r: Result<nat>)
    requires index + 32 <= |output|
    ensures r.Ok? ==> r.value <= |output|
  {
    var offset := FromBigEndian(output[index..index + 32]);
    if offset > |output| || offset >= TWO_63 then Err else Ok(offset)
  }

  // ---------------------------------------------------------------- recursive decoding

  function ToGoType(index: nat, t: Type, output: seq<byte>): Result<Value>
    decreases t, 0
  {
    if index + 32 > |output| then Err
    else if t.StringTy? || t.BytesTy? || t.SliceTy? then
      match LengthPrefixPointsTo(index, output)
      case Err => Err
      case Ok((begin, length)) =>
        if t.SliceTy? then ForEach(t.elem, output[begin..], length)
        else Ok(Bytes(output[begin..begin + length]))
    else
      var word := output[index..index + 32];
      if t.TupleTy? then
        if IsDynamic(t) then
          match TuplePointsTo(index, output)
          case Err => Err
          case Ok(begin) => AsSeq(Fields(t.elems, 0, output[begin..]))
        else AsSeq(Fields(t.elems, 0, output[index..]))
      else if t.ArrayTy? then
        if IsDynamic(t.elem) then
          var offset := FromBigEndian(word[24..]);
          if offset > |output| then Err else ForEach(t.elem, output[offset..], t.size)
        else ForEach(t.elem, output[index..], t.size)
      else ReadElement(t, output[index..])
  }

  function AsSeq(r: Result<seq<Value>>): Result<Value> {
    match r
    case Err => Err
    case Ok(vs) => Ok(Seq(vs))
  }

  function ForEach(elem: Type, output: seq<byte>, size: nat): Result<Value>
    decreases elem, 2
  {
    if 32 * size > |output| then Err else AsSeq(Elements(elem, size, 0, output))
  }

  function Elements(elem: Type, count: nat, pos: nat, output: seq<byte>): Result<seq<Value>>
    decreases elem, 1, count
  {
    if count == 0 then Ok([])
    else
      match ToGoType(pos, elem, output)
      case Err => Err
      case Ok(v) =>
        match Elements(elem, count - 1, pos + TypeSize(elem), output)
        case Err => Err
        case Ok(vs) => Ok([v] + vs)
  }

  function Fields(ts: seq<Type>, pos: nat, output: seq<byte>): Result<seq<Value>>
    decreases ts, 0
  {
    if ts == [] then Ok([])
    else
      match ToGoType(pos, ts[0], output)
      case Err => Err
      case Ok(v) =>
        match Fields(ts[1..], pos + TypeSize(ts[0]), output)
        case Err => Err
        case Ok(vs) => Ok([v] + vs)
  }

  lemma {:induction false} ElementsAreFields(elem: Type, count: nat, pos: nat, output: seq<byte>)
    ensures Elements(elem, count, pos, output) == Fields(Repeat(count, elem), pos, output)
    decreases count
  {
    hide ToGoType, TypeSize;
    if count > 0 {
      var ts := Repeat(count, elem);
      assert ts[0] == elem && ts[1..] == Repeat(count - 1, elem);
      ElementsAreFields(elem, count - 1, pos + TypeSize(elem), output);
    }
  }

  // ---------------------------------------------------------------- round trip

  lemma WordInPlace(n: int, out: seq<byte>, index: nat)
    requires index + 32 <= |out| && out[index..index + 32] == Word(n) && 0 <= n < TWO_63
    ensures FromBigEndian(out[index..index + 32]) == n
    ensures FromBigEndian(out[index..index + 32][24..]) == n
  {
    WordValue(n, 8);
    PowValues();
    Small(n);
  }

  lemma Small(n: int)
    requires 0 <= n < TWO_63
    ensures n % TWO_64 == n && n % TWO_256 == n
  {
  }

  /** Integers come back reduced to 256 bits, and machine integers unchanged. */
  lemma IntegerRoundTrip(t: Type, v: Value)
    requires (t.IntTy? || t.UintTy?) && HasType(t, v)
    ensures Int(ReadInteger(t, Word(v.n))) == Canon(t, v)
  {
    hide Word, FromBigEndian, Pow256;
    var width := if Native(t.bits) then t.bits / 8 else 32;
    var n, m := v.n, Modulus(t.bits);
    WordValue(n, width);
    assert Pow256(width) == m by {
      PowValues();
    }
    if Native(t.bits) {
      NativeResidue(n, m);
    }
  }

  lemma NativeResidue(n: int, m: int)
    requires m == 0x100 || m == 0x1_0000 || m == 0x1_0000_0000 || m == TWO_64
    requires -m / 2 <= n < m
    ensures 0 <= n ==> n % m == n && n % TWO_256 == n
    ensures n < 0 ==> n % m == n + m && n % TWO_256 == n + TWO_256
  {
  }

  lemma BoolRoundTrip(b: bool)
    ensures ReadBool(Word(if b then 1 else 0)) == Ok(Bool(b))
  {
    var n := if b then 1 else 0;
    LeadingZeroBytes(31);
    assert Word(n) == FixedBytes(0, 31) + [n];
  }

  lemma {:induction false} LeadingZeroBytes(len: nat)
    ensures AllZero(FixedBytes(0, len))
  {
    if len > 0 {
      LeadingZeroBytes(len - 1);
    }
  }

  lemma ElementRoundTrip(t: Type, v: Value, rest: seq<byte>)
    requires Elementary(t) && HasType(t, v) && Narrow(t)
    ensures |Enc(t, v)| == 32 && ReadElement(t, Enc(t, v) + rest) == Ok(Canon(t, v))
  {
    hide Word, ReadInteger, ReadBool;
    assert (Enc(t, v) + rest)[..32] == Enc(t, v);
    match t
    case IntTy(_) => IntegerRoundTrip(t, v);
    case UintTy(_) => IntegerRoundTrip(t, v);
    case BoolTy => BoolRoundTrip(v.b);
    case AddressTy =>
    case FixedBytesTy(w) => assert (Enc(t, v) + rest)[..w] == v.s;
    case FunctionTy => assert Enc(t, v)[24..] == Zeros(8);
  }

  lemma ElementaryRoundTrip(t: Type, v: Value, out: seq<byte>, index: nat)
    requires Elementary(t) && HasType(t, v) && Narrow(t)
    requires index <= |out| && Enc(t, v) <= out[index..]
    ensures ToGoType(index, t, out) == Ok(Canon(t, v))
  {
    hide Enc, ReadElement, HasType, Canon;
    var rest := out[index..][|Enc(t, v)|..];
    ElementRoundTrip(t, v, rest);
    assert out[index..] == Enc(t, v) + rest;
  }

  /** Where an offset word leads to a length word, the element after it is found. */
  lemma PrefixFound(out: seq<byte>, index: nat, offset: nat, length: nat)
    requires index + 32 <= |out| < TWO_63 && out[index..index + 32] == Word(offset)
    requires offset + 32 + length <= |out| && out[offset..offset + 32] == Word(length)
    ensures LengthPrefixPointsTo(index, out) == Ok((offset + 32, length))
  {
    hide Word;
    WordInPlace(offset, out, index);
    WordInPlace(length, out, offset);
  }

  lemma BytesRoundTrip(t: Type, v: Value, out: seq<byte>, index: nat, offset: nat)
    requires (t.StringTy? || t.BytesTy?) && HasType(t, v) && |out| < TWO_63
    requires Located(t, v, out, index, offset)
    ensures ToGoType(index, t, out) == Ok(Canon(t, v))
  {
    hide Word, LengthPrefixPointsTo, RightPad, RoundUp;
    PrefixParts(Word(|v.s|), RightPad(v.s, RoundUp(|v.s|)), out, offset);
    PrefixFound(out, index, offset, |v.s|);
    var begin := offset + 32;
    assert v.s <= out[begin..];
    assert out[begin..begin + |v.s|] == out[begin..][..|v.s|] == v.s;
  }

  // ---------------------------------------------------------------- room for what takes no bytes

  predicate Aggregate(t: Type) {
    t.SliceTy? || t.ArrayTy? || t.TupleTy?
  }

  /** The types of the components of an aggregate. */
  function Components(t: Type, v: Value): seq<Type>
    requires HasType(t, v) && Aggregate(t)
  {
    match t
    case SliceTy(elem) => Repeat(|v.vs|, elem)
    case ArrayTy(n, elem) => Repeat(n, elem)
    case TupleTy(ts) => ts
  }

  /** Where the block of the components begins. */
  function Begin(t: Type, index: nat, offset: nat): nat {
    if t.SliceTy? then offset + 32 else if IsDynamic(t) then offset else index
  }

  /**
   The decoder asks for a word before it looks at the type, and for 32 bytes per element before it looks at a
   list. What takes bytes has them; what takes none needs that much other data behind it.
   */
  predicate HasRoom(t: Type, v: Value, index: nat, offset: nat, length: int)
    requires HasType(t, v)
    decreases v, 1
  {
    && (TypeSize(t) == 0 ==> index + 32 <= length)
    && (Aggregate(t) ==> RoomInside(t, v, length - Begin(t, index, offset)))
  }

  predicate RoomInside(t: Type, v: Value, length: int)
    requires HasType(t, v) && Aggregate(t)
    decreases v, 0
  {
    && (!t.TupleTy? && TypeSize(t.elem) == 0 ==> 32 * |v.vs| <= length)
    && AllHaveRoom(Components(t, v), v.vs, 0, TotalSize(Components(t, v)), length)
  }

  predicate AllHaveRoom(ts: seq<Type>, vs: seq<Value>, index: nat, offset: nat, length: int)
    requires HaveTypes(ts, vs)
    decreases vs, 0
  {
    vs == [] ||
    (&& HasRoom(ts[0], vs[0], index, offset, length)
     && AllHaveRoom(ts[1..], vs[1..], index + TypeSize(ts[0]),
                    if IsDynamic(ts[0]) then offset + |Enc(ts[0], vs[0])| else offset, length))
  }

  /** A type whose every part takes bytes asks for nothing. */
  lemma {:induction false} SizedHasRoom(t: Type, v: Value, index: nat, offset: nat, length: int)
    requires HasType(t, v) && Sized(t)
    ensures HasRoom(t, v, index, offset, length)
    decreases v, 1
  {
    if Aggregate(t) {
      var ts := Components(t, v);
      assert AllSized(ts);
      AllSizedHaveRoom(ts, v.vs, 0, TotalSize(ts), length - Begin(t, index, offset));
    }
  }

  lemma {:induction false} AllSizedHaveRoom(ts: seq<Type>, vs: seq<Value>, index: nat, offset: nat, length: int)
    requires HaveTypes(ts, vs) && AllSized(ts)
    ensures AllHaveRoom(ts, vs, index, offset, length)
    decreases vs, 0
  {
    hide HasType, Sized, IsDynamic, Enc, TypeSize, HasRoom;
    if vs != [] {
      SizedHasRoom(ts[0], vs[0], index, offset, length);
      AllSizedHaveRoom(ts[1..], vs[1..], index + TypeSize(ts[0]),
                       if IsDynamic(ts[0]) then offset + |Enc(ts[0], vs[0])| else offset, length);
    }
  }

  // ---------------------------------------------------------------- decoding what was encoded

  lemma ComponentsNarrow(t: Type, v: Value)
    requires HasType(t, v) && Narrow(t) && Aggregate(t)
    ensures HaveTypes(Components(t, v), v.vs) && AllNarrow(Components(t, v))
    ensures Canon(t, v) == Seq(CanonAll(Components(t, v), v.vs))
    ensures v.Seq? && (t.ArrayTy? ==> |v.vs| == t.size) && (Countable(v) ==> AllCountable(v.vs) && |v.vs| < TWO_63)
    ensures Enc(t, v) ==
            if t.SliceTy? then Word(|v.vs|) + Block(Components(t, v), v.vs) else Block(Components(t, v), v.vs)
    ensures t.SliceTy? ==> IsDynamic(t)
  {
    hide Word;
  }

  /** A value is decoded from wherever its encoding was placed, exactly when it has room there. */
  lemma {:induction false} DecodeLocated(t: Type, v: Value, out: seq<byte>, index: nat, offset: nat)
    requires HasType(t, v) && Narrow(t) && |out| < TWO_63
    requires Located(t, v, out, index, offset)
    ensures HasRoom(t, v, index, offset, |out|) ==> ToGoType(index, t, out) == Ok(Canon(t, v))
    ensures !HasRoom(t, v, index, offset, |out|) && Countable(v) ==> ToGoType(index, t, out) == Err
    decreases v, 1
  {
    hide Word, Enc, ToGoType, Canon, Narrow, RoomInside, TypeSize, ForEach, Fields, HasType, Block, IsDynamic,
         Countable, AsSeq;
    if Elementary(t) {
      TakesAWord(t);
      ElementaryRoundTrip(t, v, out, index);
    } else if t.StringTy? || t.BytesTy? {
      TakesAWord(t);
      BytesRoundTrip(t, v, out, index, offset);
    } else if index + 32 > |out| {
      NoWord(t, out, index);
      PlaceOfEmpty(t, v, out, index, offset);
    } else if t.SliceTy? {
      TakesAWord(t);
      ComponentsNarrow(t, v);
      PrefixParts(Word(|v.vs|), Block(Components(t, v), v.vs), out, offset);
      DecodeComponents(t, v, out[offset + 32..]);
      if |v.vs| < TWO_63 {
        UnfoldSlice(t, out, index, offset, |v.vs|);
      }
    } else {
      ComponentsNarrow(t, v);
      DecodeComponents(t, v, out[Begin(t, index, offset)..]);
      UnfoldAggregate(t, out, index, offset);
    }
  }

  lemma TakesAWord(t: Type)
    requires !t.ArrayTy? && !t.TupleTy?
    ensures TypeSize(t) == 32 && Aggregate(t) == t.SliceTy? && IsDynamic(t) == (t.StringTy? || t.BytesTy? || t.SliceTy?)
  {
  }

  lemma NoWord(t: Type, out: seq<byte>, index: nat)
    requires index + 32 > |out|
    ensures ToGoType(index, t, out) == Err
  {
  }

  /** Only what takes no bytes can lie where no word follows. */
  lemma PlaceOfEmpty(t: Type, v: Value, out: seq<byte>, index: nat, offset: nat)
    requires HasType(t, v) && Narrow(t) && Located(t, v, out, index, offset) && index + 32 > |out|
    ensures TypeSize(t) == 0
  {
    hide Enc, TypeSize, Narrow, HasType;
    NarrowSize(t, v);
    WholeWords(t);
  }

  lemma WholeWords(t: Type)
    ensures TypeSize(t) == 0 || TypeSize(t) >= 32
  {
    assert TypeSize(t) % 32 == 0;
  }

  lemma UnfoldSlice(t: Type, out: seq<byte>, index: nat, offset: nat, length: nat)
    requires t.SliceTy? && index + 32 <= |out| < TWO_63 && out[index..index + 32] == Word(offset) && length < TWO_63
    requires offset + 32 <= |out| && out[offset..offset + 32] == Word(length)
    ensures ToGoType(index, t, out) == ForEach(t.elem, out[offset + 32..], length)
  {
    hide Word, Elements;
    if offset + 32 + length <= |out| {
      PrefixFound(out, index, offset, length);
    } else {
      WordInPlace(offset, out, index);
      WordInPlace(length, out, offset);
    }
  }

  lemma UnfoldAggregate(t: Type, out: seq<byte>, index: nat, offset: nat)
    requires (t.ArrayTy? || t.TupleTy?) && index + 32 <= |out| < TWO_63
    requires IsDynamic(t) ==> offset <= |out| && out[index..index + 32] == Word(offset)
    ensures var start := if IsDynamic(t) then offset else index;
            ToGoType(index, t, out) ==
            if t.ArrayTy? then ForEach(t.elem, out[start..], t.size) else AsSeq(Fields(t.elems, 0, out[start..]))
  {
    hide Word, ForEach, Fields, AsSeq, FromBigEndian;
    assert t.ArrayTy? ==> IsDynamic(t) == IsDynamic(t.elem);
    if IsDynamic(t) {
      WordInPlace(offset, out, index);
    }
  }

  lemma ElementsFit(elem: Type, count: nat, out: seq<byte>)
    requires TypeSize(elem) > 0 && TotalSize(Repeat(count, elem)) <= |out|
    ensures 32 * count <= |out|
  {
    hide TotalSize, TypeSize;
    WholeWords(elem);
    TotalSizeRepeat(count, elem);
    MulMonotone(32, TypeSize(elem), count);
  }

  /** The components of an aggregate whose block lies at the front of out. */
  lemma {:induction false} DecodeComponents(t: Type, v: Value, out: seq<byte>)
    requires HasType(t, v) && Narrow(t) && Aggregate(t)
    requires HaveTypes(Components(t, v), v.vs) && Block(Components(t, v), v.vs) <= out && |out| < TWO_63
    ensures var r := if t.TupleTy? then AsSeq(Fields(t.elems, 0, out)) else ForEach(t.elem, out, |v.vs|);
            && (RoomInside(t, v, |out|) ==> r == Ok(Canon(t, v)) && (t.SliceTy? ==> |v.vs| < TWO_63))
            && (!RoomInside(t, v, |out|) && Countable(v) ==> r == Err)
    decreases v, 0
  {
    hide Word, Block, Enc, Fields, Elements, TypeSize, TotalSize, HaveTypes, CanonAll, IsDynamic, HasType, Canon,
         Repeat, AllHaveRoom, Narrow;
    ComponentsNarrow(t, v);
    var ts := Components(t, v);
    BlockInFront(ts, v.vs, out);
    DecodeBlock(ts, v.vs, out, 0, TotalSize(ts));
    if !t.TupleTy? {
      ElementsAreFields(t.elem, |v.vs|, 0, out);
      if TypeSize(t.elem) > 0 {
        ElementsFit(t.elem, |v.vs|, out);
      }
    }
  }

  /** A block is decoded exactly when everything in it has room. */
  lemma {:induction false} DecodeBlock(ts: seq<Type>, vs: seq<Value>, out: seq<byte>, index: nat, offset: nat)
    requires HaveTypes(ts, vs) && AllNarrow(ts) && |out| < TWO_63
    requires BlockAt(ts, vs, out, index, offset)
    ensures AllHaveRoom(ts, vs, index, offset, |out|) ==> Fields(ts, index, out) == Ok(CanonAll(ts, vs))
    ensures !AllHaveRoom(ts, vs, index, offset, |out|) && AllCountable(vs) ==> Fields(ts, index, out) == Err
    decreases vs, 0
  {
    hide ToGoType, Canon, Enc, BlockAt, Located, Narrow, TypeSize, IsDynamic, HasType, HasRoom, Countable;
    if vs != [] {
      BlockSplits(ts, vs, out, index, offset);
      DecodeLocated(ts[0], vs[0], out, index, offset);
      DecodeBlock(ts[1..], vs[1..], out, index + TypeSize(ts[0]),
                  if IsDynamic(ts[0]) then offset + |Enc(ts[0], vs[0])| else offset);
    }
  }

  // ---------------------------------------------------------------- the loops

  /** forEachUnpack */
  method ForEachUnpack(elem: Type, output: seq<byte>, size: nat) returns (r: Result<Value>)
    ensures r == ForEach(elem, output, size)
  {
    hide ToGoType;
    if 32 * size > |output| {
      return Err;
    }
    var elemSize := TypeSize(elem);
    var acc: seq<Value>, pos: nat := [], 0;
    PrependNothing(Elements(elem, size, 0, output));
    for j := 0 to size
      invariant Elements(elem, size, 0, output) == Prepend(acc, Elements(elem, size - j, pos, output))
    {
      var v := ToGoType(pos, elem, output);
      if v.Err? {
        return Err;
      }
      PrependStep(acc, v.value, Elements(elem, size - j - 1, pos + elemSize, output));
      acc, pos := acc + [v.value], pos + elemSize;
    }
    assert acc + [] == acc;
    return Ok(Seq(acc));
  }

  /** Putting the values decoded so far in front of the rest. */
  function Prepend(acc: seq<Value>, r: Result<seq<Value>>): Result<seq<Value>> {
    match r
    case Err => Err
    case Ok(vs) => Ok(acc + vs)
  }

  lemma PrependNothing(r: Result<seq<Value>>)
    ensures Prepend([], r) == r
  {
    if r.Ok? {
      assert [] + r.value == r.value;
    }
  }

  lemma PrependStep(acc: seq<Value>, v: Value, r: Result<seq<Value>>)
    ensures Prepend(acc, match r case Err => Err case Ok(vs) => Ok([v] + vs)) == Prepend(acc + [v], r)
  {
    if r.Ok? {
      assert acc + ([v] + r.value) == (acc + [v]) + r.value;
    }
  }

  /**
   UnpackValues, and the same loop over the fields of a tuple: the position of an argument is its
   number plus the words that earlier static arrays and tuples took beyond their first.
   */
  method UnpackValues(ts: seq<Type>, data: seq<byte>) returns (r: Result<seq<Value>>)
    ensures r == Fields(ts, 0, data)
  {
    hide ToGoType, IsDynamic, TypeSize;
    var retval: seq<Value>, virtualArgs: int := [], 0;
    assert ts[0..] == ts;
    PrependNothing(Fields(ts, 0, data));
    for index := 0 to |ts|
      invariant index + virtualArgs >= 0
      invariant Fields(ts, 0, data) == Prepend(retval, Fields(ts[index..], (index + virtualArgs) * 32, data))
    {
      var t := ts[index];
      assert ts[index..][0] == t && ts[index..][1..] == ts[index + 1..];
      var pos := (index + virtualArgs) * 32;
      var v := ToGoType(pos, t, data);
      InPlaceWords(t);
      if (t.ArrayTy? || t.TupleTy?) && !IsDynamic(t) {
        virtualArgs := virtualArgs + TypeSize(t) / 32 - 1;
      }
      if v.Err? {
        return Err;
      }
      assert (index + 1 + virtualArgs) * 32 == pos + TypeSize(t);
      PrependStep(retval, v.value, Fields(ts[index + 1..], pos + TypeSize(t), data));
      retval := retval + [v.value];
    }
    assert retval + [] == retval;
    return Ok(retval);
  }

  lemma InPlaceWords(t: Type)
    ensures TypeSize(t) / 32 * 32 == TypeSize(t)
    ensures !((t.ArrayTy? || t.TupleTy?) && !IsDynamic(t)) ==> TypeSize(t) == 32
  {
  }

  // ---------------------------------------------------------------- main results

  /** Everything packed has room in front of `rest` bytes of other data. */
  predicate Roomy(ts: seq<Type>, vs: seq<Value>, rest: nat)
    requires HaveTypes(ts, vs)
  {
    AllHaveRoom(ts, vs, 0, TotalSize(ts), |Block(ts, vs)| + rest)
  }

  /**
   Decoding what was packed, whatever follows it, gives every value back reduced to 256 bits; it fails exactly
   when something that takes no bytes lacks room, which never happens for types whose parts all take bytes.
   */
  lemma RoundTrip(ts: seq<Type>, vs: seq<Value>, rest: seq<byte>)
    requires HaveTypes(ts, vs) && AllNarrow(ts) && |Block(ts, vs)| + |rest| < TWO_63
    ensures Roomy(ts, vs, |rest|) ==> Fields(ts, 0, Block(ts, vs) + rest) == Ok(CanonAll(ts, vs))
    ensures !Roomy(ts, vs, |rest|) && AllCountable(vs) ==> Fields(ts, 0, Block(ts, vs) + rest) == Err
    ensures AllSized(ts) ==> Roomy(ts, vs, |rest|)
  {
    hide Fields, Block, HaveTypes, BlockAt, CanonAll, TotalSize, AllHaveRoom, AllNarrow, AllSized;
    BlockInFront(ts, vs, Block(ts, vs) + rest);
    DecodeBlock(ts, vs, Block(ts, vs) + rest, 0, TotalSize(ts));
    if AllSized(ts) {
      AllSizedHaveRoom(ts, vs, 0, TotalSize(ts), |Block(ts, vs)| + |rest|);
    }
  }

  /** Pack then UnpackValues is the identity exactly when every big integer fits 256 bits and everything has room. */
  method PackThenUnpack(ts: seq<Type>, vs: seq<Value>) returns (r: Result<seq<Value>>)
    requires HaveTypes(ts, vs) && AllNarrow(ts) && AllCountable(vs) && |Block(ts, vs)| < TWO_63
    ensures r == Ok(vs) <==> AllInRange(ts, vs) && Roomy(ts, vs, 0)
    ensures r == Err <==> !Roomy(ts, vs, 0)
  {
    hide Fields, Block, HaveTypes, CanonAll, AllInRange, Roomy, AllNarrow, AllCountable;
    var packed := Pack(ts, vs);
    r := UnpackValues(ts, packed.value);
    RoundTrip(ts, vs, []);
    assert Block(ts, vs) + [] == Block(ts, vs);
    CanonAllIsIdentity(ts, vs);
  }

  /** Different values have different encodings. */
  lemma PackInjective(ts: seq<Type>, vs: seq<Value>, ws: seq<Value>, rest: seq<byte>)
    requires HaveTypes(ts, vs) && HaveTypes(ts, ws) && AllNarrow(ts) && |Block(ts, vs)| + |rest| < TWO_63
    requires AllSized(ts) || (Roomy(ts, vs, |rest|) && AllCountable(ws))
    requires AllInRange(ts, vs) && AllInRange(ts, ws) && Block(ts, vs) == Block(ts, ws)
    ensures vs == ws
  {
    hide Fields, Block, HaveTypes, CanonAll, AllInRange, Roomy, AllNarrow, AllSized, AllCountable;
    RoundTrip(ts, vs, rest);
    RoundTrip(ts, ws, rest);
    CanonAllIsIdentity(ts, vs);
    CanonAllIsIdentity(ts, ws);
  }

  /** Packing a single uint256[0] gives no bytes, which the decoder rejects. */
  lemma EmptyArrayFails()
    ensures var t := ArrayTy(0, UintTy(256));
            && HaveTypes([t], [Seq([])]) && Block([t], [Seq([])]) == []
            && Fields([t], 0, Block([t], [Seq([])])) == Err
  {
    var t := ArrayTy(0, UintTy(256));
    assert HaveTypes(Repeat(0, UintTy(256)), []);
    assert HasType(t, Seq([]));
    assert HaveTypes([t][1..], [Seq([])][1..]);
  }

  function EmptyLists(n: nat): seq<Value> {
    seq(n, _ => Seq([]))
  }

  /** Lists of no elements take no bytes, and each needs a word behind it. */
  lemma {:induction false} EmptyListsRoom(n: nat, length: nat)
    ensures var ts, vs := Repeat(n, ArrayTy(0, UintTy(256))), EmptyLists(n);
            && HaveTypes(ts, vs) && AllCountable(vs) && CanonAll(ts, vs) == vs && |Block(ts, vs)| == 0
            && TotalSize(ts) == 0 && (AllHaveRoom(ts, vs, 0, 0, length) <==> n == 0 || 32 <= length)
  {
    hide HasType, TypeSize, Enc, HasRoom, Canon, Countable, IsDynamic;
    var t := ArrayTy(0, UintTy(256));
    var ts, vs := Repeat(n, t), EmptyLists(n);
    if n > 0 {
      assert ts[0] == t && ts[1..] == Repeat(n - 1, t) && vs[0] == Seq([]) && vs[1..] == EmptyLists(n - 1);
      EmptyListsRoom(n - 1, length);
      EmptyListRoom(length);
    }
  }

  lemma EmptyListRoom(length: nat)
    ensures var t := ArrayTy(0, UintTy(256));
            && HasType(t, Seq([])) && Countable(Seq([])) && Canon(t, Seq([])) == Seq([]) && TypeSize(t) == 0
            && Enc(t, Seq([])) == [] && !IsDynamic(t) && (HasRoom(t, Seq([]), 0, 0, length) <==> 32 <= length)
  {
    var t := ArrayTy(0, UintTy(256));
    assert Repeat(0, UintTy(256)) == [];
    assert HaveTypes(Repeat(0, UintTy(256)), []);
  }

  /** A slice of n arrays uint256[0] decodes exactly when 32 bytes for each of them follow. */
  lemma EmptyArraysDecode(n: nat, rest: seq<byte>)
    requires n < TWO_63 && 64 + |rest| < TWO_63
    ensures var ts, vs := [SliceTy(ArrayTy(0, UintTy(256)))], [Seq(EmptyLists(n))];
            && HaveTypes(ts, vs)
            && Fields(ts, 0, Block(ts, vs) + rest) == if 32 * n <= |rest| then Ok(vs) else Err
  {
    hide HasType, Fields, Enc, Word, Block, HasRoom, Canon, CanonAll, AllHaveRoom, HaveTypes, TotalSize;
    var t, v := SliceTy(ArrayTy(0, UintTy(256))), Seq(EmptyLists(n));
    EmptySliceRoom(n, |rest|);
    Alone(t, v, 64 + |rest|);
    RoundTrip([t], [v], rest);
  }

  /** A single dynamic argument. */
  lemma Alone(t: Type, v: Value, length: nat)
    requires HasType(t, v) && IsDynamic(t)
    ensures HaveTypes([t], [v]) && |Block([t], [v])| == 32 + |Enc(t, v)| && CanonAll([t], [v]) == [Canon(t, v)]
    ensures TotalSize([t]) == 32 && (AllHaveRoom([t], [v], 0, 32, length) <==> HasRoom(t, v, 0, 32, length))
    ensures AllCountable([v]) == Countable(v)
  {
    hide HasType, Enc, Word, Canon, HasRoom, IsDynamic, TypeSize, Countable;
    assert HaveTypes([t][1..], [v][1..]);
    assert TotalSize([t][1..]) == 0;
    assert TotalSize([t]) == 32;
    assert Heads([t][1..], [v][1..], 32 + |Enc(t, v)|) == [] && Tails([t][1..], [v][1..]) == [];
  }

  lemma EmptySliceRoom(n: nat, rest: nat)
    requires n < TWO_63
    ensures var t, v := SliceTy(ArrayTy(0, UintTy(256))), Seq(EmptyLists(n));
            && HasType(t, v) && Countable(v) && Canon(t, v) == v && |Enc(t, v)| == 32
            && (HasRoom(t, v, 0, 32, 64 + rest) <==> 32 * n <= rest)
  {
    hide Word, Block, AllHaveRoom;
    EmptyListsRoom(n, rest);
    EmptyListRoom(rest);
  }

  // ---------------------------------------------------------------- byte strings wider than a word

  /** A byte string of 33 bytes is packed whole although one word is reserved for it; alone it reads back. */
  lemma WideAlone(s: seq<byte>)
    requires |s| == 33
    ensures HaveTypes([FixedBytesTy(33)], [Bytes(s)]) && Block([FixedBytesTy(33)], [Bytes(s)]) == s
    ensures Fields([FixedBytesTy(33)], 0, s) == Ok([Bytes(s)])
  {
    var t, v := FixedBytesTy(33), Bytes(s);
    assert HaveTypes([t][1..], [v][1..]);
    assert TotalSize([t][1..]) == 0 && TotalSize([t]) == 32;
    assert Heads([t], [v], 32) == s + Heads([t][1..], [v][1..], 32) == s;
    assert Tails([t], [v]) == [] + Tails([t][1..], [v][1..]) == [];
    assert Block([t], [v]) == s + [] == s;
    assert s[0..] == s && s[..33] == s;
    assert ToGoType(0, t, s) == Ok(v);
    assert Fields([t][1..], 32, s) == Ok([]);
    assert [v] + [] == [v];
  }

  /** In front of a number it moves the number by one byte, so that another one is read. */
  lemma WideShifts(s: seq<byte>, n: int)
    requires |s| == 33
    ensures var ts, vs := [FixedBytesTy(33), UintTy(256)], [Bytes(s), Int(n)];
            && HaveTypes(ts, vs) && Block(ts, vs) == s + Word(n)
            && Fields(ts, 0, Block(ts, vs)) == Ok([Bytes(s), Int(FromBigEndian([s[32]] + Word(n)[..31]))])
  {
    hide Word, FromBigEndian, ToGoType, Block, HaveTypes;
    var t, u, out := FixedBytesTy(33), UintTy(256), s + Word(n);
    var v, x := Bytes(s), Int(FromBigEndian([s[32]] + Word(n)[..31]));
    WidePacked(s, n);
    WideRead(s, n);
    assert [t, u][1..] == [u] && [u][1..] == [] && Fields([], 64, out) == Ok([]);
    assert Fields([u], 32, out) == Ok([x] + []) && [x] + [] == [x] && [v] + [x] == [v, x];
    assert Fields([t, u], 0, out) == Ok([v] + [x]);
  }

  lemma WideRead(s: seq<byte>, n: int)
    requires |s| == 33
    ensures ToGoType(0, FixedBytesTy(33), s + Word(n)) == Ok(Bytes(s))
    ensures ToGoType(32, UintTy(256), s + Word(n)) == Ok(Int(FromBigEndian([s[32]] + Word(n)[..31])))
  {
    hide Word, FromBigEndian;
    var out, word := s + Word(n), [s[32]] + Word(n)[..31];
    assert out[0..] == out && out[..33] == s;
    assert out[32..] == word + Word(n)[31..];
    assert (word + Word(n)[31..])[..32] == word;
  }

  lemma WidePacked(s: seq<byte>, n: int)
    requires |s| == 33
    ensures var ts, vs := [FixedBytesTy(33), UintTy(256)], [Bytes(s), Int(n)];
            HaveTypes(ts, vs) && Block(ts, vs) == s + Word(n)
  {
    hide Word;
    var t, u, v, w := FixedBytesTy(33), UintTy(256), Bytes(s), Int(n);
    var ts, vs, out := [t, u], [v, w], s + Word(n);
    assert ts[1..] == [u] && vs[1..] == [w] && [u][1..] == [] && [w][1..] == [];
    assert HaveTypes([], []) && HaveTypes([u], [w]);
    assert TotalSize([]) == 0 && TotalSize([u]) == 32 && TotalSize(ts) == 64;
    assert Heads([], [], 64) == [] && Tails([], []) == [];
    assert Heads([u], [w], 64) == Word(n) + [] == Word(n);
    assert Heads(ts, vs, 64) == s + Word(n);
    assert Tails([u], [w]) == [] + [] && Tails(ts, vs) == [] + [];
    assert out + [] == out;
  }
}
