/**
 The streaming RLP decoder (rlp/decode.go): a Stream keeps the unread input, the bytes left in
 every enclosing list and the header of the value ahead, and decodes untyped values.
 */
module RlpStream {
  import opened Common
  import opened RlpSpec

  datatype Error =
    | EOL | EOF | UnexpectedEOF | CanonSize | ElemTooLarge | ValueTooLarge
    | ExpectedString | ExpectedList | NotInList | NotAtEOL | MoreThanOneValue

  datatype Result<+T> = Ok(value: T) | Err(error: Error)

  datatype Kind = Byte | String | List

  /** A header and the number of bytes it takes. */
  datatype Head = Head(kind: Kind, size: uint64, length: nat)

  /** The canonical header at the front of b, if there is one. */
  function ParseHead(b: seq<byte>): (h: Option<Head>)
    ensures h.Some? ==> 1 <= h.value.length <= |b|
  {
    if |b| == 0 then None
    else if b[0] < 0x80 then Some(Head(Byte, 0, 1))
    else if b[0] < 0xB8 then Some(Head(String, b[0] - 0x80, 1))
    else if b[0] < 0xC0 then ParseLongHead(String, b, b[0] - 0xB7)
    else if b[0] < 0xF8 then Some(Head(List, b[0] - 0xC0, 1))
    else ParseLongHead(List, b, b[0] - 0xF7)
  }

  function ParseLongHead(kind: Kind, b: seq<byte>, width: nat): (h: Option<Head>)
    requires 1 <= width <= 8 && |b| >= 1
    ensures h.Some? ==> 1 <= h.value.length <= |b|
  {
    if |b| < 1 + width || (width > 1 && b[1] == 0) then None
    else
      WordFits(b[1..1 + width]);
      var size := FromBigEndian(b[1..1 + width]);
      if size < 56 then None else Some(Head(kind, size, 1 + width))
  }

  lemma LongHeadLength(b: seq<byte>, width: int)
    ensures forall kind :: 1 <= width <= 8 && |b| >= 1 && ParseLongHead(kind, b, width).Some? ==>
              var h := ParseLongHead(kind, b, width).value; h.length == 1 + width && h.kind == kind
  {
  }

  lemma WordFits(s: seq<byte>)
    requires |s| <= 8
    ensures FromBigEndian(s) < TWO_64
  {
    FromBigEndianBound(s);
    Pow256Monotone(|s|, 8);
    Pow256Eight();
  }

  lemma SliceOfRest(s: seq<byte>, a: nat, b: nat)
    requires a <= |s| && b <= |s[a..]|
    ensures s[a..][..b] == s[a..a + b] && s[a..][b..] == s[a + b..]
  {
  }

  lemma FirstAndRest(b: seq<byte>, n: nat)
    requires 1 <= n <= |b|
    ensures b[..n] == [b[0]] + b[1..n]
  {
  }

  /** A long head is exactly what the specification writes in front of a long payload. */
  lemma LongHeadIsHeader(kind: Kind, tag: byte, b: seq<byte>, width: nat)
    requires (kind.String? && tag == STRING_TAG) || (kind.List? && tag == LIST_TAG)
    requires 1 <= width <= 8 && |b| >= 1 && b[0] == tag + 55 + width
    requires ParseLongHead(kind, b, width).Some?
    ensures var h := ParseLongHead(kind, b, width).value; b[..h.length] == Header(tag, h.size)
  {
    var s := b[1..1 + width];
    assert s[0] == b[1];
    if width == 1 {
      assert FromBigEndian(s) == FromBigEndian([]) * 256 + s[0];
    }
    BigEndianInvertsFromBigEndian(s);
    FirstAndRest(b, 1 + width);
  }

  lemma ParseHeadIsHeader(b: seq<byte>)
    requires ParseHead(b).Some?
    ensures var h := ParseHead(b).value;
            && (h.kind.Byte? ==> b[0] < 0x80 && h.length == 1)
            && (h.kind.String? ==> b[..h.length] == Header(STRING_TAG, h.size))
            && (h.kind.List? ==> b[..h.length] == Header(LIST_TAG, h.size))
  {
    if 0xB8 <= b[0] < 0xC0 {
      LongHeadIsHeader(String, STRING_TAG, b, b[0] - 0xB7);
    } else if 0xF8 <= b[0] {
      LongHeadIsHeader(List, LIST_TAG, b, b[0] - 0xF7);
    } else {
      assert b[..1] == [b[0]];
    }
  }

  lemma HeaderParses(tag: byte, size: nat, rest: seq<byte>)
    requires IsTag(tag) && size < TWO_64
    ensures ParseHead(Header(tag, size) + rest) ==
            Some(Head(if tag == STRING_TAG then String else List, size, |Header(tag, size)|))
  {
    HeaderFirstByte(tag, size);
    var b := Header(tag, size) + rest;
    if size >= 56 {
      var n := |BigEndian(size)|;
      assert b[1..1 + n] == BigEndian(size);
      assert b[1] == BigEndian(size)[0];
      FromBigEndianInvertsBigEndian(size);
    }
  }

  /** Whether the innermost list, if any, still has n bytes. */
  predicate Room(stack: seq<uint64>, n: nat) {
    stack == [] || n <= stack[|stack| - 1]
  }

  /** Taking n bytes out of the innermost list, in machine arithmetic. */
  function Spend(stack: seq<uint64>, n: nat): seq<uint64> {
    if stack == [] then [] else stack[..|stack| - 1] + [Wrap64(stack[|stack| - 1] - n)]
  }

  lemma SpendTwice(stack: seq<uint64>, m: nat, n: nat)
    ensures Spend(Spend(stack, m), n) == Spend(stack, m + n)
  {
    if stack != [] {
      var t := stack[|stack| - 1];
      assert (t - m) % TWO_64 == t - m - ((t - m) / TWO_64) * TWO_64;
      WrapShift(t - m - n, (t - m) / TWO_64);
    }
  }

  lemma WrapShift(x: int, k: int)
    ensures Wrap64(x - k * TWO_64) == Wrap64(x)
  {
  }

  lemma SpendNothing(stack: seq<uint64>)
    ensures Spend(stack, 0) == stack
  {
  }

  lemma RoomForNothing(stack: seq<uint64>)
    ensures Room(stack, 0)
  {
  }

  lemma TopSpent(stack: seq<uint64>, n: nat)
    ensures Spend(stack, n) == if stack == [] then [] else stack[|stack| - 1 := Wrap64(stack[|stack| - 1] - n)]
  {
  }

  /** The value ahead, as Kind reports it for a stream positioned between two values. */
  function Ahead(input: seq<byte>, stack: seq<uint64>, limited: bool): Option<Head> {
    if stack != [] && stack[|stack| - 1] == 0 then None
    else match ParseHead(input)
      case None => None
      case Some(h) =>
        if Room(stack, h.length) && Room(stack, h.size) && (limited ==> h.size <= |input| - h.length)
        then Some(h) else None
  }

  class Stream {
    var input: seq<byte>        // what the byte slice reader has not handed out yet
    var remaining: uint64
    var limited: bool
    var stack: seq<uint64>      // bytes left in each enclosing list, innermost last
    var kind: Option<Kind>      // None when the next call of Kind has to read a header
    var size: uint64
    var kinderr: Option<Error>
    var byteval: byte

    ghost predicate Valid()
      reads this
    {
      && |input| < TWO_64
      && (limited ==> remaining == |input|)
    }

    /** The state between two values after n further bytes were taken from the given one. */
    twostate predicate Advanced(n: nat)
      reads this
    {
      && Valid()
      && limited == old(limited)
      && n <= |old(input)|
      && input == old(input)[n..]
      && stack == Spend(old(stack), n)
    }

    /** Reset on a byte slice reader: an empty input leaves the stream without a limit. */
    constructor (b: seq<byte>)
      requires |b| < TWO_64
      ensures Valid() && input == b && stack == [] && kind == None && limited == (|b| > 0)
    {
      input := b;
      remaining := |b|;
      limited := |b| > 0;
      stack := [];
      kind := None;
      size := 0;
      kinderr := None;
      byteval := 0;
    }

    function ListLimit(): (r: (bool, uint64))
      reads this
    {
      if |stack| == 0 then (false, 0) else (true, stack[|stack| - 1])
    }

    method WillRead(n: uint64) returns (e: Option<Error>)
      requires Valid()
      modifies `kind, `stack, `remaining
      ensures kind == None && input == old(input) && limited == old(limited)
      ensures e.None? <==> Room(old(stack), n) && (limited ==> n <= |input|)
      ensures e.None? ==> stack == Spend(old(stack), n) && (limited ==> remaining == |input| - n)
      ensures e.Some? ==> e.value == ElemTooLarge || e.value == ValueTooLarge
    {
      kind := None;
      var (inList, limit) := ListLimit();
      if inList {
        if n > limit {
          return Some(ElemTooLarge);
        }
        stack := stack[|stack| - 1 := limit - n];
      }
      if limited {
        if n > remaining {
          return Some(ValueTooLarge);
        }
        remaining := remaining - n;
      }
      return None;
    }

    method ReadByte() returns (r: Result<byte>)
      requires Valid()
      modifies `kind, `stack, `remaining, `input
      ensures kind == None
      ensures r.Ok? <==> Room(old(stack), 1) && 1 <= |old(input)|
      ensures r.Ok? ==> Advanced(1) && r.value == old(input)[0]
      ensures r.Err? ==> r.error != EOL
    {
      var e := WillRead(1);
      if e.Some? {
        return Err(e.value);
      }
      if |input| == 0 {
        return Err(UnexpectedEOF);
      }
      r := Ok(input[0]);
      input := input[1..];
    }

    /** The slice reader's Read: as many bytes as it has and the buffer takes. */
    method Read(want: nat) returns (chunk: seq<byte>, eof: bool)
      modifies this`input
      ensures eof <==> old(input) == []
      ensures chunk + input == old(input)
      ensures |chunk| == if want <= |old(input)| then want else |old(input)|
    {
      if |input| == 0 {
        return [], true;
      }
      var n := if want <= |input| then want else |input|;
      chunk, eof := input[..n], false;
      input := input[n..];
    }

    method ReadFull(n: uint64) returns (r: Result<seq<byte>>)
      requires Valid()
      modifies `kind, `stack, `remaining, `input
      ensures kind == None
      ensures r.Ok? <==> Room(old(stack), n) && n <= |old(input)|
      ensures r.Ok? ==> Advanced(n) && r.value == old(input)[..n]
      ensures r.Err? ==> r.error != EOL
    {
      hide Spend, Room;
      var e := WillRead(n);
      if e.Some? {
        return Err(e.value);
      }
      var buf: seq<byte>, eof := [], false;
      while |buf| < n && !eof
        invariant buf + input == old(input) && |buf| <= n
        invariant eof ==> input == [] && |buf| < n
        invariant kind == None && stack == Spend(old(stack), n) && limited == old(limited)
        invariant limited ==> remaining == |old(input)| - n
        decreases |input|, !eof
      {
        var chunk;
        chunk, eof := Read(n - |buf|);
        buf := buf + chunk;
      }
      if |buf| < n {
        return Err(UnexpectedEOF);
      }
      assert buf == old(input)[..n] && input == old(input)[n..];
      return Ok(buf);
    }

    /** Big-endian integer of the given width; no bytes at all stand for zero. */
    method ReadUint(width: nat) returns (r: Result<uint64>)
      requires Valid() && width <= 8
      modifies `kind, `stack, `remaining, `input
      ensures kind == None
      ensures r.Ok? <==>
              && Room(old(stack), width) && width <= |old(input)|
              && (width > 1 ==> old(input)[0] != 0)
      ensures r.Ok? ==> Advanced(width) && r.value == FromBigEndian(old(input)[..width])
      ensures r.Err? ==> r.error != EOL
    {
      if width == 0 {
        kind := None;
        SpendNothing(stack);
        return Ok(0);
      }
      if width == 1 {
        var b := ReadByte();
        if b.Err? {
          return Err(b.error);
        }
        assert FromBigEndian(old(input)[..1]) == FromBigEndian([]) * 256 + old(input)[0];
        return Ok(b.value);
      }
      var rest := ReadFull(width);
      if rest.Err? {
        return Err(rest.error);
      }
      var zeros: seq<byte> := seq(8 - width, _ => 0);
      var buffer := zeros + rest.value;
      if buffer[8 - width] == 0 {
        return Err(CanonSize);
      }
      WordFits(buffer);
      LeadingZeros(zeros, rest.value);
      return Ok(FromBigEndian(buffer));
    }

    /** Reads a header; the value byte of a single-byte string is kept in byteval. */
    method ReadKind() returns (k: Kind, sz: uint64, e: Option<Error>)
      requires Valid()
      modifies `kind, `stack, `remaining, `input, `byteval
      ensures e.None? <==> ParseHead(old(input)).Some? && Room(old(stack), ParseHead(old(input)).value.length)
      ensures e.None? ==>
                var h := ParseHead(old(input)).value;
                && k == h.kind && sz == h.size && Advanced(h.length)
                && (k.Byte? ==> byteval == old(input)[0])
      ensures e.Some? ==> e.value != EOL
    {
      var b := ReadByte();
      if b.Err? {
        k, sz, e := Byte, 0, Some(b.error);
        if |stack| == 0 && (b.error == UnexpectedEOF || b.error == ValueTooLarge) {
          e := Some(EOF);
        }
      } else {
        assert [b.value] + input == old(input);
        ghost var h := ParseHead(old(input));
        SpendTwice(old(stack), 1, if h.Some? then h.value.length - 1 else 0);
        k, sz, e := ReadSize(b.value);
      }
    }

    /** What follows the tag t, which was read just before. */
    method ReadSize(t: byte) returns (k: Kind, sz: uint64, e: Option<Error>)
      requires Valid()
      modifies `kind, `stack, `remaining, `input, `byteval
      ensures var h := ParseHead([t] + old(input));
              && (e.None? <==> h.Some? && Room(old(stack), h.value.length - 1))
              && (e.None? ==> k == h.value.kind && sz == h.value.size && Advanced(h.value.length - 1))
      ensures e.None? && k.Byte? ==> byteval == t
      ensures e.Some? ==> e.value != EOL
    {
      hide Spend, Room, ParseLongHead;
      SpendNothing(stack);
      RoomForNothing(stack);
      LongHeadLength([t] + input, if t < 0xC0 then t - 0xB7 else t - 0xF7);
      assert input[0..] == input;
      k, sz, e := Byte, 0, None;
      byteval := 0;
      if t < 0x80 {
        byteval := t;
      } else if t < 0xB8 {
        k, sz := String, t - 0x80;
      } else if t < 0xC0 {
        k := String;
        sz, e := ReadLongSize(k, t, t - 0xB7);
      } else if t < 0xF8 {
        k, sz := List, t - 0xC0;
      } else {
        k := List;
        sz, e := ReadLongSize(k, t, t - 0xF7);
      }
    }

    /** The size after the long tag t, which was read just before. */
    method ReadLongSize(ghost k: Kind, ghost t: byte, width: nat) returns (sz: uint64, e: Option<Error>)
      requires Valid() && 1 <= width <= 8
      modifies `kind, `stack, `remaining, `input
      ensures e.None? <==> Room(old(stack), width) && ParseLongHead(k, [t] + old(input), width).Some?
      ensures e.None? ==> Advanced(width) && ParseLongHead(k, [t] + old(input), width).value.size == sz
      ensures e.Some? ==> e.value != EOL
    {
      var r := ReadUint(width);
      ghost var b := [t] + old(input);
      assert |b| >= 1 + width ==> b[1..1 + width] == old(input)[..width];
      if r.Err? {
        return 0, Some(r.error);
      }
      if r.value < 56 {
        return r.value, Some(CanonSize);
      }
      return r.value, None;
    }

    /** The header of the value ahead: the one read before, or the one in front of the input. */
    ghost function Next(): Option<Head>
      reads this
    {
      if kind.None? then Ahead(input, stack, limited)
      else if kinderr.None? then Some(Head(kind.value, size, 0))
      else None
    }

    /**
     Kind and size of the value ahead. The limit it compares the size with was taken before the
     header was read, so a payload may exceed what its list has left by up to the header's length.
     */
    method Kind() returns (k: Kind, sz: uint64, e: Option<Error>)
      requires Valid()
      modifies this
      ensures old(kind).Some? ==>
                unchanged(this) && k == old(kind).value && sz == old(size) && e == old(kinderr)
      ensures old(kind).None? ==>
                (e == Some(EOL) <==> old(stack) != [] && old(stack)[|old(stack)| - 1] == 0)
      ensures e == Some(EOL) ==> unchanged(this)
      ensures e.None? <==> old(Next()).Some?
      ensures e.None? ==>
                var h := old(Next()).value;
                && k == h.kind && sz == h.size && Advanced(h.length)
                && kind == Some(k) && size == sz && kinderr == None
                && (k.Byte? ==> byteval == if old(kind).Some? then old(byteval) else old(input)[0])
    {
      SpendNothing(stack);
      if kind.Some? {
        return kind.value, size, kinderr;
      }
      var (inList, limit) := ListLimit();
      if inList && limit == 0 {
        return Byte, 0, Some(EOL);
      }
      k, sz, e := ReadKind();
      kind, size, kinderr := Some(k), sz, e;
      if e.None? {
        if inList && size > limit {
          kinderr := Some(ElemTooLarge);
        } else if limited && size > remaining {
          kinderr := Some(ValueTooLarge);
        }
      }
      return k, size, kinderr;
    }

    /** List: enters the list ahead; the outer count is reduced without a check. */
    method EnterList() returns (r: Result<uint64>)
      requires Valid()
      modifies this
      ensures r.Ok? <==> old(Next()).Some? && old(Next()).value.kind == List
      ensures r.Ok? ==>
                var h := old(Next()).value;
                && r.value == h.size && kind == None && h.length <= |old(input)|
                && stack == Spend(old(stack), h.length + h.size) + [h.size]
                && Valid() && input == old(input)[h.length..] && limited == old(limited)
      ensures r.Err? && old(kind).Some? ==> unchanged(this)
    {
      hide Next, Spend;
      var k, sz, e := Kind();
      if e.Some? {
        return Err(e.value);
      }
      if k != List {
        return Err(ExpectedList);
      }
      SpendTwice(old(stack), old(Next()).value.length, sz);
      TopSpent(stack, sz);
      var (inList, limit) := ListLimit();
      if inList {
        stack := stack[|stack| - 1 := Wrap64(limit - sz)];
      }
      stack := stack + [sz];
      kind := None;
      size := 0;
      return Ok(sz);
    }

    method ListEnd() returns (e: Option<Error>)
      requires Valid()
      modifies this
      ensures e.None? <==> old(stack) != [] && old(stack)[|old(stack)| - 1] == 0
      ensures e.None? ==>
                && stack == old(stack)[..|old(stack)| - 1] && kind == None
                && Valid() && input == old(input) && limited == old(limited)
      ensures e.Some? ==> e.value != EOL && unchanged(this)
    {
      var (inList, limit) := ListLimit();
      if !inList {
        return Some(NotInList);
      } else if limit > 0 {
        return Some(NotAtEOL);
      }
      stack := stack[..|stack| - 1];
      kind := None;
      size := 0;
      return None;
    }

    /** The string behind its header. */
    method StringBytes(size: uint64) returns (r: Result<seq<byte>>)
      requires Valid()
      modifies `kind, `stack, `remaining, `input
      ensures kind == None
      ensures r.Ok? <==>
              Room(old(stack), size) && size <= |old(input)| && !(size == 1 && old(input)[0] < 128)
      ensures r.Ok? ==> Advanced(size) && r.value == old(input)[..size]
      ensures r.Err? ==> r.error != EOL
    {
      hide Spend, Room;
      r := ReadFull(size);
      if r.Ok? && size == 1 && r.value[0] < 128 {
        return Err(CanonSize);
      }
    }

    /** Bytes: the string ahead, unless it is a single byte that should have been its own encoding. */
    method Bytes() returns (r: Result<seq<byte>>)
      requires Valid()
      modifies this
      ensures old(Next()).None? || old(Next()).value.kind == List ==> r.Err?
      ensures old(Next()).Some? && old(Next()).value.kind == Byte ==>
                && r == Ok([if old(kind).Some? then old(byteval) else old(input)[0]])
                && Advanced(old(Next()).value.length) && kind == None
      ensures old(Next()).Some? && old(Next()).value.kind == String ==>
                var h := old(Next()).value;
                && h.length <= |old(input)|
                && (r.Ok? <==>
                    && Room(Spend(old(stack), h.length), h.size) && h.length + h.size <= |old(input)|
                    && !(h.size == 1 && old(input)[h.length] < 128))
                && (r.Ok? ==>
                      && r.value == old(input)[h.length..h.length + h.size]
                      && Advanced(h.length + h.size) && kind == None)
      ensures old(kind).Some? && old(kinderr) != Some(EOL) ==> r != Err(EOL)
    {
      hide Next, Spend, Room, Pow256, FromBigEndian;
      var k, sz, e := Kind();
      if e.Some? {
        return Err(e.value);
      }
      match k
      case Byte =>
        kind := None;
        return Ok([byteval]);
      case String =>
        ghost var length := old(Next()).value.length;
        SpendTwice(old(stack), length, sz);
        r := StringBytes(sz);
        if length + sz <= |old(input)| {
          SliceOfRest(old(input), length, sz);
        }
      case List =>
        return Err(ExpectedString);
    }

    /**
     Decodes one untyped value. It succeeds exactly on values encoded at the front of the input
     that fit the innermost list, and then consumes precisely that encoding; inside a list it may
     also accept a value that overruns the list, which wraps the list's count around.
     */
    method DecodeInterface() returns (r: Result<Item>)
      requires Valid() && kind == None
      modifies this
      ensures r == Err(EOL) <==> old(stack) != [] && old(stack)[|old(stack)| - 1] == 0
      ensures r == Err(EOL) ==> unchanged(this)
      ensures r.Ok? ==>
                && Encode(r.value) <= old(input)
                && Advanced(|Encode(r.value)|) && kind == None
      ensures r.Err? ==> NothingFits(old(input), old(stack))
      decreases |input|, 0
    {
      hide Encode, EncodeAll, Spend, ParseHead, IsPayload, NothingFits;
      ghost var i0, s0 := input, stack;
      var k, sz, e := Kind();
      if e.Some? {
        NothingAhead(i0, s0, old(limited));
        r := Err(e.value);
      } else {
        ghost var h, bv := Ahead(i0, s0, limited).value, byteval;
        SpendTwice(s0, h.length, h.size);
        SpendTwice(s0, h.length, 0);
        r := DecodePayload();
        if r.Ok? {
          Accepted(r.value, i0, h, bv);
        } else {
          Rejected(i0, s0, h, bv);
        }
      }
    }

    /** Decodes the value whose header was just read. */
    method DecodePayload() returns (r: Result<Item>)
      requires Valid() && kind.Some? && kinderr.None?
      modifies this
      ensures r.Ok? ==>
                && IsPayload(r.value, old(kind).value, old(size), old(byteval), old(input))
                && Advanced(if old(kind).value.Byte? then 0 else old(size)) && kind == None
      ensures r.Err? ==>
                && r.error != EOL
                && forall v :: IsPayload(v, old(kind).value, old(size), old(byteval), old(input)) ==>
                     old(kind).value.String? && !Room(old(stack), old(size))
      decreases |input|, 3
    {
      if kind == Some(List) {
        var items := DecodeListSlice();
        r := if items.Ok? then Ok(Lst(items.value)) else Err(items.error);
      } else {
        var b := Bytes();
        r := if b.Ok? then Ok(Str(b.value)) else Err(b.error);
      }
    }

    /** Decodes the elements of the list whose header was just read. */
    method DecodeListSlice() returns (r: Result<seq<Item>>)
      requires Valid() && kind == Some(List) && kinderr.None?
      modifies this
      ensures r.Ok? ==>
                && EncodeAll(r.value) <= old(input) && |EncodeAll(r.value)| == old(size)
                && Advanced(old(size)) && kind == None
      ensures r.Err? ==> r.error != EOL
      ensures r.Err? ==> NoElements(old(input), old(size))
      decreases |input|, 2
    {
      ghost var i0, s0, n := input, stack, size;
      var sz := EnterList();
      if sz.value == 0 {
        var e := ListEnd();
        assert EncodeAll([]) == [];
        return Ok([]);
      }
      r := DecodeSliceElems();
      if r.Err? {
        return r;
      }
      var e := ListEnd();
      assert stack == Spend(s0, n);
    }

    /** Decodes values until the innermost list is used up. */
    method DecodeSliceElems() returns (r: Result<seq<Item>>)
      requires Valid() && kind == None && stack != []
      modifies this
      ensures var top := old(stack)[|old(stack)| - 1];
              && (r.Ok? ==>
                  && EncodeAll(r.value) <= old(input) && |EncodeAll(r.value)| == top
                  && Advanced(top) && kind == None)
              && (r.Err? ==> NoElements(old(input), top))
      ensures r.Err? ==> r.error != EOL
      decreases |input|, 1
    {
      ghost var i0, s0 := input, stack;
      ghost var top := s0[|s0| - 1];
      var acc: seq<Item>, done := [], false;
      r := Ok(acc);
      SpendNothing(stack);
      while !done
        invariant r.Ok? ==>
                    && Valid() && kind == None && limited == old(limited)
                    && r.value == acc && EncodeAll(acc) <= i0 && input == i0[|EncodeAll(acc)|..]
                    && stack == Spend(s0, |EncodeAll(acc)|) && OnTrack(acc, i0, top)
                    && (done ==> |EncodeAll(acc)| == top)
        invariant r.Err? ==> done && r.error != EOL && NoElements(i0, top)
        decreases !done, |input|
      {
        var v := DecodeInterface();
        if v == Err(EOL) {
          WrapToZero(top, |EncodeAll(acc)|);
          done := true;
        } else if v.Err? {
          Stuck(acc, i0, s0);
          r, done := Err(v.error), true;
        } else {
          OneMore(acc, v.value, i0, top);
          OneMorePosition(acc, v.value, i0);
          SpendTwice(s0, |EncodeAll(acc)|, |Encode(v.value)|);
          acc := acc + [v.value];
          r := Ok(acc);
        }
      }
    }
  }

  lemma {:induction false} LeadingZeros(zeros: seq<byte>, s: seq<byte>)
    requires forall i :: 0 <= i < |zeros| ==> zeros[i] == 0
    ensures FromBigEndian(zeros + s) == FromBigEndian(s)
    decreases |zeros| + |s|
  {
    if s != [] {
      assert (zeros + s)[..|zeros + s| - 1] == zeros + s[..|s| - 1];
      LeadingZeros(zeros, s[..|s| - 1]);
    } else if zeros != [] {
      assert zeros + s == zeros;
      var front := zeros[..|zeros| - 1];
      assert front + [] == front;
      LeadingZeros(front, []);
    }
  }

  /** An encoded value that fits is always announced. */
  lemma EncodingIsAhead(v: Item, input: seq<byte>, stack: seq<uint64>, limited: bool)
    requires Encode(v) <= input && Room(stack, |Encode(v)|) && |input| < TWO_64
    ensures Ahead(input, stack, limited) == ParseHead(input)
    ensures ParseHead(input).Some?
    ensures var h := ParseHead(input).value;
            !h.kind.Byte? ==> |Encode(v)| == h.length + h.size
    ensures var h := ParseHead(input).value; IsPayload(v, h.kind, h.size, input[0], input[h.length..])
  {
    hide ParseLongHead, Header;
    var rest := input[|Encode(v)|..];
    assert input == Encode(v) + rest;
    FirstByteOfEncoding(v, rest);
    if input[0] >= 0x80 {
      var p := Payload(v);
      HeaderParses(Tag(v), |p|, p + rest);
      var n := |Header(Tag(v), |p|)|;
      assert input[n..] == p + rest;
      assert v.Str? && |p| == 1 ==> p[0] >= 128;
    }
  }

  /** v is what a header of the given kind and size announces in front of the given input. */
  ghost predicate IsPayload(v: Item, kind: Kind, size: nat, byteval: byte, input: seq<byte>) {
    match kind
    case Byte => v == Str([byteval])
    case String => v.Str? && |v.bytes| == size && v.bytes <= input && !(size == 1 && v.bytes[0] < 128)
    case List => v.Lst? && |EncodeAll(v.items)| == size && EncodeAll(v.items) <= input
  }

  /** A canonical header and its payload make up the encoding. */
  lemma Accepted(v: Item, input: seq<byte>, h: Head, byteval: byte)
    requires ParseHead(input) == Some(h) && (h.kind.Byte? ==> byteval == input[0])
    requires IsPayload(v, h.kind, h.size, byteval, input[h.length..])
    ensures Encode(v) <= input && |Encode(v)| == h.length + (if h.kind.Byte? then 0 else h.size)
  {
    hide ParseHead, Header;
    ParseHeadIsHeader(input);
    if h.kind.Byte? {
      assert [input[0]] <= input;
    } else {
      PrefixJoins(input[..h.length], Payload(v), input);
    }
  }

  /** No value that fits the innermost list is encoded at the front of the input. */
  ghost predicate NothingFits(input: seq<byte>, stack: seq<uint64>) {
    forall v :: Encode(v) <= input ==> !Room(stack, |Encode(v)|)
  }

  /** The first size bytes of the input are not a run of encoded values. */
  ghost predicate NoElements(input: seq<byte>, size: nat) {
    forall vs :: EncodeAll(vs) <= input ==> |EncodeAll(vs)| != size
  }

  lemma NothingAhead(input: seq<byte>, stack: seq<uint64>, limited: bool)
    requires |input| < TWO_64 && Ahead(input, stack, limited).None?
    ensures NothingFits(input, stack)
  {
    forall v | Encode(v) <= input ensures !Room(stack, |Encode(v)|) {
      if Room(stack, |Encode(v)|) {
        EncodingIsAhead(v, input, stack, limited);
      }
    }
  }

  lemma Rejected(input: seq<byte>, stack: seq<uint64>, h: Head, byteval: byte)
    requires |input| < TWO_64 && ParseHead(input) == Some(h) && Room(stack, h.length)
    requires h.kind.Byte? ==> byteval == input[0]
    requires forall v :: IsPayload(v, h.kind, h.size, byteval, input[h.length..]) ==>
               h.kind.String? && !Room(Spend(stack, h.length), h.size)
    ensures NothingFits(input, stack)
  {
    forall v | Encode(v) <= input ensures !Room(stack, |Encode(v)|) {
      EncodingIsAhead(v, input, [], false);
      assert IsPayload(v, h.kind, h.size, byteval, input[h.length..]);
    }
  }

  lemma OneValueInFront(v: Item, w: Item, input: seq<byte>)
    requires Encode(v) <= input && Encode(w) <= input && |input| < TWO_64
    ensures v == w
  {
    PrefixFree(v, input[|Encode(v)|..], w, input[|Encode(w)|..]);
  }

  /** A count that came back to zero counted exactly the bytes that were taken. */
  lemma WrapToZero(top: uint64, n: nat)
    requires n < TWO_64 && Wrap64(top - n) == 0
    ensures n == top
  {
  }

  /** While a list of the given size is being decoded its next element lies ahead and fits. */
  lemma NextElementAhead(acc: seq<Item>, vs: seq<Item>, input: seq<byte>)
    requires EncodeAll(vs) <= input && acc <= vs && EncodeAll(acc) <= input
    ensures |acc| == |vs| ==> acc == vs
    ensures |acc| < |vs| ==>
              && Encode(vs[|acc|]) <= input[|EncodeAll(acc)|..]
              && |EncodeAll(acc)| + |Encode(vs[|acc|])| <= |EncodeAll(vs)|
  {
    var todo := vs[|acc|..];
    assert vs == acc + todo;
    EncodeAllConcat(acc, todo);
    PrefixSplits(EncodeAll(acc), EncodeAll(todo), input);
    if |acc| < |vs| {
      PrefixSplits(Encode(todo[0]), EncodeAll(todo[1..]), input[|EncodeAll(acc)|..]);
    }
  }

  /** The elements decoded so far begin every run of values of the list's size. */
  ghost predicate OnTrack(acc: seq<Item>, input: seq<byte>, size: nat) {
    forall vs :: EncodeAll(vs) <= input && |EncodeAll(vs)| == size ==> acc <= vs
  }

  lemma OneMore(acc: seq<Item>, v: Item, input: seq<byte>, size: nat)
    requires |input| < TWO_64 && OnTrack(acc, input, size) && |EncodeAll(acc)| != size
    requires EncodeAll(acc) <= input && Encode(v) <= input[|EncodeAll(acc)|..]
    ensures OnTrack(acc + [v], input, size)
  {
    forall vs | EncodeAll(vs) <= input && |EncodeAll(vs)| == size ensures acc + [v] <= vs {
      NextElementAhead(acc, vs, input);
      OneValueInFront(v, vs[|acc|], input[|EncodeAll(acc)|..]);
    }
  }

  lemma OneMorePosition(acc: seq<Item>, v: Item, input: seq<byte>)
    requires EncodeAll(acc) <= input && Encode(v) <= input[|EncodeAll(acc)|..]
    ensures EncodeAll(acc + [v]) <= input
    ensures |EncodeAll(acc + [v])| == |EncodeAll(acc)| + |Encode(v)|
    ensures input[|EncodeAll(acc + [v])|..] == input[|EncodeAll(acc)|..][|Encode(v)|..]
  {
    EncodeAllAppend(acc, v);
    PrefixJoins(EncodeAll(acc), Encode(v), input);
  }

  lemma PrefixJoins<T>(a: seq<T>, b: seq<T>, s: seq<T>)
    requires a <= s && b <= s[|a|..]
    ensures a + b <= s && s[|a + b|..] == s[|a|..][|b|..]
  {
    assert s == a + s[|a|..] && s[|a|..] == b + s[|a|..][|b|..];
  }

  lemma Stuck(acc: seq<Item>, input: seq<byte>, stack: seq<uint64>)
    requires stack != [] && OnTrack(acc, input, stack[|stack| - 1])
    requires |EncodeAll(acc)| != stack[|stack| - 1]
    requires EncodeAll(acc) <= input
    requires NothingFits(input[|EncodeAll(acc)|..], Spend(stack, |EncodeAll(acc)|))
    ensures NoElements(input, stack[|stack| - 1])
  {
    forall vs | EncodeAll(vs) <= input ensures |EncodeAll(vs)| != stack[|stack| - 1] {
      if |EncodeAll(vs)| == stack[|stack| - 1] {
        NextElementAhead(acc, vs, input);
      }
    }
  }

  /**
   DecodeBytes into an untyped value: the result is v exactly when b is the encoding of v, so
   trailing bytes, non-canonical headers and overrunning elements are all rejected.
   */
  method DecodeBytes(b: seq<byte>) returns (r: Result<Item>)
    requires |b| < TWO_64
    ensures forall v :: r == Ok(v) <==> Encode(v) == b
  {
    var s := new Stream(b);
    r := s.DecodeInterface();
    if r.Ok? {
      forall v | Encode(v) <= b ensures v == r.value {
        OneValueInFront(v, r.value, b);
      }
    }
    if r.Ok? {
      if |s.input| > 0 {
        r := Err(MoreThanOneValue);
      }
    }
  }

  /** Once more bytes than a list's size were taken, its wrapped count cannot reach zero again. */
  lemma OverrunNeverCloses(top: uint64, taken: nat, more: nat)
    requires top < taken && taken + more < TWO_64
    ensures Wrap64(Wrap64(top - taken) - more) != 0
  {
    SpendTwice([top], taken, more);
    assert Spend(Spend([top], taken), more)[0] == Wrap64(top - taken - more);
  }

  /** A list of two bytes whose only element announces two bytes: entering it wraps the outer count. */
  method WrapsOuterCount() returns (count: uint64, r: Result<Item>)
    ensures count == TWO_64 - 1
    ensures r.Err?
  {
    var b: seq<byte> := [0xC2, 0xC2, 0x01, 0x01];
    var s := new Stream(b);
    var k, sz, e := s.Kind();
    var outer := s.EnterList();
    assert s.input == b[1..] && s.stack == [2];
    k, sz, e := s.Kind();
    var inner := s.EnterList();
    count := s.stack[0];
    r := DecodeBytes(b);
    forall v | Encode(v) == b ensures false {
      EncodingIsAhead(v, b, [], false);
    }
  }
}
