/**
 The BLAKE2b digest (section 3.3 of RFC 7693) with the compression function left open: block buffering, the
 two-word byte counter, and that any way of cutting a message into writes gives the one-shot hash.
 */
module Blake2b {
  import opened Common

  const BLOCK_SIZE := 128
  const SIZE := 64

  /** The chaining value: eight 64-bit words. */
  type Chain = h: seq<uint64> | |h| == 8 witness [0, 0, 0, 0, 0, 0, 0, 0]

  /** The compression function F: chaining value, block, both counter words, and whether the block is the last. */
  type Compress = (Chain, seq<byte>, uint64, uint64, bool) -> Chain

  // ---------------------------------------------------------------- specification

  const IV: Chain := [
    0x6a09e667f3bcc908, 0xbb67ae8584caa73b, 0x3c6ef372fe94f82b, 0xa54ff53a5f1d36f1,
    0x510e527fade682d1, 0x9b05688c2b3e6c1f, 0x1f83d9abfb41bd6b, 0x5be0cd19137e2179
  ]

  /** The lowest n bits of both numbers, each pair added modulo two. */
  function Xor(x: nat, y: nat, n: nat): (r: nat)
    ensures r < Pow2(n)
  {
    if n == 0 then 0 else (x % 2 + y % 2) % 2 + 2 * Xor(x / 2, y / 2, n - 1)
  }

  function Pow2(n: nat): nat {
    if n == 0 then 1 else 2 * Pow2(n - 1)
  }

  lemma {:induction false} Pow2Bytes(k: nat)
    ensures Pow2(8 * k) == Pow256(k)
  {
    if k > 0 {
      Pow2Bytes(k - 1);
      var n := 8 * (k - 1);
      assert Pow2(n + 2) == 4 * Pow2(n);
      assert Pow2(n + 4) == 4 * Pow2(n + 2);
      assert Pow2(n + 6) == 4 * Pow2(n + 4);
      assert Pow2(n + 8) == 4 * Pow2(n + 6);
    }
  }

  /** The sizes of hash and key and two constants, each in its own byte. */
  function Sizes(size: nat, keyLength: nat): nat {
    size + 0x100 * keyLength + 0x10000 + 0x1000000
  }

  /** The initial value with the sizes mixed into its first word. */
  function Initial(size: nat, keyLength: nat): Chain
    requires size <= SIZE && keyLength <= SIZE
  {
    Pow2Bytes(8);
    Pow256Eight();
    IV[0 := Xor(IV[0], Sizes(size, keyLength), 64)]
  }

  lemma {:induction false} XorUndone(x: nat, y: nat, n: nat)
    requires y < Pow2(n)
    ensures Xor(Xor(x, y, n), x, n) == y
  {
    if n > 0 {
      XorStep(x, y, n);
      XorUndone(x / 2, y / 2, n - 1);
      UndoneStep(x, y, n);
    }
  }

  lemma UndoneStep(x: nat, y: nat, n: nat)
    requires n > 0 && Xor(Xor(x / 2, y / 2, n - 1), x / 2, n - 1) == y / 2
    ensures Xor(Xor(x, y, n), x, n) == y
  {
    hide Xor, Pow2;
    var w, z := Xor(x / 2, y / 2, n - 1), Xor(x, y, n);
    XorStep(x, y, n);
    BitUndone(x, y, w);
    XorStep(z, x, n);
  }

  lemma XorStep(x: nat, y: nat, n: nat)
    requires n > 0
    ensures Xor(x, y, n) == (x % 2 + y % 2) % 2 + 2 * Xor(x / 2, y / 2, n - 1) && Pow2(n) == 2 * Pow2(n - 1)
  {
  }

  lemma BitUndone(x: nat, y: nat, w: nat)
    ensures var z := (x % 2 + y % 2) % 2 + 2 * w;
            z / 2 == w && (z % 2 + x % 2) % 2 + 2 * (y / 2) == y
  {
  }

  /**
   The parameter block of section 2.5 of RFC 7693: the first word differs from its initial value in the bytes that hold
   the size of the hash, the length of the key, fanout 1 and depth 1, and no other word differs.
   */
  lemma ParameterBlock(size: nat, keyLength: nat)
    requires size <= SIZE && keyLength <= SIZE
    ensures var h := Initial(size, keyLength);
            && Xor(IV[0], h[0], 64) < TWO_64
            && LittleEndian(Xor(IV[0], h[0], 64), 8) == [size, keyLength, 1, 1, 0, 0, 0, 0]
            && h[1..] == IV[1..]
  {
    hide Xor, LittleEndian;
    var h, n := Initial(size, keyLength), Sizes(size, keyLength);
    Pow2Bytes(8);
    Pow256Eight();
    XorCommutes(IV[0], h[0], 64);
    XorUndone(IV[0], n, 64);
    SizeBytes(size, keyLength);
  }

  lemma {:induction false} XorCommutes(x: nat, y: nat, n: nat)
    ensures Xor(x, y, n) == Xor(y, x, n)
  {
    if n > 0 {
      XorCommutes(x / 2, y / 2, n - 1);
    }
  }

  lemma SizeBytes(size: nat, keyLength: nat)
    requires size <= SIZE && keyLength <= SIZE
    ensures LittleEndian(Sizes(size, keyLength), 8) == [size, keyLength, 1, 1, 0, 0, 0, 0]
  {
    var n := Sizes(size, keyLength);
    assert n % 256 == size && n / 256 == keyLength + 0x100 + 0x10000;
    assert n / 256 % 256 == keyLength && n / 256 / 256 == 1 + 0x100;
    assert LittleEndian(0, 4) == [0, 0, 0, 0] by {
      assert LittleEndian(0, 2) == [0, 0];
    }
    assert LittleEndian(0x101, 6) == [1, 1] + LittleEndian(0, 4);
    assert LittleEndian(n / 256, 7) == [keyLength] + LittleEndian(0x101, 6);
  }

  /** Eight bytes, the lowest first. */
  function LittleEndian(x: uint64, length: nat): (b: seq<byte>)
    ensures |b| == length
    decreases length
  {
    if length == 0 then [] else [x % 256] + LittleEndian(x / 256, length - 1)
  }

  function FromLittleEndian(b: seq<byte>): nat {
    if b == [] then 0 else b[0] + 256 * FromLittleEndian(b[1..])
  }

  /** The bytes give the number back. */
  lemma {:induction false} LittleEndianReads(x: uint64, length: nat)
    requires x < Pow256(length)
    ensures FromLittleEndian(LittleEndian(x, length)) == x
    decreases length
  {
    if length > 0 {
      assert x / 256 < Pow256(length - 1);
      LittleEndianReads(x / 256, length - 1);
    }
  }

  /** The words as bytes, each with its lowest byte first. */
  function Output(h: seq<uint64>): (b: seq<byte>)
    ensures |b| == 8 * |h|
  {
    if h == [] then [] else Output(h[..|h| - 1]) + LittleEndian(h[|h| - 1], 8)
  }

  /** The output up to a word does not depend on the words behind. */
  lemma {:induction false} OutputPrefix(h: seq<uint64>, k: nat)
    requires k <= |h|
    ensures Output(h[..k]) == Output(h)[..8 * k]
    decreases |h|
  {
    if k < |h| {
      OutputPrefix(h[..|h| - 1], k);
      assert h[..|h| - 1][..k] == h[..k];
    } else {
      assert h[..k] == h;
    }
  }

  function Low(n: int): uint64 {
    n % TWO_64
  }

  function High(n: int): uint64 {
    n / TWO_64 % TWO_64
  }

  function Padded(data: seq<byte>): (r: seq<byte>)
    requires |data| <= BLOCK_SIZE
    ensures |r| == BLOCK_SIZE
  {
    data + seq(BLOCK_SIZE - |data|, _ => 0)
  }

  /** The chaining value after whole blocks, none of them the last; n bytes came before. */
  function Chained(f: Compress, h: Chain, n: int, data: seq<byte>): Chain
    decreases |data|
  {
    if |data| < BLOCK_SIZE then h
    else Chained(f, f(h, data[..BLOCK_SIZE], Low(n + BLOCK_SIZE), High(n + BLOCK_SIZE), false), n + BLOCK_SIZE,
                 data[BLOCK_SIZE..])
  }

  /** The hash of a message: every block but the last, then the last one padded, with the byte count. */
  function Hashed(f: Compress, h: Chain, n: int, data: seq<byte>): Chain
    decreases |data|
  {
    if |data| <= BLOCK_SIZE then f(h, Padded(data), Low(n + |data|), High(n + |data|), true)
    else Hashed(f, f(h, data[..BLOCK_SIZE], Low(n + BLOCK_SIZE), High(n + BLOCK_SIZE), false), n + BLOCK_SIZE,
                data[BLOCK_SIZE..])
  }

  lemma {:induction false} ChainedAppend(f: Compress, h: Chain, n: int, a: seq<byte>, b: seq<byte>)
    requires |a| % BLOCK_SIZE == 0
    ensures Chained(f, h, n, a + b) == Chained(f, Chained(f, h, n, a), n + |a|, b)
    decreases |a|
  {
    hide Low, High;
    if a == [] {
      assert a + b == b;
    } else {
      var g := f(h, a[..BLOCK_SIZE], Low(n + BLOCK_SIZE), High(n + BLOCK_SIZE), false);
      assert (a + b)[..BLOCK_SIZE] == a[..BLOCK_SIZE];
      assert (a + b)[BLOCK_SIZE..] == a[BLOCK_SIZE..] + b;
      ChainedAppend(f, g, n + BLOCK_SIZE, a[BLOCK_SIZE..], b);
    }
  }

  /** Hashing whole blocks first, as long as something is left for the last block. */
  lemma {:induction false} HashedAfter(f: Compress, h: Chain, n: int, a: seq<byte>, b: seq<byte>)
    requires |a| % BLOCK_SIZE == 0 && (a == [] || b != [])
    ensures Hashed(f, h, n, a + b) == Hashed(f, Chained(f, h, n, a), n + |a|, b)
    decreases |a|
  {
    hide Low, High, Padded;
    if a == [] {
      assert a + b == b;
    } else {
      var g := f(h, a[..BLOCK_SIZE], Low(n + BLOCK_SIZE), High(n + BLOCK_SIZE), false);
      assert (a + b)[..BLOCK_SIZE] == a[..BLOCK_SIZE];
      assert (a + b)[BLOCK_SIZE..] == a[BLOCK_SIZE..] + b;
      HashedAfter(f, g, n + BLOCK_SIZE, a[BLOCK_SIZE..], b);
    }
  }

  // ---------------------------------------------------------------- the counter

  /** Both words of n + d, for a step that crosses at most one multiple of 2^64. */
  lemma Words(n: int, d: int)
    requires 0 - BLOCK_SIZE <= d <= BLOCK_SIZE
    ensures Low(n + d) == Wrap64(Low(n) + d)
    ensures High(n + d) == Wrap64(High(n) + if Low(n) + d < 0 then -1 else if Low(n) + d >= TWO_64 then 1 else 0)
  {
    var q, c := n / TWO_64, n % TWO_64;
    var e := if c + d < 0 then -1 else if c + d >= TWO_64 then 1 else 0;
    DivModUnique(n + d, TWO_64, q + e, c + d - e * TWO_64);
    DivModUnique(c + d, TWO_64, e, c + d - e * TWO_64);
    HighStep(q, e);
  }

  lemma HighStep(q: int, e: int)
    ensures (q % TWO_64 + e) % TWO_64 == (q + e) % TWO_64
  {
    var k, r := (q + e) / TWO_64, (q + e) % TWO_64;
    DivModUnique(q % TWO_64 + e, TWO_64, k - q / TWO_64, r);
  }

  /** Adding a block to the counter, with the carry. */
  lemma Carry(n: int)
    ensures var c0: uint64 := Wrap64(Low(n) + BLOCK_SIZE);
            && c0 == Low(n + BLOCK_SIZE)
            && (if c0 < BLOCK_SIZE then Wrap64(High(n) + 1) else High(n)) == High(n + BLOCK_SIZE)
  {
    Words(n, BLOCK_SIZE);
  }

  /** Taking the unused part of the last block off, with the borrow; the counter may pass below zero. */
  lemma Borrow(n: int, remaining: uint64)
    requires remaining <= BLOCK_SIZE
    ensures Wrap64(Low(n) - remaining) == Low(n - remaining)
    ensures (if Low(n) < remaining then Wrap64(High(n) - 1) else High(n)) == High(n - remaining)
  {
    Words(n, 0 - remaining);
  }

  // ---------------------------------------------------------------- hashBlocks and checkSum

  /** hashBlocks: the last flag is set only for the single final block. */
  method HashBlocks(f: Compress, h: Chain, c0: uint64, c1: uint64, last: bool, blocks: seq<byte>, ghost n: int)
    returns (r: Chain, d0: uint64, d1: uint64)
    requires |blocks| % BLOCK_SIZE == 0 && (last ==> |blocks| == BLOCK_SIZE) && c0 == Low(n) && c1 == High(n)
    ensures d0 == Low(n + |blocks|) && d1 == High(n + |blocks|)
    ensures r ==
            if last then f(h, blocks, Low(n + BLOCK_SIZE), High(n + BLOCK_SIZE), true) else Chained(f, h, n, blocks)
  {
    hide Low, High;
    r, d0, d1 := h, c0, c1;
    var i := 0;
    assert blocks[0..] == blocks;
    while i < |blocks|
      invariant 0 <= i <= |blocks| && i % BLOCK_SIZE == 0
      invariant d0 == Low(n + i) && d1 == High(n + i)
      invariant if last && i == 0 then r == h
                else if last then i == BLOCK_SIZE && r == f(h, blocks, Low(n + BLOCK_SIZE), High(n + BLOCK_SIZE), true)
                else Chained(f, h, n, blocks) == Chained(f, r, n + i, blocks[i..])
    {
      Carry(n + i);
      d0 := Wrap64((d0 as int) + BLOCK_SIZE);
      if d0 < BLOCK_SIZE {
        d1 := Wrap64((d1 as int) + 1);
      }
      ghost var rest := blocks[i..];
      assert rest[..BLOCK_SIZE] == blocks[i..i + BLOCK_SIZE] && rest[BLOCK_SIZE..] == blocks[i + BLOCK_SIZE..];
      assert last ==> blocks[i..i + BLOCK_SIZE] == blocks;
      r := f(r, blocks[i..i + BLOCK_SIZE], d0, d1, last);
      i := i + BLOCK_SIZE;
    }
  }

  /** The last block: padded, counted, hashed. */
  method Final(f: Compress, h: Chain, c0: uint64, c1: uint64, data: seq<byte>, ghost n: int) returns (r: Chain)
    requires |data| <= BLOCK_SIZE && c0 == Low(n) && c1 == High(n)
    ensures r == Hashed(f, h, n, data)
  {
    var block := Padded(data);
    var remaining := BLOCK_SIZE - |data|;
    Borrow(n, remaining);
    var d1 := if c0 < remaining then Wrap64((c1 as int) - 1) else c1;
    var d0 := Wrap64((c0 as int) - remaining);
    r, d0, d1 := HashBlocks(f, h, d0, d1, true, block, n - remaining);
  }

  /** How many bytes of whole blocks can be hashed while keeping something for the last block. */
  function Whole(length: nat): (n: nat)
    requires length > 0
    ensures n % BLOCK_SIZE == 0 && 0 < length - n <= BLOCK_SIZE
  {
    var n := length - length % BLOCK_SIZE;
    if length == n then n - BLOCK_SIZE else n
  }

  /** The hash of a message under a key, which counts as a first block. */
  function Digested(f: Compress, size: nat, key: seq<byte>, message: seq<byte>): seq<byte>
    requires size <= SIZE && |key| <= SIZE
  {
    Output(Hashed(f, Initial(size, |key|), 0, if key == [] then message else Padded(key) + message))[..size]
  }

  /** Writes the first words into the hash; what is behind them stays zero. */
  method PutWords(h: Chain, count: nat) returns (hash: seq<byte>)
    requires count <= 8
    ensures |hash| == SIZE && hash[..8 * count] == Output(h)[..8 * count]
    ensures forall i :: 8 * count <= i < SIZE ==> hash[i] == 0
  {
    hash := seq(SIZE, _ => 0);
    assert h[..0] == [];
    for i := 0 to count
      invariant |hash| == SIZE && hash[..8 * i] == Output(h[..i])
      invariant forall j :: 8 * i <= j < SIZE ==> hash[j] == 0
    {
      assert h[..i + 1][..i] == h[..i];
      hash := hash[..8 * i] + LittleEndian(h[i], 8) + hash[8 * i + 8..];
    }
    OutputPrefix(h, count);
  }

  /** checkSum: writes only as many words as the hash needs, and its callers take the first `size` bytes. */
  method CheckSum(f: Compress, size: nat, data: seq<byte>) returns (sum: seq<byte>)
    requires size <= SIZE
    ensures |sum| == SIZE && sum[..size] == Digested(f, size, [], data)
  {
    hide Hashed, Initial, Output;
    var h := Chaining(f, Initial(size, 0), data);
    var words := (size + 7) / 8;
    sum := PutWords(h, words);
    assert sum[..size] == sum[..8 * words][..size] == Output(h)[..8 * words][..size];
  }

  /** The chaining value of a whole message. */
  method Chaining(f: Compress, h0: Chain, data: seq<byte>) returns (r: Chain)
    ensures r == Hashed(f, h0, 0, data)
  {
    hide Hashed, Chained, Low, High, Whole;
    var h, c0: uint64, c1: uint64, rest := h0, 0, 0, data;
    ghost var n := 0;
    NothingCounted();
    assert data == [] + data;
    HashedAfter(f, h0, 0, [], data);
    ChainedNothing(f, h0, 0);
    if |data| > BLOCK_SIZE {
      n := Whole(|data|);
      h, c0, c1 := HashBlocks(f, h, c0, c1, false, data[..Whole(|data|)], 0);
      rest := data[Whole(|data|)..];
      assert data == data[..n] + rest;
      HashedAfter(f, h0, 0, data[..n], rest);
    }
    r := Final(f, h, c0, c1, rest, n);
  }

  lemma NothingCounted()
    ensures Low(0) == 0 && High(0) == 0
  {
  }

  lemma ChainedNothing(f: Compress, h: Chain, n: int)
    ensures Chained(f, h, n, []) == h
  {
  }

  // ---------------------------------------------------------------- the streaming digest

  class Digest {
    const f: Compress
    const size: nat
    const key: seq<byte>
    const block: array<byte>
    var h: Chain
    var c0: uint64
    var c1: uint64
    var offset: nat
    ghost var message: seq<byte>

    /** How much of the message has been hashed; the rest waits in the block. */
    ghost function Done(): int
      reads this
    {
      |message| - offset
    }

    ghost predicate Sized() {
      1 <= size <= SIZE && |key| <= SIZE && block.Length == BLOCK_SIZE
    }

    /** All but the last block is hashed, and the block holds what is not; a key is a first block. */
    ghost predicate Valid()
      reads this, block
    {
      && Sized() && offset <= BLOCK_SIZE && offset <= |message|
      && (message != [] ==> offset > 0) && Done() % BLOCK_SIZE == 0
      && block[..offset] == message[Done()..]
      && h == Chained(f, Initial(size, |key|), 0, message[..Done()])
      && c0 == Low(Done()) && c1 == High(Done())
      && Preamble() <= message
    }

    /** What is hashed before anything is written. */
    ghost function Preamble(): seq<byte>
      requires Sized()
    {
      if key == [] then [] else Padded(key)
    }

    /** Everything written since the last reset. */
    ghost function Written(): seq<byte>
      requires Valid()
      reads this, block
    {
      message[|Preamble()|..]
    }

    constructor (f: Compress, size: nat, key: seq<byte>)
      requires 1 <= size <= SIZE && |key| <= SIZE
      ensures Valid() && this.f == f && this.size == size && this.key == key && Written() == [] && fresh(block)
    {
      this.f, this.size, this.key := f, size, key;
      block := new byte[BLOCK_SIZE](_ => 0);
      h, c0, c1, offset, message := IV, 0, 0, 0, [];
      new;
      Reset();
    }

    method Reset()
      requires Sized()
      modifies this, block
      ensures Valid() && Written() == []
    {
      hide Initial;
      h, c0, c1, offset, message := Initial(size, |key|), 0, 0, 0, [];
      if |key| > 0 {
        CopyIn(Padded(key));
        message := Padded(key);
      }
      assert message[..0] == [];
    }

    /** Appends to the block; the bytes before stay. */
    method CopyIn(p: seq<byte>)
      requires block.Length == BLOCK_SIZE && offset + |p| <= BLOCK_SIZE
      modifies block, `offset
      ensures offset == old(offset) + |p| && block[..offset] == old(block[..offset]) + p
    {
      for i := 0 to |p|
        invariant offset == old(offset)
        invariant block[..offset] == old(block[..offset])
        invariant block[offset..offset + i] == p[..i]
      {
        block[offset + i] := p[i];
      }
      assert block[..offset + |p|] == block[..offset] + block[offset..offset + |p|];
      offset := offset + |p|;
    }

    /** A full block is hashed once it is known not to be the last. */
    method Flush()
      requires Valid() && offset == BLOCK_SIZE
      modifies `h, `c0, `c1, `offset
      ensures offset == 0 && |message| % BLOCK_SIZE == 0
      ensures h == Chained(f, Initial(size, |key|), 0, message) && c0 == Low(|message|) && c1 == High(|message|)
    {
      hide Chained, Low, High, Initial;
      ghost var done := Done();
      h, c0, c1 := HashBlocks(f, h, c0, c1, false, block[..], done);
      offset := 0;
      assert block[..] == block[..BLOCK_SIZE];
      assert message == message[..done] + message[done..];
      ChainedAppend(f, Initial(size, |key|), 0, message[..done], message[done..]);
    }

    /** Whole blocks straight from the input, all but what the last block needs. */
    method AbsorbWhole(p: seq<byte>) returns (rest: seq<byte>)
      requires Sized() && offset == 0 && |message| % BLOCK_SIZE == 0 && p != [] && Preamble() <= message
      requires h == Chained(f, Initial(size, |key|), 0, message) && c0 == Low(|message|) && c1 == High(|message|)
      modifies `h, `c0, `c1, `message
      ensures |message| % BLOCK_SIZE == 0 && 0 < |rest| <= BLOCK_SIZE && message + rest == old(message) + p
      ensures h == Chained(f, Initial(size, |key|), 0, message) && c0 == Low(|message|) && c1 == High(|message|)
    {
      hide Chained, Low, High, Initial;
      rest := p;
      if |p| > BLOCK_SIZE {
        var n := Whole(|p|);
        h, c0, c1 := HashBlocks(f, h, c0, c1, false, p[..n], |message|);
        ChainedAppend(f, Initial(size, |key|), 0, message, p[..n]);
        rest := p[n..];
        message := message + p[..n];
        assert p == p[..n] + p[n..];
      }
    }

    /** The rest goes into the empty block. */
    method Absorb(p: seq<byte>)
      requires Sized() && offset == 0 && |message| % BLOCK_SIZE == 0 && p != [] && Preamble() <= message
      requires h == Chained(f, Initial(size, |key|), 0, message) && c0 == Low(|message|) && c1 == High(|message|)
      modifies this, block
      ensures Valid() && message == old(message) + p
    {
      hide Chained, Low, High, Initial;
      var rest := AbsorbWhole(p);
      ghost var m := message;
      CopyIn(rest);
      message := m + rest;
      assert message[..|m|] == m && message[|m|..] == rest;
    }

    method Write(p: seq<byte>) returns (n: nat)
      requires Valid()
      modifies this, block
      ensures Valid() && Written() == old(Written()) + p && message == old(message) + p && n == |p|
    {
      hide Chained, Low, High, Initial, Padded;
      n := |p|;
      assert message + [] == message;
      if offset > 0 {
        var remaining := BLOCK_SIZE - offset;
        if n <= remaining {
          Fill(p);
          return;
        }
        Spill(p);
      } else if p != [] {
        assert message[..0] == [];
        ChainedNothing(f, Initial(size, |key|), 0);
        Absorb(p);
      }
    }

    /** More than fits: the block is filled and hashed, and the rest is taken up behind it. */
    method Spill(p: seq<byte>)
      requires Valid() && 0 < offset && BLOCK_SIZE < offset + |p|
      modifies this, block
      ensures Valid() && message == old(message) + p
    {
      hide Chained, Low, High, Initial, Padded, Digest.Preamble;
      var remaining := BLOCK_SIZE - offset;
      Fill(p[..remaining]);
      Flush();
      assert p == p[..remaining] + p[remaining..];
      Absorb(p[remaining..]);
    }

    /** What still fits the block. */
    method Fill(p: seq<byte>)
      requires Valid() && offset > 0 && offset + |p| <= BLOCK_SIZE
      modifies block, `offset, `message
      ensures Valid() && offset == old(offset) + |p| && message == old(message) + p
    {
      hide Chained, Low, High, Initial;
      ghost var done := Done();
      CopyIn(p);
      message := message + p;
      assert message[..done] == old(message)[..done] && message[done..] == old(message)[done..] + p;
    }

    /** Sum: appends the hash of everything written; the digest itself is not touched. */
    method Sum(prefix: seq<byte>) returns (r: seq<byte>)
      requires Valid()
      ensures Valid() && Sized() && r == prefix + Digested(f, size, key, Written())
    {
      hide Chained, Hashed, Initial, Output, Padded, Digest.Valid, Digest.Written;
      var last := Finalise();
      WrittenBehindKey();
      var hash := PutWords(last, 8);
      assert hash == Output(last);
      return prefix + hash[..size];
    }

    /** The chaining value with the last block hashed in; the digest itself is not touched. */
    method Finalise() returns (last: Chain)
      requires Valid()
      ensures last == Hashed(f, Initial(size, |key|), 0, message)
    {
      hide Chained, Hashed, Low, High, Initial, Padded, Digest.Preamble;
      ghost var done := Done();
      last := Final(f, h, c0, c1, block[..offset], done);
      assert message == message[..done] + message[done..];
      HashedAfter(f, Initial(size, |key|), 0, message[..done], message[done..]);
    }

    lemma WrittenBehindKey()
      requires Valid()
      ensures Sized() && message == if key == [] then Written() else Padded(key) + Written()
    {
      hide Chained, Low, High, Initial, Padded;
      assert message == message[..|Preamble()|] + message[|Preamble()|..];
    }
  }

  /** newDigest: only sizes from 1 to 64 and keys of at most 64 bytes. */
  method NewDigest(f: Compress, size: nat, key: seq<byte>) returns (d: Option<Digest>)
    ensures d.Some? <==> 1 <= size <= SIZE && |key| <= SIZE
    ensures d.Some? ==>
              && fresh(d.value) && fresh(d.value.block) && d.value.Valid() && d.value.Written() == []
              && d.value.f == f && d.value.size == size && d.value.key == key
  {
    if size < 1 || size > SIZE || |key| > SIZE {
      return None;
    }
    var digest := new Digest(f, size, key);
    return Some(digest);
  }

  function Flatten(pieces: seq<seq<byte>>): seq<byte> {
    if pieces == [] then [] else Flatten(pieces[..|pieces| - 1]) + pieces[|pieces| - 1]
  }

  /** However a message is cut into writes, the digest under a key is the hash of the whole. */
  method HashPieces(f: Compress, size: nat, key: seq<byte>, pieces: seq<seq<byte>>)
    returns (streamed: seq<byte>, oneShot: seq<byte>)
    requires 1 <= size <= SIZE && |key| <= SIZE
    ensures streamed == Digested(f, size, key, Flatten(pieces))
    ensures key == [] ==> |oneShot| == SIZE && oneShot[..size] == streamed
  {
    hide Hashed, Chained, Initial, Output, Digested, Digest.Valid, Digest.Written;
    var d := new Digest(f, size, key);
    for i := 0 to |pieces|
      invariant fresh(d) && fresh(d.block) && d.Valid() && d.f == f && d.size == size && d.key == key
      invariant d.Written() == Flatten(pieces[..i])
    {
      var _ := d.Write(pieces[i]);
      assert pieces[..i + 1][..i] == pieces[..i];
    }
    assert pieces[..|pieces|] == pieces;
    streamed := d.Sum([]);
    assert [] + Digested(f, size, key, Flatten(pieces)) == Digested(f, size, key, Flatten(pieces));
    oneShot := CheckSum(f, size, Flatten(pieces));
  }
}
