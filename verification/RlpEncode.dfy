/**
 The RLP encoder buffer (rlp/encbuffer.go, rlp/encode.go): list headers are kept apart from the
 string data and spliced in when the output is produced. The buffer is proved to refine the
 direct encoder that keeps one finished byte string per open list.
 */
module RlpEncode {
  import opened Common
  import opened RlpSpec

  /** Position of a list header in the string data, and the size of the list's content. */
  datatype ListHead = ListHead(offset: nat, size: nat)

  // ---------------------------------------------------------------- integers and headers

  /** The bytes putint writes: one case for every number of significant bytes. */
  function IntBytes(i: uint64): (s: seq<byte>)
    ensures 1 <= |s| <= 8
  {
    if i < 0x100 then [i]
    else if i < 0x1_0000 then [ToByte(i / 0x100), ToByte(i)]
    else if i < 0x100_0000 then [ToByte(i / 0x1_0000), ToByte(i / 0x100), ToByte(i)]
    else if i < 0x1_0000_0000 then
      [ToByte(i / 0x100_0000), ToByte(i / 0x1_0000), ToByte(i / 0x100), ToByte(i)]
    else if i < 0x100_0000_0000 then
      [ToByte(i / 0x1_0000_0000), ToByte(i / 0x100_0000), ToByte(i / 0x1_0000), ToByte(i / 0x100), ToByte(i)]
    else if i < 0x1_0000_0000_0000 then
      [ToByte(i / 0x100_0000_0000), ToByte(i / 0x1_0000_0000), ToByte(i / 0x100_0000), ToByte(i / 0x1_0000),
       ToByte(i / 0x100), ToByte(i)]
    else if i < 0x100_0000_0000_0000 then
      [ToByte(i / 0x1_0000_0000_0000), ToByte(i / 0x100_0000_0000), ToByte(i / 0x1_0000_0000),
       ToByte(i / 0x100_0000), ToByte(i / 0x1_0000), ToByte(i / 0x100), ToByte(i)]
    else
      [ToByte(i / 0x100_0000_0000_0000), ToByte(i / 0x1_0000_0000_0000), ToByte(i / 0x100_0000_0000),
       ToByte(i / 0x1_0000_0000), ToByte(i / 0x100_0000), ToByte(i / 0x1_0000), ToByte(i / 0x100), ToByte(i)]
  }

  /** Dropping the last byte divides by 256. */
  lemma IntBytesShift(i: uint64)
    requires i >= 0x100
    ensures IntBytes(i) == IntBytes(i / 0x100) + [i % 0x100]
  {
    var j := i / 0x100;
    assert j / 0x100 == i / 0x1_0000;
    assert j / 0x1_0000 == i / 0x100_0000;
    assert j / 0x100_0000 == i / 0x1_0000_0000;
    assert j / 0x1_0000_0000 == i / 0x100_0000_0000;
    assert j / 0x100_0000_0000 == i / 0x1_0000_0000_0000;
    assert j / 0x1_0000_0000_0000 == i / 0x100_0000_0000_0000;
  }

  /** Big-endian bytes of i, at least one. */
  function Digits(i: nat): (s: seq<byte>)
    ensures |s| >= 1
  {
    if i == 0 then [0] else BigEndian(i)
  }

  lemma {:induction false} IntBytesAreDigits(i: uint64)
    ensures IntBytes(i) == Digits(i)
  {
    if i >= 0x100 {
      IntBytesShift(i);
      IntBytesAreDigits(i / 0x100);
    } else if i > 0 {
      assert BigEndian(i) == BigEndian(0) + [i];
    }
  }

  /** Counts the bytes of i by shifting them out. */
  method IntSize(i: nat) returns (size: nat)
    ensures size == |Digits(i)|
  {
    size := 1;
    var j: nat := i / 256;
    while j != 0
      invariant i == 0 ==> j == 0 && size == 1
      invariant j >= 0 && (i > 0 ==> |BigEndian(i)| == size + |BigEndian(j)|)
    {
      size := size + 1;
      j := j / 256;
    }
  }

  function HeadSize(size: nat): (n: nat)
    ensures n == |Header(LIST_TAG, size)| == |Header(STRING_TAG, size)|
  {
    if size < 56 then 1 else 1 + |BigEndian(size)|
  }

  /** The header puthead writes. */
  function HeadBytes(smalltag: byte, largetag: byte, size: uint64): (s: seq<byte>)
    requires IsTag(smalltag) && largetag == smalltag + 55
    ensures s == Header(smalltag, size)
  {
    HeaderFirstByte(smalltag, size);
    IntBytesAreDigits(size);
    if size < 56 then [smalltag + size] else [largetag + |IntBytes(size)|] + IntBytes(size)
  }

  /** Go's copy of s into dst at pos, where it continues a prefix of the intended output. */
  method Emit(dst: array<byte>, pos: nat, s: seq<byte>, ghost out: seq<byte>)
    requires pos + |s| <= |out| <= dst.Length
    requires dst[..pos] == out[..pos] && s == out[pos..pos + |s|]
    modifies dst
    ensures dst[..pos + |s|] == out[..pos + |s|]
    ensures dst[|out|..] == old(dst[|out|..])
  {
    forall k | 0 <= k < |s| {
      dst[pos + k] := s[k];
    }
    assert forall k :: 0 <= k < pos ==> dst[k] == old(dst[..pos])[k];
    assert forall k :: pos <= k < pos + |s| ==> dst[k] == s[k - pos];
  }

  // ---------------------------------------------------------------- splicing headers

  /** The headers lie in [a, b] in the order of their offsets. */
  predicate Placed(heads: seq<ListHead>, a: nat, b: nat)
    decreases |heads|
  {
    if heads == [] then a <= b
    else a <= heads[0].offset && Placed(heads[1..], heads[0].offset, b)
  }

  /** The string data from a to b with every header inserted at its offset. */
  function Splice(str: seq<byte>, heads: seq<ListHead>, a: nat, b: nat): (s: seq<byte>)
    requires Placed(heads, a, b) && b <= |str|
    ensures |s| == b - a + HeadSizes(heads)
    decreases |heads|
  {
    PlacedInRange(heads, a, b);
    if heads == [] then str[a..b]
    else
      var h := heads[0];
      str[a..h.offset] + (Header(LIST_TAG, h.size) + Splice(str, heads[1..], h.offset, b))
  }

  lemma {:induction false} PlacedInRange(heads: seq<ListHead>, a: nat, b: nat)
    requires Placed(heads, a, b)
    ensures a <= b
    ensures heads != [] ==> a <= heads[0].offset <= b
    decreases |heads|
  {
    if heads != [] {
      PlacedInRange(heads[1..], heads[0].offset, b);
    }
  }

  function HeadSizes(heads: seq<ListHead>): nat {
    if heads == [] then 0 else HeadSize(heads[0].size) + HeadSizes(heads[1..])
  }

  lemma {:induction false} HeadSizesConcat(g: seq<ListHead>, h: seq<ListHead>)
    ensures HeadSizes(g + h) == HeadSizes(g) + HeadSizes(h)
  {
    if g == [] {
      assert g + h == h;
    } else {
      HeadSizesConcat(g[1..], h);
      assert (g + h)[1..] == g[1..] + h;
    }
  }

  /** Two neighbouring stretches are spliced one after the other. */
  lemma {:induction false} SpliceConcat(str: seq<byte>, g: seq<ListHead>, h: seq<ListHead>, a: nat, m: nat, b: nat)
    requires Placed(g, a, m) && Placed(h, m, b) && b <= |str|
    ensures m <= b && Placed(g + h, a, b)
    ensures Splice(str, g + h, a, b) == Splice(str, g, a, m) + Splice(str, h, m, b)
    decreases |g|
  {
    PlacedInRange(h, m, b);
    PlacedInRange(g, a, m);
    if g == [] {
      assert g + h == h;
      SpliceData(str, h, a, m, b);
    } else {
      hide Header, HeadSizes, Splice;
      var o := g[0].offset;
      SpliceConcat(str, g[1..], h, o, m, b);
      assert (g + h)[0] == g[0] && (g + h)[1..] == g[1..] + h;
      assert Placed(g + h, a, b);
      SpliceFirst(str, g + h, a, b);
      SpliceFirst(str, g, a, m);
      var x, hd := str[a..o], Header(LIST_TAG, g[0].size);
      var y, z := Splice(str, g[1..], o, m), Splice(str, h, m, b);
      ConcatAssociates(hd, y, z);
      ConcatAssociates(x, hd + y, z);
    }
  }

  /** Data in front of a stretch. */
  lemma SpliceData(str: seq<byte>, h: seq<ListHead>, a: nat, m: nat, b: nat)
    requires a <= m && Placed(h, m, b) && b <= |str|
    ensures m <= b && Placed(h, a, b) && Splice(str, h, a, b) == str[a..m] + Splice(str, h, m, b)
  {
    hide Header, HeadSizes;
    PlacedInRange(h, m, b);
    if h == [] {
      assert str[a..b] == str[a..m] + str[m..b];
    } else {
      var o := h[0].offset;
      assert str[a..o] == str[a..m] + str[m..o];
      ConcatAssociates(str[a..m], str[m..o], Header(LIST_TAG, h[0].size) + Splice(str, h[1..], o, b));
    }
  }

  lemma SpliceFirst(str: seq<byte>, heads: seq<ListHead>, a: nat, b: nat)
    requires Placed(heads, a, b) && b <= |str| && heads != []
    ensures var o := heads[0].offset;
            && a <= o <= b && Placed(heads[1..], o, b)
            && Splice(str, heads, a, b) == str[a..o] + (Header(LIST_TAG, heads[0].size) + Splice(str, heads[1..], o, b))
  {
    hide Header, HeadSizes;
    PlacedInRange(heads, a, b);
  }

  lemma SliceOfPrefix(s: seq<byte>, a: nat, m: nat, b: nat)
    requires a <= m <= b <= |s|
    ensures s[a..m] == s[..b][a..m]
  {
  }

  /** Splicing looks at nothing outside the stretch. */
  lemma {:induction false} SpliceFrame(str: seq<byte>, str': seq<byte>, heads: seq<ListHead>, a: nat, b: nat)
    requires Placed(heads, a, b) && b <= |str| && b <= |str'| && str[..b] == str'[..b]
    ensures Splice(str, heads, a, b) == Splice(str', heads, a, b)
    decreases |heads|
  {
    PlacedInRange(heads, a, b);
    if heads == [] {
      SliceOfPrefix(str, a, b, b);
      SliceOfPrefix(str', a, b, b);
    } else {
      var o := heads[0].offset;
      SpliceFrame(str, str', heads[1..], o, b);
      SliceOfPrefix(str, a, o, b);
      SliceOfPrefix(str', a, o, b);
    }
  }

  /** Data appended after the last header ends up at the end of the output. */
  lemma SpliceAppend(str: seq<byte>, more: seq<byte>, heads: seq<ListHead>, a: nat)
    requires Placed(heads, a, |str|)
    ensures Placed(heads, a, |str + more|)
    ensures Splice(str + more, heads, a, |str + more|) == Splice(str, heads, a, |str|) + more
  {
    var all := str + more;
    PlacedInRange(heads, a, |str|);
    SpliceConcat(all, heads, [], a, |str|, |all|);
    assert heads + [] == heads;
    SpliceFrame(all, str, heads, a, |str|);
    assert all[|str|..|all|] == more;
  }

  /** A finished list between two stretches contributes its header. */
  lemma SpliceList(str: seq<byte>, g: seq<ListHead>, head: ListHead, h: seq<ListHead>, a: nat)
    requires Placed(g, a, head.offset) && Placed(h, head.offset, |str|)
    ensures Placed(g + [head] + h, a, |str|)
    ensures head.offset <= |str|
    ensures Splice(str, g + [head] + h, a, |str|) ==
            Splice(str, g, a, head.offset) + (Header(LIST_TAG, head.size) + Splice(str, h, head.offset, |str|))
  {
    var m := head.offset;
    PlacedInRange(h, m, |str|);
    var k := [head] + h;
    assert k[0] == head && k[1..] == h;
    SpliceConcat(str, g, k, a, m, |str|);
    assert g + [head] + h == g + k;
    assert str[m..m] == [];
    var t := Header(LIST_TAG, head.size) + Splice(str, h, m, |str|);
    assert Splice(str, k, m, |str|) == [] + t == t;
  }

  // ---------------------------------------------------------------- the buffer against the direct encoder

  /** No list is larger than the output it is part of. */
  predicate Sized(heads: seq<ListHead>, bound: nat) {
    forall i :: 0 <= i < |heads| ==> heads[i].size <= bound
  }

  /** One level: the data after off with its headers is out, base header bytes were known before. */
  predicate Level(str: seq<byte>, heads: seq<ListHead>, lhsize: nat, off: nat, base: nat, out: seq<byte>) {
    && off <= |str| && Placed(heads, off, |str|)
    && out == Splice(str, heads, off, |str|)
    && Sized(heads, |out|)
    && lhsize == base + HeadSizes(heads)
  }

  /**
   The buffer represents the direct encoder's levels: levels[j] is the finished output inside the
   j-th open list, and the open headers remember how many header bytes were known when they opened.
   */
  predicate Represents(str: seq<byte>, lheads: seq<ListHead>, lhsize: nat, open: seq<nat>, levels: seq<seq<byte>>)
    decreases |open|
  {
    && |levels| == |open| + 1
    && if open == [] then
         Level(str, lheads, lhsize, 0, 0, levels[0])
       else
         var k := open[|open| - 1];
         && k < |lheads|
         && Level(str, lheads[k + 1..], lhsize, lheads[k].offset, lheads[k].size, levels[|open|])
         && Represents(str[..lheads[k].offset], lheads[..k], lheads[k].size, open[..|open| - 1], levels[..|open|])
  }

  lemma LevelBounds(str: seq<byte>, heads: seq<ListHead>, lhsize: nat, off: nat, base: nat, out: seq<byte>)
    requires Level(str, heads, lhsize, off, base, out)
    ensures off <= |str| && |out| == |str| - off + lhsize - base
  {
  }

  /** Appending to the innermost level. */
  function AppendLevel(levels: seq<seq<byte>>, b: seq<byte>): seq<seq<byte>>
    requires levels != []
  {
    levels[..|levels| - 1] + [levels[|levels| - 1] + b]
  }

  /** Closing the innermost level: its output becomes a list of the level below. */
  function CloseLevel(levels: seq<seq<byte>>): seq<seq<byte>>
    requires |levels| >= 2
  {
    var inner := levels[|levels| - 1];
    AppendLevel(levels[..|levels| - 1], Header(LIST_TAG, |inner|) + inner)
  }

  lemma LevelWrite(str: seq<byte>, heads: seq<ListHead>, lhsize: nat, off: nat, base: nat, out: seq<byte>, b: seq<byte>)
    requires Level(str, heads, lhsize, off, base, out)
    ensures Level(str + b, heads, lhsize, off, base, out + b)
  {
    SpliceAppend(str, b, heads, off);
  }

  lemma WriteRefines(str: seq<byte>, lheads: seq<ListHead>, lhsize: nat, open: seq<nat>, levels: seq<seq<byte>>,
                     b: seq<byte>)
    requires Represents(str, lheads, lhsize, open, levels)
    ensures Represents(str + b, lheads, lhsize, open, AppendLevel(levels, b))
  {
    if open == [] {
      LevelWrite(str, lheads, lhsize, 0, 0, levels[0], b);
    } else {
      var k := open[|open| - 1];
      var o := lheads[k];
      LevelWrite(str, lheads[k + 1..], lhsize, o.offset, o.size, levels[|open|], b);
      assert (str + b)[..o.offset] == str[..o.offset];
      assert AppendLevel(levels, b)[..|open|] == levels[..|open|];
    }
  }

  lemma ListRefines(str: seq<byte>, lheads: seq<ListHead>, lhsize: nat, open: seq<nat>, levels: seq<seq<byte>>)
    requires Represents(str, lheads, lhsize, open, levels)
    ensures Represents(str, lheads + [ListHead(|str|, lhsize)], lhsize, open + [|lheads|], levels + [[]])
  {
    var lheads', open', levels' := lheads + [ListHead(|str|, lhsize)], open + [|lheads|], levels + [[]];
    assert lheads'[|lheads| + 1..] == [] && lheads'[..|lheads|] == lheads;
    assert open'[..|open|] == open && levels'[..|open| + 1] == levels;
    assert str[..|str|] == str && str[|str|..|str|] == [];
  }

  /** The header an open list gets when it is closed: its size field becomes the content's size. */
  function Closed(str: seq<byte>, lheads: seq<ListHead>, lhsize: nat, k: nat): (r: seq<ListHead>)
    requires k < |lheads| && lheads[k].offset + lheads[k].size <= |str| + lhsize
    ensures |r| == |lheads|
  {
    lheads[k := ListHead(lheads[k].offset, |str| + lhsize - lheads[k].offset - lheads[k].size)]
  }

  lemma ListEndRefines(str: seq<byte>, lheads: seq<ListHead>, lhsize: nat, open: seq<nat>, levels: seq<seq<byte>>)
    requires Represents(str, lheads, lhsize, open, levels) && open != []
    ensures var k := open[|open| - 1];
            && k < |lheads| && lheads[k].offset + lheads[k].size <= |str| + lhsize
            && var lheads' := Closed(str, lheads, lhsize, k);
            && lheads'[k].size == |levels[|open|]|
            && Represents(str, lheads', lhsize + HeadSize(lheads'[k].size), open[..|open| - 1], CloseLevel(levels))
  {
    hide Level, Header, HeadSize;
    var n := |open| - 1;
    var k := open[n];
    var o, inner, last, below := lheads[k], lheads[k + 1..], levels[n + 1], levels[n];
    LevelBounds(str, inner, lhsize, o.offset, o.size, last);
    var lheads' := Closed(str, lheads, lhsize, k);
    var head := ListHead(o.offset, |last|);
    assert lheads'[k] == head;
    assert CloseLevel(levels) == levels[..n] + [below + (Header(LIST_TAG, |last|) + last)];
    if n == 0 {
      UpdateSlices(lheads, 0, k, head);
      assert lheads[0..k] == lheads[..k] && lheads'[0..] == lheads';
      LevelClose(str, lheads[..k], o, inner, lhsize, 0, 0, below, last);
    } else {
      var j := open[n - 1];
      assert open[..n][n - 1] == j && levels[..n + 1][n] == below;
      UpdateSlices(lheads, j + 1, k, head);
      var g := lheads[j + 1..k];
      assert lheads[..k][j] == lheads[j] && lheads[..k][j + 1..] == g;
      LevelBounds(str[..o.offset], g, o.size, lheads[j].offset, lheads[j].size, below);
      LevelClose(str, g, o, inner, lhsize, lheads[j].offset, lheads[j].size, below, last);
      assert str[..o.offset][..lheads[j].offset] == str[..lheads[j].offset];
      assert open[..n][..n - 1] == open[..n - 1];
      assert CloseLevel(levels)[..n] == levels[..n + 1][..n];
    }
  }

  lemma UpdateSlices<T>(s: seq<T>, j: nat, k: nat, x: T)
    requires j <= k < |s|
    ensures s[k := x][j..] == s[j..k] + [x] + s[k + 1..]
    ensures j > 0 ==> s[k := x][..j - 1] == s[..k][..j - 1]
  {
  }

  /** Closing the inner of two levels gives the outer one with the finished list appended. */
  lemma LevelClose(str: seq<byte>, g: seq<ListHead>, o: ListHead, inner: seq<ListHead>, lhsize: nat,
                   off: nat, base: nat, below: seq<byte>, last: seq<byte>)
    requires o.offset <= |str|
    requires Level(str[..o.offset], g, o.size, off, base, below)
    requires Level(str, inner, lhsize, o.offset, o.size, last)
    ensures |last| == |str| + lhsize - o.offset - o.size
    ensures Level(str, g + [ListHead(o.offset, |last|)] + inner, lhsize + HeadSize(|last|), off, base,
                  below + (Header(LIST_TAG, |last|) + last))
  {
    var head := ListHead(o.offset, |last|);
    SpliceList(str, g, head, inner, off);
    SpliceFrame(str, str[..o.offset], g, off, o.offset);
    HeadSizesConcat(g + [head], inner);
    HeadSizesConcat(g, [head]);
    assert HeadSizes([head]) == HeadSize(head.size) + HeadSizes([]);
  }

  /** The three forms in which writeUint64 emits an integer are its string encoding. */
  lemma Uint64Encoding(i: uint64)
    ensures EncodeString(BigEndian(i)) ==
            if i == 0 then [0x80] else if i < 128 then [i] else [0x80 + |IntBytes(i)|] + IntBytes(i)
  {
    IntBytesAreDigits(i);
    BigEndianEight(i);
    if i == 0 {
      assert EncodeString([]) == [0x80] + [];
    } else if i < 256 {
      assert BigEndian(i) == BigEndian(0) + [i] == [i];
    } else {
      assert BigEndian(i) == BigEndian(i / 256) + [i % 256];
    }
  }

  class EncBuffer {
    var str: seq<byte>           // everything except list headers
    var lheads: seq<ListHead>
    var lhsize: nat
    ghost var open: seq<nat>     // headers of unfinished lists, outermost first
    ghost var levels: seq<seq<byte>>

    ghost predicate Valid()
      reads this
    {
      Represents(str, lheads, lhsize, open, levels)
    }

    constructor ()
      ensures Valid() && open == [] && levels == [[]]
    {
      str, lheads, lhsize := [], [], 0;
      open, levels := [], [[]];
    }

    function Size(): (n: nat)
      requires Valid()
      reads this
      ensures open == [] ==> n == |levels[0]|
    {
      |str| + lhsize
    }

    method Write(b: seq<byte>)
      requires Valid()
      modifies this
      ensures Valid() && open == old(open) && levels == AppendLevel(old(levels), b)
    {
      WriteRefines(str, lheads, lhsize, open, levels, b);
      str := str + b;
      levels := AppendLevel(levels, b);
    }

    /** An integer is encoded as the string of its big-endian digits. */
    method WriteUint64(i: uint64)
      requires Valid()
      modifies this
      ensures Valid() && open == old(open)
      ensures levels == AppendLevel(old(levels), EncodeString(BigEndian(i)))
    {
      Uint64Encoding(i);
      if i == 0 {
        Write([0x80]);
      } else if i < 128 {
        Write([i]);
      } else {
        var s := IntBytes(i);
        Write([0x80 + |s|] + s);
      }
    }

    method WriteBytes(b: seq<byte>)
      requires Valid() && |b| < TWO_64
      modifies this
      ensures Valid() && open == old(open)
      ensures levels == AppendLevel(old(levels), EncodeString(b))
    {
      if |b| == 1 && b[0] <= 0x7F {
        Write([b[0]]);
        assert [b[0]] == b;
      } else {
        var h := HeadBytes(0x80, 0xB7, |b|);
        Write(h);
        Write(b);
        AppendTwice(old(levels), h, b);
      }
    }

    method List() returns (index: nat)
      requires Valid()
      modifies this
      ensures Valid() && index == |old(lheads)|
      ensures open == old(open) + [index] && levels == old(levels) + [[]]
    {
      ListRefines(str, lheads, lhsize, open, levels);
      index := |lheads|;
      lheads := lheads + [ListHead(|str|, lhsize)];
      open, levels := open + [index], levels + [[]];
    }

    /** Finishes the innermost open list, which has to be the one with the given index. */
    method ListEnd(index: nat)
      requires Valid() && open != [] && index == open[|open| - 1]
      modifies this
      ensures Valid() && open == old(open)[..|old(open)| - 1] && levels == CloseLevel(old(levels))
    {
      hide Level;
      ListEndRefines(str, lheads, lhsize, open, levels);
      var lh := lheads[index];
      var size := |str| + lhsize - lh.offset - lh.size;
      var n := 0;
      if size >= 56 {
        n := IntSize(size);
      }
      lheads, lhsize := lheads[index := ListHead(lh.offset, size)], lhsize + 1 + n;
      open, levels := open[..|open| - 1], CloseLevel(levels);
    }

    /** The slice and interface writers on an untyped value. */
    method Encode(v: Item)
      requires Valid() && |RlpSpec.Encode(v)| < TWO_64
      modifies this
      ensures Valid() && open == old(open)
      ensures levels == AppendLevel(old(levels), RlpSpec.Encode(v))
      decreases v
    {
      match v
      case Str(s) =>
        WriteBytes(s);
      case Lst(vs) =>
        if |vs| == 0 {
          assert RlpSpec.Encode(v) == [0xC0] + [] == [0xC0];
          Write([0xC0]);
        } else {
          var index := List();
          for i := 0 to |vs|
            invariant Valid() && open == old(open) + [index]
            invariant levels == old(levels) + [EncodeAll(vs[..i])]
          {
            ghost var before := levels;
            ElementSmaller(vs, i);
            Encode(vs[i]);
            assert vs[..i + 1] == vs[..i] + [vs[i]];
            EncodeAllAppend(vs[..i], vs[i]);
          }
          assert vs[..|vs|] == vs;
          ListEnd(index);
        }
    }

    /** Assembles the output in dst. */
    method CopyTo(dst: array<byte>)
      requires Valid() && open == [] && Size() <= dst.Length && Size() < TWO_64
      modifies dst
      ensures dst[..Size()] == levels[0]
      ensures dst[Size()..] == old(dst[Size()..])
    {
      hide Ahead, Level, Placed, Splice;
      ghost var out := levels[0];
      var strpos: nat, pos: nat := 0, 0;
      AheadStart(out, str, lheads, lhsize);
      for i := 0 to |lheads|
        invariant Ahead(out, str, lheads[i..], strpos, pos)
        invariant pos <= |out| && dst[..pos] == out[..pos]
        invariant dst[|out|..] == old(dst[Size()..])
      {
        assert lheads[i..][0] == lheads[i] && lheads[i..][1..] == lheads[i + 1..];
        strpos, pos := EmitHead(dst, str, lheads[i], lheads[i..], strpos, pos, out);
      }
      AheadEnd(out, str, lheads[|lheads|..], strpos, pos);
      Emit(dst, pos, str[strpos..], out);
    }

    /**
     Writes the output piece by piece to a writer whose failAt-th call fails after accepting
     part of its piece; what the writer accepted is always a prefix of the output.
     */
    method WriteTo(failAt: nat, partial: nat) returns (w: seq<byte>, failed: bool)
      requires Valid() && open == [] && Size() < TWO_64
      ensures w <= levels[0]
      ensures !failed ==> w == levels[0]
      ensures failAt > 2 * |lheads| ==> !failed
    {
      hide Ahead, Level, Placed, Splice;
      ghost var out := levels[0];
      var strpos: nat, calls: nat := 0, 0;
      w, failed := [], false;
      AheadStart(out, str, lheads, lhsize);
      for i := 0 to |lheads|
        invariant !failed && calls <= 2 * i
        invariant |w| <= |out| && Ahead(out, str, lheads[i..], strpos, |w|) && w == out[..|w|]
      {
        assert lheads[i..][0] == lheads[i] && lheads[i..][1..] == lheads[i + 1..];
        w, strpos, calls, failed := WriteHead(w, str, lheads[i], lheads[i..], strpos, calls, failAt, partial, out);
        if failed {
          return;
        }
      }
      AheadEnd(out, str, lheads[|lheads|..], strpos, |w|);
      if strpos < |str| {
        w, failed := WritePiece(w, str[strpos..], calls == failAt, partial, out);
      }
    }
  }

  /** One turn of writeTo's loop. */
  method WriteHead(w: seq<byte>, str: seq<byte>, head: ListHead, ghost heads: seq<ListHead>, strpos: nat, calls: nat,
                   failAt: nat, partial: nat, ghost out: seq<byte>)
    returns (w': seq<byte>, strpos': nat, calls': nat, failed: bool)
    requires heads != [] && head == heads[0] && head.size < TWO_64
    requires Ahead(out, str, heads, strpos, |w|) && w == out[..|w|]
    ensures |w'| <= |out| && w' == out[..|w'|]
    ensures failed ==> calls <= failAt <= calls + 1
    ensures !failed ==> calls' <= calls + 2 && Ahead(out, str, heads[1..], strpos', |w'|)
  {
    hide Ahead, Placed, Splice;
    AheadStep(out, str, heads, strpos, |w|);
    w', strpos', calls' := w, strpos, calls;
    if head.offset - strpos > 0 {
      w', failed := WritePiece(w, str[strpos..head.offset], calls == failAt, partial, out);
      if failed {
        return;
      }
      calls', strpos' := calls + 1, head.offset;
    }
    w', failed := WritePiece(w', HeadBytes(0xC0, 0xF7, head.size), calls' == failAt, partial, out);
    calls' := calls' + 1;
  }

  /** One call of the destination's Write. */
  method WritePiece(w: seq<byte>, piece: seq<byte>, fails: bool, partial: nat, ghost out: seq<byte>)
    returns (w': seq<byte>, failed: bool)
    requires |w| + |piece| <= |out| && w == out[..|w|] && piece == out[|w|..|w| + |piece|]
    ensures failed == fails && |w'| <= |out| && w' == out[..|w'|]
    ensures !failed ==> |w'| == |w| + |piece|
  {
    failed := fails;
    w' := w + if fails && partial < |piece| then piece[..partial] else piece;
  }

  /** One turn of copyTo's loop: the data before a header, then the header. */
  method EmitHead(dst: array<byte>, str: seq<byte>, head: ListHead, ghost heads: seq<ListHead>, strpos: nat, pos: nat,
                  ghost out: seq<byte>)
    returns (strpos': nat, pos': nat)
    requires heads != [] && head == heads[0] && head.size < TWO_64
    requires Ahead(out, str, heads, strpos, pos) && |out| <= dst.Length && dst[..pos] == out[..pos]
    modifies dst
    ensures Ahead(out, str, heads[1..], strpos', pos') && pos' <= |out| && dst[..pos'] == out[..pos']
    ensures dst[|out|..] == old(dst[|out|..])
  {
    hide Ahead, Placed, Splice;
    AheadStep(out, str, heads, strpos, pos);
    var chunk := str[strpos..head.offset];
    Emit(dst, pos, chunk, out);
    pos', strpos' := pos + |chunk|, strpos + |chunk|;
    var enc := HeadBytes(0xC0, 0xF7, head.size);
    Emit(dst, pos', enc, out);
    pos' := pos' + |enc|;
  }

  /** From pos on the output consists of the data after strpos with the given headers. */
  ghost predicate Ahead(out: seq<byte>, str: seq<byte>, heads: seq<ListHead>, strpos: nat, pos: nat) {
    && strpos <= |str| && Placed(heads, strpos, |str|)
    && pos <= |out| && out[pos..] == Splice(str, heads, strpos, |str|)
  }

  lemma AheadStart(out: seq<byte>, str: seq<byte>, lheads: seq<ListHead>, lhsize: nat)
    requires Level(str, lheads, lhsize, 0, 0, out)
    ensures Ahead(out, str, lheads[0..], 0, 0)
    ensures forall i :: 0 <= i < |lheads| ==> lheads[i].size <= |out|
    ensures |out| == |str| + lhsize
  {
    assert lheads[0..] == lheads && out[0..] == out;
  }

  lemma AheadEnd(out: seq<byte>, str: seq<byte>, heads: seq<ListHead>, strpos: nat, pos: nat)
    requires heads == [] && Ahead(out, str, heads, strpos, pos)
    ensures pos <= |out| && strpos <= |str| && out[pos..] == str[strpos..]
    ensures Ahead(out, str, heads, |str|, |out|)
  {
  }

  lemma AheadStep(out: seq<byte>, str: seq<byte>, heads: seq<ListHead>, strpos: nat, pos: nat)
    requires Ahead(out, str, heads, strpos, pos) && heads != []
    ensures var h := heads[0]; var n := h.offset - strpos; var m := HeadSize(h.size);
            && 0 <= n && h.offset <= |str| && pos + n + m <= |out|
            && out[pos..pos + n] == str[strpos..h.offset]
            && out[pos + n..pos + n + m] == Header(LIST_TAG, h.size)
            && Ahead(out, str, heads[1..], h.offset, pos + n + m)
  {
    PlacedInRange(heads, strpos, |str|);
    var h := heads[0];
    var chunk, enc := str[strpos..h.offset], Header(LIST_TAG, h.size);
    var tail := Splice(str, heads[1..], h.offset, |str|);
    PlacedInRange(heads[1..], h.offset, |str|);
    ThreePieces(out, pos, chunk, enc, tail);
  }

  lemma SliceJoin<T>(s: seq<T>, a: nat, b: nat, c: nat)
    requires a <= b <= c <= |s|
    ensures s[a..b] + s[b..c] == s[a..c]
  {
  }

  lemma ThreePieces<T>(out: seq<T>, pos: nat, a: seq<T>, b: seq<T>, c: seq<T>)
    requires pos <= |out| && out[pos..] == a + (b + c)
    ensures pos + |a| + |b| <= |out|
    ensures out[pos..pos + |a|] == a
    ensures out[pos + |a|..pos + |a| + |b|] == b
    ensures out[pos + |a| + |b|..] == c
  {
    var t := out[pos..];
    assert out[pos..pos + |a|] == t[..|a|];
    assert out[pos + |a|..pos + |a| + |b|] == t[|a|..|a| + |b|];
    assert out[pos + |a| + |b|..] == t[|a| + |b|..];
  }

  lemma AppendTwice(levels: seq<seq<byte>>, a: seq<byte>, b: seq<byte>)
    requires levels != []
    ensures AppendLevel(AppendLevel(levels, a), b) == AppendLevel(levels, a + b)
  {
    ConcatAssociates(levels[|levels| - 1], a, b);
  }

  lemma {:induction false} ElementSmaller(vs: seq<Item>, i: nat)
    requires i < |vs|
    ensures |RlpSpec.Encode(vs[i])| <= |EncodeAll(vs)|
  {
    if i > 0 {
      ElementSmaller(vs[1..], i - 1);
    }
  }

  /** EncodeToBytes: the buffer gives the recursive encoding, and size() is its length. */
  method EncodeToBytes(v: Item) returns (b: seq<byte>)
    requires |RlpSpec.Encode(v)| < TWO_64
    ensures b == RlpSpec.Encode(v)
  {
    var buf := new EncBuffer();
    buf.Encode(v);
    assert AppendLevel([[]], RlpSpec.Encode(v))[0] == [] + RlpSpec.Encode(v) == RlpSpec.Encode(v);
    var out := new byte[buf.Size()];
    buf.CopyTo(out);
    b := out[..];
  }

  /** The reader returned by EncodeToReader; it owns a finished buffer. */
  class EncReader {
    const str: seq<byte>
    const lheads: seq<ListHead>
    var released: bool           // the buffer went back to its pool
    var lhpos: nat
    var strpos: nat
    var piece: Option<seq<byte>> // next piece to be read
    ghost const out: seq<byte>   // the whole output
    ghost var pos: nat           // how much of it was read

    ghost function Held(): seq<byte>
      reads this
    {
      if piece.Some? then piece.value else []
    }

    ghost predicate Valid()
      reads this
    {
      && lhpos <= |lheads| && (forall i :: 0 <= i < |lheads| ==> lheads[i].size < TWO_64)
      && pos + |Held()| <= |out| && out[pos..pos + |Held()|] == Held()
      && strpos <= |str| && Ahead(out, str, lheads[lhpos..], strpos, pos + |Held()|)
      && (piece.Some? ==> |Held()| > 0)
      && (released ==> pos == |out| && piece.None?)
    }

    constructor (b: EncBuffer)
      requires b.Valid() && b.open == [] && b.Size() < TWO_64
      ensures Valid() && out == b.levels[0] && pos == 0
    {
      str, lheads, out := b.str, b.lheads, b.levels[0];
      released, lhpos, strpos, piece, pos := false, 0, 0, None, 0;
      new;
      AheadStart(out, str, lheads, b.lhsize);
    }

    /** Makes the next piece available, if there is one. */
    method Next()
      requires Valid() && piece.None? && !released
      modifies `piece, `lhpos, `strpos
      ensures Valid()
      ensures piece.None? <==> pos == |out|
    {
      hide Ahead, Placed, Splice;
      if lhpos < |lheads| {
        NextBeforeEnd();
        return;
      }
      AheadEnd(out, str, lheads[lhpos..], strpos, pos);
      if strpos < |str| {
        piece := Some(str[strpos..]);
        strpos := |str|;
      }
    }

    /** Before the last list header: the data in front of it, or the header itself. */
    method NextBeforeEnd()
      requires Valid() && piece.None? && !released && lhpos < |lheads|
      modifies `piece, `lhpos, `strpos
      ensures Valid() && piece.Some?
    {
      hide Ahead, Placed, Splice;
      var head := lheads[lhpos];
      ghost var heads := lheads[lhpos..];
      assert heads[0] == head && heads[1..] == lheads[lhpos + 1..];
      AheadChunk(out, str, heads, strpos, pos);
      if head.offset - strpos > 0 {
        piece := Some(str[strpos..head.offset]);
        strpos := head.offset;
      } else {
        AheadStep(out, str, heads, strpos, pos);
        lhpos := lhpos + 1;
        piece := Some(HeadBytes(0xC0, 0xF7, head.size));
      }
    }

    /** Hands out at most limit bytes of the held piece. */
    method Take(limit: nat) returns (b: seq<byte>)
      requires Valid() && piece.Some?
      modifies `piece, `pos
      ensures Valid() && pos == old(pos) + |b| && b == out[old(pos)..pos]
      ensures |b| == if |old(Held())| <= limit then |old(Held())| else limit
      ensures piece.None? <==> |old(Held())| <= limit
    {
      hide Ahead, Placed, Splice;
      var p := piece.value;
      var n := if |p| <= limit then |p| else limit;
      b := p[..n];
      piece := if n < |p| then Some(p[n..]) else None;
      pos := pos + n;
      assert p == b + p[n..];
      assert Held() == p[n..];
    }

    /** Fills a buffer of the given capacity; the end is reported as soon as nothing is left. */
    method Read(capacity: nat) returns (b: seq<byte>, eof: bool)
      requires Valid()
      modifies this
      ensures Valid() && pos == old(pos) + |b| && b == out[old(pos)..pos]
      ensures |b| == if capacity <= |out| - old(pos) then capacity else |out| - old(pos)
      ensures eof <==> |out| - old(pos) <= capacity
    {
      hide Ahead, Placed, Splice;
      b, eof := [], false;
      var full := false;
      while !eof && !full
        invariant Valid() && pos == old(pos) + |b| && b == out[old(pos)..pos] && |b| <= capacity
        invariant eof ==> pos == |out| && !full
        invariant full ==> |b| == capacity && pos < |out|
        decreases |out| - pos, !eof && !full
      {
        if !released && piece.None? {
          Next();
        }
        if released || piece.None? {
          released, eof := true, true;
        } else {
          ghost var before := pos;
          var chunk := Take(capacity - |b|);
          SliceJoin(out, old(pos), before, pos);
          b := b + chunk;
          full := piece.Some?;
        }
      }
    }
  }

  /** Taking only the data before the next header. */
  lemma AheadChunk(out: seq<byte>, str: seq<byte>, heads: seq<ListHead>, strpos: nat, pos: nat)
    requires Ahead(out, str, heads, strpos, pos) && heads != []
    ensures var n := heads[0].offset - strpos;
            && 0 <= n && pos + n <= |out| && heads[0].offset <= |str|
            && out[pos..pos + n] == str[strpos..heads[0].offset]
            && Ahead(out, str, heads, heads[0].offset, pos + n)
  {
    PlacedInRange(heads, strpos, |str|);
    var h := heads[0];
    var chunk, enc := str[strpos..h.offset], Header(LIST_TAG, h.size);
    ThreePieces(out, pos, chunk, enc + Splice(str, heads[1..], h.offset, |str|), []);
    assert str[h.offset..h.offset] == [];
  }

  function Sum(sizes: seq<nat>): nat {
    if sizes == [] then 0 else Sum(sizes[..|sizes| - 1]) + sizes[|sizes| - 1]
  }

  /** Any sequence of reads, whatever the chunk sizes, yields the encoding from its beginning. */
  method ReadChunks(v: Item, sizes: seq<nat>) returns (b: seq<byte>)
    requires |RlpSpec.Encode(v)| < TWO_64
    ensures b <= RlpSpec.Encode(v)
    ensures |b| == if Sum(sizes) <= |RlpSpec.Encode(v)| then Sum(sizes) else |RlpSpec.Encode(v)|
  {
    var buf := new EncBuffer();
    buf.Encode(v);
    assert AppendLevel([[]], RlpSpec.Encode(v))[0] == [] + RlpSpec.Encode(v) == RlpSpec.Encode(v);
    var r := new EncReader(buf);
    b := ReadSizes(r, sizes);
  }

  method ReadSizes(r: EncReader, sizes: seq<nat>) returns (b: seq<byte>)
    requires r.Valid() && r.pos == 0
    modifies r
    ensures b <= r.out
    ensures |b| == if Sum(sizes) <= |r.out| then Sum(sizes) else |r.out|
  {
    hide Ahead, Placed, Splice;
    b := [];
    for i := 0 to |sizes|
      invariant r.Valid() && r.pos == |b| && b == r.out[0..r.pos]
      invariant |b| == if Sum(sizes[..i]) <= |r.out| then Sum(sizes[..i]) else |r.out|
    {
      assert sizes[..i + 1][..i] == sizes[..i];
      ghost var before := r.pos;
      var chunk, eof := r.Read(sizes[i]);
      SliceJoin(r.out, 0, before, r.pos);
      b := b + chunk;
    }
    assert sizes[..|sizes|] == sizes;
  }
}
