/**
 The recursive length prefix encoding of Appendix B of the Ethereum Yellow Paper, as a plain
 recursive function over trees. The streaming decoder and the deferred-header encoder are proved against it.
 */
module RlpSpec {
  import opened Common

  /** The values that decoding into an untyped interface produces. */
  datatype Item = Str(bytes: seq<byte>) | Lst(items: seq<Item>)

  const STRING_TAG: byte := 0x80
  const LIST_TAG: byte := 0xC0

  /** Tag and length of a payload; the long form starts 55 above the short one. */
  function Header(tag: byte, size: nat): (h: seq<byte>)
    ensures |h| >= 1
  {
    if size < 56 then [ToByte(tag + size)]
    else [ToByte(tag + 55 + |BigEndian(size)|)] + BigEndian(size)
  }

  function EncodeString(s: seq<byte>): (b: seq<byte>)
    ensures |b| >= 1
  {
    if |s| == 1 && s[0] < 0x80 then s else Header(STRING_TAG, |s|) + s
  }

  function Encode(v: Item): (b: seq<byte>)
    ensures |b| >= 1
    decreases v
  {
    match v
    case Str(s) => EncodeString(s)
    case Lst(vs) => Header(LIST_TAG, |EncodeAll(vs)|) + EncodeAll(vs)
  }

  function EncodeAll(vs: seq<Item>): (b: seq<byte>)
    decreases vs
  {
    if vs == [] then [] else Encode(vs[0]) + EncodeAll(vs[1..])
  }

  lemma {:induction false} EncodeAllConcat(vs: seq<Item>, ws: seq<Item>)
    ensures EncodeAll(vs + ws) == EncodeAll(vs) + EncodeAll(ws)
  {
    if vs == [] {
      assert vs + ws == ws;
    } else {
      calc {
        EncodeAll(vs + ws);
        { assert (vs + ws)[1..] == vs[1..] + ws; }
        Encode(vs[0]) + EncodeAll(vs[1..] + ws);
        { EncodeAllConcat(vs[1..], ws); }
        Encode(vs[0]) + (EncodeAll(vs[1..]) + EncodeAll(ws));
        { ConcatAssociates(Encode(vs[0]), EncodeAll(vs[1..]), EncodeAll(ws)); }
        EncodeAll(vs) + EncodeAll(ws);
      }
    }
  }

  lemma EncodeAllAppend(vs: seq<Item>, v: Item)
    ensures EncodeAll(vs + [v]) == EncodeAll(vs) + Encode(v)
  {
    EncodeAllConcat(vs, [v]);
    assert EncodeAll([v]) == Encode(v) + EncodeAll([]);
  }

  predicate IsTag(tag: byte) {
    tag == STRING_TAG || tag == LIST_TAG
  }

  /** What the first byte of a header reveals, for every payload a machine word can count. */
  lemma HeaderFirstByte(tag: byte, size: nat)
    requires IsTag(tag) && size < TWO_64
    ensures size < 56 ==> Header(tag, size) == [tag + size]
    ensures size >= 56 ==>
              && 1 <= |BigEndian(size)| <= 8
              && Header(tag, size) == [tag + 55 + |BigEndian(size)|] + BigEndian(size)
    ensures 1 <= |Header(tag, size)| <= 9
  {
    BigEndianEight(size);
  }

  /** The ranges of the first byte: a byte itself, a short or long string, a short or long list. */
  lemma FirstByte(v: Item)
    requires if v.Str? then |v.bytes| < TWO_64 else |EncodeAll(v.items)| < TWO_64
    ensures var b := Encode(v)[0];
            match v
            case Str(s) =>
              if |s| == 1 && s[0] <= 0x7f then b == s[0] else if |s| <= 55 then b == 0x80 + |s| else 0xb8 <= b <= 0xbf
            case Lst(vs) =>
              if |EncodeAll(vs)| <= 55 then b == 0xc0 + |EncodeAll(vs)| else 0xf8 <= b <= 0xff
  {
    hide Header;
    match v
    case Str(s) => HeaderFirstByte(STRING_TAG, |s|);
    case Lst(vs) => HeaderFirstByte(LIST_TAG, |EncodeAll(vs)|);
  }

  /** A header can be read off the front of a string in one way only. */
  lemma HeaderUnique(tag: byte, size: nat, rest: seq<byte>, tag': byte, size': nat, rest': seq<byte>)
    requires IsTag(tag) && IsTag(tag') && size < TWO_64 && size' < TWO_64
    requires Header(tag, size) + rest == Header(tag', size') + rest'
    ensures tag == tag' && size == size' && rest == rest'
  {
    HeaderFirstByte(tag, size);
    HeaderFirstByte(tag', size');
    var b := Header(tag, size) + rest;
    var b' := Header(tag', size') + rest';
    assert b[0] == Header(tag, size)[0] && b'[0] == Header(tag', size')[0];
    assert tag == tag';
    var n := |Header(tag, size)|;
    assert n == |Header(tag', size')|;
    assert Header(tag, size) == b[..n] && Header(tag', size') == b'[..n];
    if size >= 56 {
      assert BigEndian(size) == b[1..n] && BigEndian(size') == b'[1..n];
      FromBigEndianInvertsBigEndian(size);
      FromBigEndianInvertsBigEndian(size');
    }
    assert rest == b[n..] && rest' == b'[n..];
  }

  lemma PrefixSplits<T>(a: seq<T>, b: seq<T>, s: seq<T>)
    requires a + b <= s
    ensures a <= s && b <= s[|a|..]
  {
    assert a == (a + b)[..|a|] && b == (a + b)[|a|..];
  }

  lemma SplitsAlike<T>(p: seq<T>, r: seq<T>, p': seq<T>, r': seq<T>)
    requires |p| == |p'| && p + r == p' + r'
    ensures p == p' && r == r'
  {
    assert p == (p + r)[..|p|] && p' == (p' + r')[..|p|];
    assert r == (p + r)[|p|..] && r' == (p' + r')[|p|..];
  }

  /** Two values encoded at the front of the same string agree on tag, payload and remainder. */
  lemma PayloadsAlike(v: Item, rest: seq<byte>, w: Item, rest': seq<byte>)
    requires Encode(v) + rest == Encode(w) + rest'
    requires |Encode(v) + rest| < TWO_64
    ensures Tag(v) == Tag(w) && Payload(v) == Payload(w) && rest == rest'
  {
    FirstByteOfEncoding(v, rest);
    FirstByteOfEncoding(w, rest');
    if (Encode(v) + rest)[0] < 0x80 {
      SplitsAlike(Encode(v), rest, Encode(w), rest');
    } else {
      var p, p' := Payload(v), Payload(w);
      HeaderUnique(Tag(v), |p|, p + rest, Tag(w), |p'|, p' + rest');
      SplitsAlike(p, rest, p', rest');
    }
  }

  /**
   No encoding is a proper prefix of another one, so a byte string holds at most one value
   at its front and no value has two encodings.
   */
  lemma {:induction false} PrefixFree(v: Item, rest: seq<byte>, w: Item, rest': seq<byte>)
    requires Encode(v) + rest == Encode(w) + rest'
    requires |Encode(v) + rest| < TWO_64
    ensures v == w && rest == rest'
    decreases v
  {
    PayloadsAlike(v, rest, w, rest');
    if v.Lst? {
      EncodeAllInjective(v.items, w.items);
    }
  }

  function Tag(v: Item): byte {
    if v.Str? then STRING_TAG else LIST_TAG
  }

  function Payload(v: Item): seq<byte> {
    if v.Str? then v.bytes else EncodeAll(v.items)
  }

  lemma FirstByteOfEncoding(v: Item, rest: seq<byte>)
    requires |Encode(v)| < TWO_64
    ensures var b := Encode(v) + rest;
            if b[0] < 0x80 then v == Str([b[0]]) && Encode(v) == [b[0]]
            else b == Header(Tag(v), |Payload(v)|) + (Payload(v) + rest) && |Payload(v)| < TWO_64
  {
    HeaderFirstByte(Tag(v), |Payload(v)|);
    var b := Encode(v) + rest;
    assert b[0] == Encode(v)[0];
    if b[0] >= 0x80 {
      assert Encode(v) == Header(Tag(v), |Payload(v)|) + Payload(v);
    }
  }

  lemma {:induction false} EncodeAllInjective(vs: seq<Item>, ws: seq<Item>)
    requires EncodeAll(vs) == EncodeAll(ws)
    requires |EncodeAll(vs)| < TWO_64
    ensures vs == ws
    decreases vs
  {
    if vs == [] || ws == [] {
    } else {
      PrefixFree(vs[0], EncodeAll(vs[1..]), ws[0], EncodeAll(ws[1..]));
      EncodeAllInjective(vs[1..], ws[1..]);
      assert vs == [vs[0]] + vs[1..] && ws == [ws[0]] + ws[1..];
    }
  }
}
