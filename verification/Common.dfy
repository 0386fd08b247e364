/** Machine integers, optional values and big-endian numbers shared by the whole project. */
module Common {

  const TWO_64: int := 0x1_0000_0000_0000_0000
  const TWO_63: int := 0x8000_0000_0000_0000

  type byte = b: int | 0 <= b < 256
  type uint64 = n: int | 0 <= n < 0x1_0000_0000_0000_0000

  /** The limit on init code (EIP-3860). */
  const MAX_INIT_CODE_SIZE := 49152

  datatype Option<+T> = None | Some(value: T)

  lemma ConcatAssociates<T>(a: seq<T>, b: seq<T>, c: seq<T>)
    ensures a + (b + c) == (a + b) + c
  {
  }

  /** Go's conversion to a byte: only the low eight bits survive. */
  function ToByte(n: int): (b: byte)
    ensures 0 <= n < 256 ==> b == n
  {
    n % 256
  }

  /** Go's uint64 arithmetic wraps around. */
  function Wrap64(n: int): (r: uint64)
    ensures 0 <= n < TWO_64 ==> r == n
    ensures -TWO_64 <= n < 0 ==> r == n + TWO_64
  {
    n % TWO_64
  }

  /** Big-endian digits of n without leading zeros; zero has no digits. */
  function BigEndian(n: nat): (s: seq<byte>)
    ensures n > 0 <==> |s| > 0
    ensures |s| > 0 ==> s[0] > 0
  {
    if n == 0 then [] else BigEndian(n / 256) + [n % 256]
  }

  /** The number that a big-endian byte string stands for. */
  function FromBigEndian(s: seq<byte>): (n: nat)
  {
    if s == [] then 0 else FromBigEndian(s[..|s| - 1]) * 256 + s[|s| - 1]
  }

  function Pow256(k: nat): (p: nat)
    ensures p >= 1
  {
    if k == 0 then 1 else 256 * Pow256(k - 1)
  }

  lemma LastDigit(s: seq<byte>, b: byte)
    ensures FromBigEndian(s + [b]) == FromBigEndian(s) * 256 + b
  {
    assert (s + [b])[..|s|] == s;
  }

  lemma {:induction false} FromBigEndianInvertsBigEndian(n: nat)
    ensures FromBigEndian(BigEndian(n)) == n
  {
    if n > 0 {
      FromBigEndianInvertsBigEndian(n / 256);
      LastDigit(BigEndian(n / 256), n % 256);
      assert n == n / 256 * 256 + n % 256;
    }
  }

  lemma Digits(n: nat, b: byte)
    ensures (n * 256 + b) / 256 == n && (n * 256 + b) % 256 == b
  {
  }

  /** A string without a leading zero is the digit string of its own number. */
  lemma {:induction false} BigEndianInvertsFromBigEndian(s: seq<byte>)
    requires |s| > 0 ==> s[0] > 0
    ensures BigEndian(FromBigEndian(s)) == s
    ensures |s| > 0 ==> FromBigEndian(s) > 0
  {
    if |s| > 0 {
      hide FromBigEndian, BigEndian;
      var front, last := s[..|s| - 1], s[|s| - 1];
      BigEndianInvertsFromBigEndian(front);
      assert s == front + [last];
      LastDigit(front, last);
      MoreDigits(FromBigEndian(front), last);
    }
  }

  lemma MoreDigits(n: nat, b: byte)
    requires n > 0 || b > 0
    ensures BigEndian(n * 256 + b) == BigEndian(n) + [b]
  {
    Digits(n, b);
  }

  lemma {:induction false} FromBigEndianBound(s: seq<byte>)
    ensures FromBigEndian(s) < Pow256(|s|)
  {
    if s != [] {
      FromBigEndianBound(s[..|s| - 1]);
    }
  }

  /** Exactly the numbers below 256^k have at most k digits. */
  lemma {:induction false} BigEndianLength(n: nat, k: nat)
    ensures |BigEndian(n)| <= k <==> n < Pow256(k)
  {
    if n > 0 && k > 0 {
      BigEndianLength(n / 256, k - 1);
      assert n < 256 * Pow256(k - 1) <==> n / 256 < Pow256(k - 1);
    }
  }

  lemma {:induction false} Pow256Monotone(j: nat, k: nat)
    requires j <= k
    ensures Pow256(j) <= Pow256(k)
  {
    if j < k {
      Pow256Monotone(j, k - 1);
    }
  }

  lemma Pow256Eight()
    ensures Pow256(8) == TWO_64
  {
    assert Pow256(2) == 65536;
    assert Pow256(4) == 0x1_0000_0000;
    assert Pow256(6) == 0x1_0000_0000_0000;
  }

  lemma BigEndianEight(n: nat)
    ensures |BigEndian(n)| <= 8 <==> n < TWO_64
  {
    Pow256Eight();
    BigEndianLength(n, 8);
  }

  lemma MulMonotone(a: int, b: int, c: int)
    requires a <= b && 0 <= c
    ensures a * c <= b * c
  {
  }

  lemma DivModUnique(n: int, d: int, q: int, r: int)
    requires d >= 1 && n == d * q + r && 0 <= r < d
    ensures n / d == q && n % d == r
  {
    var q', r' := n / d, n % d;
    assert n == d * q' + r';
    if q' < q {
      MulMonotone(q' + 1, q, d);
    } else if q < q' {
      MulMonotone(q + 1, q', d);
    }
  }

  /** n as exactly len big-endian bytes. */
  function FixedBytes(n: int, len: nat): (s: seq<byte>)
    ensures |s| == len
    decreases len
  {
    if len == 0 then [] else FixedBytes(n / 256, len - 1) + [n % 256]
  }

  lemma {:induction false} FixedBytesValue(n: int, len: nat)
    ensures FromBigEndian(FixedBytes(n, len)) == n % Pow256(len)
    decreases len
  {
    if len > 0 {
      FixedBytesValue(n / 256, len - 1);
      var s := FixedBytes(n, len);
      assert s[..len - 1] == FixedBytes(n / 256, len - 1);
      ModSplit(n, Pow256(len - 1));
    }
  }

  lemma ModSplit(n: int, p: int)
    requires p >= 1
    ensures n % (256 * p) == (n / 256 % p) * 256 + n % 256
  {
    var h := n / 256;
    var r := (h % p) * 256 + n % 256;
    var k := h / p;
    assert h == p * k + h % p;
    assert n == (256 * p) * k + r by {
      assert 256 * (p * k) == (256 * p) * k;
    }
    assert 0 <= r < 256 * p by {
      assert (h % p) <= p - 1;
    }
    DivModUnique(n, 256 * p, k, r);
  }

  /** The front of a number's digits are its high part. */
  lemma {:induction false} FromBigEndianSplit(a: seq<byte>, b: seq<byte>)
    ensures FromBigEndian(a + b) == FromBigEndian(a) * Pow256(|b|) + FromBigEndian(b)
  {
    if b == [] {
      assert a + b == a;
    } else {
      hide FromBigEndian;
      var front, last := b[..|b| - 1], b[|b| - 1];
      FromBigEndianSplit(a, front);
      assert a + b == (a + front) + [last] && b == front + [last];
      LastDigit(a + front, last);
      LastDigit(front, last);
      assert FromBigEndian(a) * Pow256(|b|) == 256 * (FromBigEndian(a) * Pow256(|front|));
    }
  }

  /** Byte strings of one length are equal when their numbers are. */
  lemma {:induction false} FromBigEndianInjective(a: seq<byte>, b: seq<byte>)
    requires |a| == |b| && FromBigEndian(a) == FromBigEndian(b)
    ensures a == b
  {
    if a != [] {
      var n := |a| - 1;
      Digits(FromBigEndian(a[..n]), a[n]);
      Digits(FromBigEndian(b[..n]), b[n]);
      FromBigEndianInjective(a[..n], b[..n]);
      assert a == a[..n] + [a[n]] && b == b[..n] + [b[n]];
    }
  }
}
