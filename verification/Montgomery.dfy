/**
 Montgomery arithmetic modulo the BLS12-381 base field prime on six 64-bit limbs
 (crypto/bls12381/arithmetic_fallback.go, fp.go).
 */
module Montgomery {
  import opened Common

  const B: int := 0x1_0000_0000_0000_0000
  const B2: int := 0x1_0000_0000_0000_0000_0000_0000_0000_0000

  const Q0: uint64 := 13402431016077863595
  const Q1: uint64 := 2210141511517208575
  const Q2: uint64 := 7435674573564081700
  const Q3: uint64 := 7239337960414712511
  const Q4: uint64 := 5412103778470702295
  const Q5: uint64 := 1873798617647539866

  /** The field modulus. */
  const Q: nat := 0x1a0111ea397fe69a4b1ba7b6434bacd764774b84f38512bf6730d2a0f6b0f6241eabfffeb153ffffb9feffffffffaaab

  /** 2^384, and its inverse modulo Q. */
  const R: nat := 0x1_000000000000000000000000000000000000000000000000000000000000000000000000000000000000000000000000
  const RINV: nat := 0x14fec701e8fb0ce9ed5e64273c4f538b1797ab1458a88de9343ea97914956dc87fe11274d898fafbf4d38259380b4820

  /** -1/Q modulo 2^64. */
  const INP: uint64 := 9940570264628428797

  // ---------------------------------------------------------------- limbs

  function Number(a0: uint64, a1: uint64, a2: uint64, a3: uint64, a4: uint64, a5: uint64): nat {
    a0 + B * (a1 + B * (a2 + B * (a3 + B * (a4 + B * a5))))
  }

  function Value(a: seq<uint64>): nat
    requires |a| == 6
  {
    Number(a[0], a[1], a[2], a[3], a[4], a[5])
  }

  lemma ModulusLimbs()
    ensures Number(Q0, Q1, Q2, Q3, Q4, Q5) == Q
    ensures 2 * Q < R
  {
  }

  lemma MulBound(a: uint64, b: uint64)
    ensures 0 <= a * b <= (B - 1) * (B - 1)
  {
    MulMonotone(0, a, b);
    MulMonotone(a, B - 1, b);
  }

  /** A product under a name of its own, which keeps the carry equations linear. */
  function Prod(a: nat, b: nat): nat {
    a * b
  }

  // ---------------------------------------------------------------- math/bits

  function Add64(x: uint64, y: uint64, carry: nat): (r: (uint64, nat))
    requires carry <= 1
    ensures r.0 + B * r.1 == x + y + carry && r.1 <= 1
  {
    var s := x + y + carry;
    if s < B then (s, 0) else (s - B, 1)
  }

  function Sub64(x: uint64, y: uint64, borrow: nat): (r: (uint64, nat))
    requires borrow <= 1
    ensures r.0 - B * r.1 == x - y - borrow && r.1 <= 1
  {
    var s := x - y - borrow;
    if s >= 0 then (s, 0) else (s + B, 1)
  }

  function Mul64(x: uint64, y: uint64): (r: (uint64, uint64))
    ensures r.0 * B + r.1 == Prod(x, y)
    ensures r.0 <= B - 2
  {
    MulBound(x, y);
    (x * y / B, x * y % B)
  }

  // ---------------------------------------------------------------- multiply and add

  /** The high word of a*b + c. */
  function Madd0(a: uint64, b: uint64, c: uint64): (hi: uint64)
    ensures hi * B <= Prod(a, b) + c < hi * B + B
  {
    var (h, lo) := Mul64(a, b);
    var (_, carry) := Add64(lo, c, 0);
    Add64(h, 0, carry).0
  }

  /** a*b + c always fits two words. */
  function Madd1(a: uint64, b: uint64, c: uint64): (r: (uint64, uint64))
    ensures r.0 * B + r.1 == Prod(a, b) + c
  {
    var (h, l) := Mul64(a, b);
    var (lo, carry) := Add64(l, c, 0);
    (Add64(h, 0, carry).0, lo)
  }

  /** So does a*b + c + d. */
  function Madd2(a: uint64, b: uint64, c: uint64, d: uint64): (r: (uint64, uint64))
    ensures r.0 * B + r.1 == Prod(a, b) + c + d
  {
    MulBound(a, b);
    var (h, l) := Mul64(a, b);
    var (cd, carry) := Add64(c, d, 0);
    var (h', _) := Add64(h, 0, carry);
    var (lo, carry') := Add64(l, cd, 0);
    (Add64(h', 0, carry').0, lo)
  }

  /** a*b + c + d + e*2^64, which keeps only two words. */
  function Madd3(a: uint64, b: uint64, c: uint64, d: uint64, e: uint64): (r: (uint64, uint64))
    ensures Prod(a, b) + c + d + e * B < B2 ==> r.0 * B + r.1 == Prod(a, b) + c + d + e * B
  {
    MulBound(a, b);
    var (h, l) := Mul64(a, b);
    var (cd, carry) := Add64(c, d, 0);
    var (h', _) := Add64(h, 0, carry);
    var (lo, carry') := Add64(l, cd, 0);
    (Add64(h', e, carry').0, lo)
  }

  /** The multiple of Q that clears the low word. */
  function Quotient(c: uint64): (m: uint64)
    ensures (m * Q0 + c) % B == 0
  {
    var k := c * INP / B;
    var m := c * INP % B;
    assert m == c * INP - k * B;
    assert m * Q0 + c == B * (7222293901829252101 * c - k * Q0);
    m
  }

  // ---------------------------------------------------------------- one round of mul

  /** Six words that need not be reduced. */
  function Wide(p0: nat, p1: nat, p2: nat, p3: nat, p4: nat, p5: nat): nat {
    p0 + B * (p1 + B * (p2 + B * (p3 + B * (p4 + B * p5))))
  }

  /**
   The carry chains of one round add up: the low word is cleared, the others move down one limb.
   p0..p5 are the products of the multiplier with the limbs of y.
   */
  lemma RoundSum(t0: uint64, t1: uint64, t2: uint64, t3: uint64, t4: uint64, t5: uint64,
                 p0: nat, p1: nat, p2: nat, p3: nat, p4: nat, p5: nat, m: uint64,
                 a0: uint64, a1: uint64, a2: uint64, a3: uint64, a4: uint64, a5: uint64,
                 c0: uint64, c1: uint64, c2: uint64, c3: uint64, c4: uint64, c5: uint64,
                 e0: uint64, e1: uint64, e2: uint64, e3: uint64, e4: uint64,
                 d0: uint64, d1: uint64, d2: uint64, d3: uint64, d4: uint64, d5: uint64)
    requires a0 * B + c0 == p0 + t0 && e0 * B == Prod(m, Q0) + c0
    requires a1 * B + c1 == p1 + a0 + t1 && e1 * B + d0 == Prod(m, Q1) + e0 + c1
    requires a2 * B + c2 == p2 + a1 + t2 && e2 * B + d1 == Prod(m, Q2) + e1 + c2
    requires a3 * B + c3 == p3 + a2 + t3 && e3 * B + d2 == Prod(m, Q3) + e2 + c3
    requires a4 * B + c4 == p4 + a3 + t4 && e4 * B + d3 == Prod(m, Q4) + e3 + c4
    requires a5 * B + c5 == p5 + a4 + t5
    requires Prod(m, Q5) + c5 + e4 + a5 * B < B2 ==> d5 * B + d4 == Prod(m, Q5) + c5 + e4 + a5 * B
    requires Number(t0, t1, t2, t3, t4, t5) < 2 * Q && Wide(p0, p1, p2, p3, p4, p5) <= (B - 1) * Q
    ensures B * Number(d0, d1, d2, d3, d4, d5) ==
            Number(t0, t1, t2, t3, t4, t5) + Wide(p0, p1, p2, p3, p4, p5) + m * Q
    ensures Number(d0, d1, d2, d3, d4, d5) < 2 * Q
  {
    var top := Prod(m, Q5) + c5 + e4 + a5 * B;
    assert B * (d0 + B * (d1 + B * (d2 + B * (d3 + B * top)))) ==
           Number(t0, t1, t2, t3, t4, t5) + Wide(p0, p1, p2, p3, p4, p5) + m * Q;
    TopFits(Number(t0, t1, t2, t3, t4, t5), Wide(p0, p1, p2, p3, p4, p5), m, d0, d1, d2, d3, top, d4, d5);
  }

  lemma Distribute(v: int, a: int, b: int)
    ensures v * (a + B * b) == v * a + B * (v * b)
  {
  }

  lemma TimesNumber(v: nat, y0: uint64, y1: uint64, y2: uint64, y3: uint64, y4: uint64, y5: uint64)
    ensures v * Number(y0, y1, y2, y3, y4, y5) ==
            Wide(Prod(v, y0), Prod(v, y1), Prod(v, y2), Prod(v, y3), Prod(v, y4), Prod(v, y5))
  {
    var n4 := y4 + B * y5;
    var n3 := y3 + B * n4;
    var n2 := y2 + B * n3;
    var n1 := y1 + B * n2;
    Distribute(v, y4, y5);
    Distribute(v, y3, n4);
    Distribute(v, y2, n3);
    Distribute(v, y1, n2);
    Distribute(v, y0, n1);
  }

  /** A field element: six limbs in place. */
  ghost predicate IsFe(a: array<uint64>) {
    a.Length == 6
  }

  lemma LowCleared(m: uint64, c: uint64, e: uint64)
    requires m == Quotient(c) && e == Madd0(m, Q0, c)
    ensures e * B == Prod(m, Q0) + c
  {
    hide Quotient, Madd0;
    var n := m * Q0 + c;
    assert n == n / B * B;
  }

  lemma TopFits(t: nat, p: nat, m: uint64, d0: uint64, d1: uint64, d2: uint64, d3: uint64, top: nat, d4: uint64,
                d5: uint64)
    requires t < 2 * Q && p <= (B - 1) * Q
    requires B * (d0 + B * (d1 + B * (d2 + B * (d3 + B * top)))) == t + p + m * Q
    requires top < B2 ==> d5 * B + d4 == top
    ensures B * Number(d0, d1, d2, d3, d4, d5) == t + p + m * Q
    ensures Number(d0, d1, d2, d3, d4, d5) < 2 * Q
  {
  }

  /**
   One round: d := (t + v*y + m*Q) / 2^64. The destination may be t or y, because limb k - 1
   is written only after limb k of both was read.
   */
  method Round(v: uint64, y: array<uint64>, t: array<uint64>, d: array<uint64>) returns (ghost m: uint64)
    requires IsFe(y) && IsFe(t) && IsFe(d)
    requires Value(y[..]) < Q && Value(t[..]) < 2 * Q
    modifies d
    ensures B * Value(d[..]) == old(Value(t[..])) + Prod(v, old(Value(y[..]))) + m * Q
    ensures Value(d[..]) < 2 * Q
  {
    hide Quotient, Madd0, Madd1, Madd2, Madd3, Mul64, Number, Wide, Prod;
    ghost var ys, ts := y[..], t[..];
    var (a0, c0) := Madd1(v, y[0], t[0]);
    var q := Quotient(c0);
    var e0 := Madd0(q, Q0, c0);
    var (a1, c1) := Madd2(v, y[1], a0, t[1]);
    var (e1, d0) := Madd2(q, Q1, e0, c1);
    d[0] := d0;
    var (a2, c2) := Madd2(v, y[2], a1, t[2]);
    var (e2, d1) := Madd2(q, Q2, e1, c2);
    d[1] := d1;
    var (a3, c3) := Madd2(v, y[3], a2, t[3]);
    var (e3, d2) := Madd2(q, Q3, e2, c3);
    d[2] := d2;
    var (a4, c4) := Madd2(v, y[4], a3, t[4]);
    var (e4, d3) := Madd2(q, Q4, e3, c4);
    d[3] := d3;
    var (a5, c5) := Madd2(v, y[5], a4, t[5]);
    var (d5, d4) := Madd3(q, Q5, c5, e4, a5);
    d[5], d[4] := d5, d4;
    m := q;
    LowCleared(q, c0, e0);
    ProductBound(v, ys);
    RoundSum(ts[0], ts[1], ts[2], ts[3], ts[4], ts[5],
             Prod(v, ys[0]), Prod(v, ys[1]), Prod(v, ys[2]), Prod(v, ys[3]), Prod(v, ys[4]), Prod(v, ys[5]), q,
             a0, a1, a2, a3, a4, a5,
             c0, c1, c2, c3, c4, c5, e0, e1, e2, e3, e4, d0, d1, d2, d3, d4, d5);
  }

  /** Round 0 starts from t = 0. */
  method FirstRound(v: uint64, y: array<uint64>, d: array<uint64>) returns (ghost m: uint64)
    requires IsFe(y) && IsFe(d) && y != d && Value(y[..]) < Q
    modifies d
    ensures B * Value(d[..]) == Prod(v, Value(y[..])) + m * Q
    ensures Value(d[..]) < 2 * Q
  {
    hide Quotient, Madd0, Madd1, Madd2, Madd3, Mul64, Number, Wide, Prod;
    var (a0, c0) := Mul64(v, y[0]);
    var q := Quotient(c0);
    var e0 := Madd0(q, Q0, c0);
    var (a1, c1) := Madd1(v, y[1], a0);
    var (e1, d0) := Madd2(q, Q1, e0, c1);
    var (a2, c2) := Madd1(v, y[2], a1);
    var (e2, d1) := Madd2(q, Q2, e1, c2);
    var (a3, c3) := Madd1(v, y[3], a2);
    var (e3, d2) := Madd2(q, Q3, e2, c3);
    var (a4, c4) := Madd1(v, y[4], a3);
    var (e4, d3) := Madd2(q, Q4, e3, c4);
    var (a5, c5) := Madd1(v, y[5], a4);
    var (d5, d4) := Madd3(q, Q5, c5, e4, a5);
    d[0], d[1], d[2], d[3], d[4], d[5] := d0, d1, d2, d3, d4, d5;
    m := q;
    LowCleared(q, c0, e0);
    ProductBound(v, y[..]);
    assert Number(0, 0, 0, 0, 0, 0) == 0 by { ZeroNumber(); }
    RoundSum(0, 0, 0, 0, 0, 0,
             Prod(v, y[0]), Prod(v, y[1]), Prod(v, y[2]), Prod(v, y[3]), Prod(v, y[4]), Prod(v, y[5]), q,
             a0, a1, a2, a3, a4, a5,
             c0, c1, c2, c3, c4, c5, e0, e1, e2, e3, e4, d0, d1, d2, d3, d4, d5);
  }

  lemma ZeroNumber()
    ensures Number(0, 0, 0, 0, 0, 0) == 0
  {
  }

  lemma ProductBound(v: uint64, y: seq<uint64>)
    requires |y| == 6 && Value(y) < Q
    ensures Prod(v, Value(y)) ==
            Wide(Prod(v, y[0]), Prod(v, y[1]), Prod(v, y[2]), Prod(v, y[3]), Prod(v, y[4]), Prod(v, y[5]))
    ensures Prod(v, Value(y)) <= (B - 1) * Q
  {
    hide Number, Wide;
    TimesNumber(v, y[0], y[1], y[2], y[3], y[4], y[5]);
    MulMonotone(v, B - 1, Value(y));
  }

  // ---------------------------------------------------------------- residues

  lemma SameResidue(a: int, b: int, k: int)
    requires a == b + k * Q
    ensures a % Q == b % Q
  {
    var q := b / Q;
    assert a == b % Q + (q + k) * Q;
    ResidueUnique(a, b % Q, q + k);
  }

  lemma ResidueUnique(a: int, r: int, k: int)
    requires a == r + k * Q && 0 <= r < Q
    ensures a % Q == r
  {
  }

  /** Residues may be taken before a multiplication. */
  lemma ResidueOfProduct(a: int, b: int)
    ensures (a % Q) * b % Q == a * b % Q
  {
    var k := a / Q;
    assert a == a % Q + k * Q;
    assert a * b == (a % Q) * b + (k * b) * Q;
    SameResidue(a * b, (a % Q) * b, k * b);
  }

  /** Multiplication by 2^384 can be undone. */
  lemma RadixInverse()
    ensures R * RINV ==
            1 + 0xceb06106feaafc9468b316fee268cf5819ecca0e8eb2db4c16ef2ef0c8e30b48286adb92d9d113e889f3fffcfffcfffd * Q
  {
  }

  lemma RadixCancels(a: int)
    ensures (a * R) * RINV % Q == a % Q
  {
    RadixInverse();
    var k := 0xceb06106feaafc9468b316fee268cf5819ecca0e8eb2db4c16ef2ef0c8e30b48286adb92d9d113e889f3fffcfffcfffd;
    assert (a * R) * RINV == a + (a * k) * Q;
    SameResidue((a * R) * RINV, a, a * k);
  }

  // ---------------------------------------------------------------- mul

  /** The residue that Montgomery multiplication of x and y yields. */
  function MontProduct(x: nat, y: nat): nat {
    x * y * RINV % Q
  }

  lemma Telescope(y: nat, x: seq<uint64>, m: seq<uint64>, t1: nat, t2: nat, t3: nat, t4: nat, t5: nat, t6: nat)
    requires |x| == 6 && |m| == 6
    requires B * t1 == Prod(x[0], y) + m[0] * Q
    requires B * t2 == t1 + Prod(x[1], y) + m[1] * Q
    requires B * t3 == t2 + Prod(x[2], y) + m[2] * Q
    requires B * t4 == t3 + Prod(x[3], y) + m[3] * Q
    requires B * t5 == t4 + Prod(x[4], y) + m[4] * Q
    requires B * t6 == t5 + Prod(x[5], y) + m[5] * Q
    ensures R * t6 == y * Value(x) + Value(m) * Q
  {
    hide Prod;
    var p0, p1, p2 := Prod(x[0], y), Prod(x[1], y), Prod(x[2], y);
    var p3, p4, p5 := Prod(x[3], y), Prod(x[4], y), Prod(x[5], y);
    assert R * t6 == Wide(p0, p1, p2, p3, p4, p5) + Value(m) * Q;
    TimesNumber(y, x[0], x[1], x[2], x[3], x[4], x[5]);
    forall k | 0 <= k < 6 ensures Prod(x[k], y) == Prod(y, x[k]) {
      ProdCommutes(x[k], y);
    }
  }

  lemma ProdCommutes(a: nat, b: nat)
    ensures Prod(a, b) == Prod(b, a)
  {
  }

  lemma MontResidue(t: nat, x: nat, y: nat, m: nat)
    requires R * t == y * x + m * Q
    ensures t % Q == MontProduct(x, y)
  {
    RadixCancels(t);
    assert (t * R) * RINV == x * y * RINV + (m * RINV) * Q;
    SameResidue((t * R) * RINV, x * y * RINV, m * RINV);
  }

  /** The comparison that decides on the final subtraction. */
  predicate BelowModulus(z0: uint64, z1: uint64, z2: uint64, z3: uint64, z4: uint64, z5: uint64): (r: bool)
    ensures r <==> Number(z0, z1, z2, z3, z4, z5) < Q
  {
    z5 < Q5 || (z5 == Q5 && (z4 < Q4 || (z4 == Q4 && (z3 < Q3 || (z3 == Q3 && (z2 < Q2 || (z2 == Q2 &&
    (z1 < Q1 || (z1 == Q1 && z0 < Q0)))))))))
  }

  /** Subtracts the modulus once if the number is not below it. */
  method Reduce(z: array<uint64>)
    requires IsFe(z) && Value(z[..]) < 2 * Q
    modifies z
    ensures Value(z[..]) == old(Value(z[..])) % Q
  {
    hide Sub64, Number, BelowModulus;
    ghost var n := Value(z[..]);
    if !BelowModulus(z[0], z[1], z[2], z[3], z[4], z[5]) {
      var (z0, b0) := Sub64(z[0], Q0, 0);
      var (z1, b1) := Sub64(z[1], Q1, b0);
      var (z2, b2) := Sub64(z[2], Q2, b1);
      var (z3, b3) := Sub64(z[3], Q3, b2);
      var (z4, b4) := Sub64(z[4], Q4, b3);
      var (z5, b5) := Sub64(z[5], Q5, b4);
      SubtractModulus(z[0], z[1], z[2], z[3], z[4], z[5], z0, z1, z2, z3, z4, z5, b0, b1, b2, b3, b4, b5);
      z[0], z[1], z[2], z[3], z[4], z[5] := z0, z1, z2, z3, z4, z5;
      ResidueUnique(n, n - Q, 1);
    } else {
      ResidueUnique(n, n, 0);
    }
  }

  lemma SubtractModulus(x0: uint64, x1: uint64, x2: uint64, x3: uint64, x4: uint64, x5: uint64,
                        z0: uint64, z1: uint64, z2: uint64, z3: uint64, z4: uint64, z5: uint64,
                        b0: nat, b1: nat, b2: nat, b3: nat, b4: nat, b5: nat)
    requires z0 - B * b0 == x0 - Q0 && z1 - B * b1 == x1 - Q1 - b0 && z2 - B * b2 == x2 - Q2 - b1
    requires z3 - B * b3 == x3 - Q3 - b2 && z4 - B * b4 == x4 - Q4 - b3 && z5 - B * b5 == x5 - Q5 - b4
    requires Number(x0, x1, x2, x3, x4, x5) >= Q
    ensures Number(z0, z1, z2, z3, z4, z5) == Number(x0, x1, x2, x3, x4, x5) - Q
  {
  }

  /**
   z := x*y/2^384 modulo Q, fully reduced, whichever of the three elements coincide.
   */
  method Mul(z: array<uint64>, x: array<uint64>, y: array<uint64>)
    requires IsFe(z) && IsFe(x) && IsFe(y)
    requires Value(x[..]) < Q && Value(y[..]) < Q
    modifies z
    ensures Value(z[..]) == old(MontProduct(Value(x[..]), Value(y[..])))
  {
    hide Number, MontProduct, Prod;
    ghost var xs, yv := x[..], Value(y[..]);
    var t := new uint64[6];
    var m0 := FirstRound(x[0], y, t);
    ghost var t1 := Value(t[..]);
    var m1 := Round(x[1], y, t, t);
    ghost var t2 := Value(t[..]);
    var m2 := Round(x[2], y, t, t);
    ghost var t3 := Value(t[..]);
    var m3 := Round(x[3], y, t, t);
    ghost var t4 := Value(t[..]);
    var m4 := Round(x[4], y, t, t);
    ghost var t5 := Value(t[..]);
    var m5 := Round(x[5], y, t, z);
    ghost var t6 := Value(z[..]);
    ghost var m := [m0, m1, m2, m3, m4, m5];
    Telescope(yv, xs, m, t1, t2, t3, t4, t5, t6);
    MontResidue(t6, Value(xs), yv, Value(m));
    Reduce(z);
  }

  // ---------------------------------------------------------------- add, double, sub, neg

  lemma AddLimbs(x: seq<uint64>, y: seq<uint64>, z: seq<uint64>, c0: nat, c1: nat, c2: nat, c3: nat, c4: nat, c5: nat)
    requires |x| == 6 && |y| == 6 && |z| == 6
    requires z[0] + B * c0 == (x[0] as int) + y[0] && z[1] + B * c1 == x[1] + y[1] + c0
             && z[2] + B * c2 == x[2] + y[2] + c1
    requires z[3] + B * c3 == x[3] + y[3] + c2 && z[4] + B * c4 == x[4] + y[4] + c3 && z[5] + B * c5 == x[5] + y[5] + c4
    ensures Value(z) == Value(x) + Value(y) - R * c5 && Value(z) == (Value(x) + Value(y)) % R
  {
    DivModUnique(Value(x) + Value(y), R, c5, Value(z));
  }

  lemma SubLimbs(x: seq<uint64>, y: seq<uint64>, z: seq<uint64>, b0: nat, b1: nat, b2: nat, b3: nat, b4: nat, b5: nat)
    requires |x| == 6 && |y| == 6 && |z| == 6 && b5 <= 1
    requires z[0] - B * b0 == (x[0] as int) - y[0] && z[1] - B * b1 == x[1] - y[1] - b0
             && z[2] - B * b2 == x[2] - y[2] - b1
    requires z[3] - B * b3 == x[3] - y[3] - b2 && z[4] - B * b4 == x[4] - y[4] - b3 && z[5] - B * b5 == x[5] - y[5] - b4
    ensures Value(z) == Value(x) - Value(y) + R * b5
    ensures b5 == 0 <==> Value(x) >= Value(y)
  {
  }

  /** The carry chain of add, before the reduction (ladd); the last carry is dropped. */
  method LAdd(z: array<uint64>, x: array<uint64>, y: array<uint64>)
    requires IsFe(z) && IsFe(x) && IsFe(y)
    modifies z
    ensures Value(z[..]) == (old(Value(x[..])) + old(Value(y[..]))) % R
  {
    hide Add64, Value;
    ghost var xs, ys := x[..], y[..];
    var (z0, c0) := Add64(x[0], y[0], 0);
    z[0] := z0;
    var (z1, c1) := Add64(x[1], y[1], c0);
    z[1] := z1;
    var (z2, c2) := Add64(x[2], y[2], c1);
    z[2] := z2;
    var (z3, c3) := Add64(x[3], y[3], c2);
    z[3] := z3;
    var (z4, c4) := Add64(x[4], y[4], c3);
    z[4] := z4;
    var (z5, c5) := Add64(x[5], y[5], c4);
    z[5] := z5;
    assert z[..] == [z0, z1, z2, z3, z4, z5];
    AddLimbs(xs, ys, [z0, z1, z2, z3, z4, z5], c0, c1, c2, c3, c4, c5);
  }

  method Add(z: array<uint64>, x: array<uint64>, y: array<uint64>)
    requires IsFe(z) && IsFe(x) && IsFe(y) && Value(x[..]) < Q && Value(y[..]) < Q
    modifies z
    ensures Value(z[..]) == (old(Value(x[..])) + old(Value(y[..]))) % Q
  {
    hide Value;
    LAdd(z, x, y);
    Reduce(z);
  }

  method Double(z: array<uint64>, x: array<uint64>)
    requires IsFe(z) && IsFe(x) && Value(x[..]) < Q
    modifies z
    ensures Value(z[..]) == 2 * old(Value(x[..])) % Q
  {
    hide Value;
    LAdd(z, x, x);
    Reduce(z);
  }

  /** The borrow chain of sub and neg. */
  method LSub(z: array<uint64>, x: array<uint64>, y: array<uint64>) returns (b: nat)
    requires IsFe(z) && IsFe(x) && IsFe(y)
    modifies z
    ensures b <= 1 && Value(z[..]) == old(Value(x[..])) - old(Value(y[..])) + R * b
    ensures b == 0 <==> old(Value(x[..])) >= old(Value(y[..]))
  {
    hide Sub64, Value;
    ghost var xs, ys := x[..], y[..];
    var (z0, b0) := Sub64(x[0], y[0], 0);
    z[0] := z0;
    var (z1, b1) := Sub64(x[1], y[1], b0);
    z[1] := z1;
    var (z2, b2) := Sub64(x[2], y[2], b1);
    z[2] := z2;
    var (z3, b3) := Sub64(x[3], y[3], b2);
    z[3] := z3;
    var (z4, b4) := Sub64(x[4], y[4], b3);
    z[4] := z4;
    var (z5, b5) := Sub64(x[5], y[5], b4);
    z[5], b := z5, b5;
    assert z[..] == [z0, z1, z2, z3, z4, z5];
    SubLimbs(xs, ys, [z0, z1, z2, z3, z4, z5], b0, b1, b2, b3, b4, b5);
  }

  /** Adds the modulus back after a borrow; the carry out of the top limb is dropped. */
  method AddModulus(z: array<uint64>)
    requires IsFe(z) && R - Q < Value(z[..]) < R
    modifies z
    ensures Value(z[..]) == old(Value(z[..])) + Q - R
  {
    hide Add64, Value;
    var (z0, c0) := Add64(z[0], Q0, 0);
    var (z1, c1) := Add64(z[1], Q1, c0);
    var (z2, c2) := Add64(z[2], Q2, c1);
    var (z3, c3) := Add64(z[3], Q3, c2);
    var (z4, c4) := Add64(z[4], Q4, c3);
    var (z5, c5) := Add64(z[5], Q5, c4);
    AddBack(z[..], [z0, z1, z2, z3, z4, z5], c0, c1, c2, c3, c4, c5);
    z[0], z[1], z[2], z[3], z[4], z[5] := z0, z1, z2, z3, z4, z5;
    assert z[..] == [z0, z1, z2, z3, z4, z5];
  }

  method Sub(z: array<uint64>, x: array<uint64>, y: array<uint64>)
    requires IsFe(z) && IsFe(x) && IsFe(y) && Value(x[..]) < Q && Value(y[..]) < Q
    modifies z
    ensures Value(z[..]) == (old(Value(x[..])) - old(Value(y[..]))) % Q
  {
    hide Value;
    ghost var d := Value(x[..]) - Value(y[..]);
    var b := LSub(z, x, y);
    if b != 0 {
      AddModulus(z);
      ResidueUnique(d, d + Q, -1);
    } else {
      ResidueUnique(d, d, 0);
    }
  }

  lemma AddBack(x: seq<uint64>, z: seq<uint64>, c0: nat, c1: nat, c2: nat, c3: nat, c4: nat, c5: nat)
    requires |x| == 6 && |z| == 6 && R - Q < Value(x) < R && c5 <= 1
    requires z[0] + B * c0 == x[0] + Q0 && z[1] + B * c1 == x[1] + Q1 + c0 && z[2] + B * c2 == x[2] + Q2 + c1
    requires z[3] + B * c3 == x[3] + Q3 + c2 && z[4] + B * c4 == x[4] + Q4 + c3 && z[5] + B * c5 == x[5] + Q5 + c4
    ensures Value(z) == Value(x) + Q - R
  {
    assert Value(z) + R * c5 == Value(x) + Q;
  }

  method Neg(z: array<uint64>, x: array<uint64>)
    requires IsFe(z) && IsFe(x) && Value(x[..]) < Q
    modifies z
    ensures Value(z[..]) == (Q - old(Value(x[..]))) % Q
  {
    hide Number;
    ghost var n := Value(x[..]);
    ZeroLimbs(x[0], x[1], x[2], x[3], x[4], x[5]);
    if x[0] == 0 && x[1] == 0 && x[2] == 0 && x[3] == 0 && x[4] == 0 && x[5] == 0 {
      z[0], z[1], z[2], z[3], z[4], z[5] := 0, 0, 0, 0, 0, 0;
      ResidueUnique(Q - n, 0, 1);
    } else {
      var q := new uint64[6] [Q0, Q1, Q2, Q3, Q4, Q5];
      ModulusLimbs();
      var b := LSub(z, q, x);
      ResidueUnique(Q - n, Q - n, 0);
    }
  }

  lemma ZeroLimbs(a0: uint64, a1: uint64, a2: uint64, a3: uint64, a4: uint64, a5: uint64)
    ensures Number(a0, a1, a2, a3, a4, a5) == 0 <==>
            a0 == 0 && a1 == 0 && a2 == 0 && a3 == 0 && a4 == 0 && a5 == 0
  {
  }

  // ---------------------------------------------------------------- Montgomery form

  /** The Montgomery form of a, and the residue a Montgomery form stands for. */
  function MontForm(a: nat): nat {
    a * R % Q
  }

  function Plain(z: nat): nat {
    z * RINV % Q
  }

  lemma PlainInvertsMontForm(a: nat)
    ensures Plain(MontForm(a)) == a % Q
  {
    ResidueOfProduct(a * R, RINV);
    RadixCancels(a);
  }

  lemma MontFormInvertsPlain(z: nat)
    ensures MontForm(Plain(z)) == z % Q
  {
    ResidueOfProduct(z * RINV, R);
    RadixCancels(z);
    assert (z * RINV) * R == (z * R) * RINV;
  }

  /** Montgomery multiplication of Montgomery forms is the Montgomery form of the product. */
  lemma MontProductIsHomomorphic(a: nat, b: nat)
    ensures MontProduct(MontForm(a), MontForm(b)) == MontForm(a * b)
  {
    var x, y := a * R, b * R;
    calc {
      MontProduct(x % Q, y % Q);
      { Regroup(x % Q, y % Q, RINV); }
      (x % Q) * ((y % Q) * RINV) % Q;
      { ResidueOfProduct(x, (y % Q) * RINV); }
      x * ((y % Q) * RINV) % Q;
      { Regroup2(x, y % Q, RINV); }
      (y % Q) * (x * RINV) % Q;
      { ResidueOfProduct(y, x * RINV); }
      y * (x * RINV) % Q;
      { Regroup3(a, b); }
      ((a * b) * R) * R * RINV % Q;
      { RadixCancels(a * b * R); }
      MontForm(a * b);
    }
  }

  lemma Regroup(x: int, y: int, r: int)
    ensures x * y * r == x * (y * r)
  {
  }

  lemma Regroup2(x: int, y: int, r: int)
    ensures x * (y * r) == y * (x * r)
  {
  }

  lemma Regroup3(a: int, b: int)
    ensures (b * R) * ((a * R) * RINV) == ((a * b) * R) * R * RINV
  {
    assert (b * R) * ((a * R) * RINV) == (b * (a * R)) * (R * RINV);
    assert b * (a * R) == (a * b) * R;
  }

  /** toMont: multiplication by 2^768 modulo Q. */
  method ToMont(c: array<uint64>, a: array<uint64>)
    requires IsFe(c) && IsFe(a) && Value(a[..]) < Q
    modifies c
    ensures Value(c[..]) == MontForm(old(Value(a[..])))
  {
    hide Number, MontProduct, MontForm;
    ghost var v := Value(a[..]);
    var r2 := new uint64[6] [0xf4df1f341c341746, 0x0a76e6a609d104f1, 0x8de5476c4c95b6d5, 0x67eb88a9939d83c0,
                             0x9a793e85b519952d, 0x11988fe592cae3aa];
    SquaredRadix(v);
    Mul(c, a, r2);
  }

  const R2: nat := 0x11988fe592cae3aa9a793e85b519952d67eb88a9939d83c08de5476c4c95b6d50a76e6a609d104f1f4df1f341c341746

  lemma SquaredRadix(v: nat)
    ensures Number(0xf4df1f341c341746, 0x0a76e6a609d104f1, 0x8de5476c4c95b6d5, 0x67eb88a9939d83c0,
                   0x9a793e85b519952d, 0x11988fe592cae3aa) == R2 < Q
    ensures MontProduct(v, R2) == MontForm(v)
  {
    var k := 0x9d835d2f3cc9e45ce28101b0cc7a6ba291b82741ff6a0a94bdf4771e0286779d3997167a058f1c07b13e207f56591ba2e;
    assert R * R == R2 + k * Q;
    assert v * R2 * RINV == (v * R) * R * RINV - (v * k * RINV) * Q by {
      Regroup4(v, k);
    }
    SameResidue((v * R) * R * RINV, v * R2 * RINV, v * k * RINV);
    RadixCancels(v * R);
  }

  lemma Regroup4(v: int, k: int)
    requires R * R == R2 + k * Q
    ensures v * R2 * RINV == (v * R) * R * RINV - (v * k * RINV) * Q
  {
    assert v * R2 == (v * R) * R - (v * k) * Q;
    assert v * R2 * RINV == ((v * R) * R) * RINV - ((v * k) * Q) * RINV;
  }

  /** fromMont: multiplication by one. */
  method FromMont(c: array<uint64>, a: array<uint64>)
    requires IsFe(c) && IsFe(a) && Value(a[..]) < Q
    modifies c
    ensures Value(c[..]) == Plain(old(Value(a[..])))
  {
    var one := new uint64[6] [1, 0, 0, 0, 0, 0];
    assert one[..] == [1, 0, 0, 0, 0, 0];
    Mul(c, a, one);
  }

  // ---------------------------------------------------------------- exp

  function Pow(a: nat, e: nat): nat {
    if e == 0 then 1 else a * Pow(a, e - 1)
  }

  function Pow2(i: nat): (p: nat)
    ensures p >= 1
  {
    if i == 0 then 1 else 2 * Pow2(i - 1)
  }

  /** Number of bits of e. */
  function BitLen(e: nat): (n: nat)
    ensures e < Pow2(n)
  {
    if e == 0 then 0 else
      var n := BitLen(e / 2);
      assert e < 2 * Pow2(n);
      n + 1
  }

  function Bit(e: nat, i: nat): nat {
    e / Pow2(i) % 2
  }

  lemma NextBit(e: nat, i: nat)
    ensures e / Pow2(i) == 2 * (e / Pow2(i + 1)) + Bit(e, i)
    ensures Bit(e, i) == 0 || Bit(e, i) == 1
  {
    HalfDiv(e, Pow2(i));
  }

  lemma HalfDiv(e: nat, p: nat)
    requires p >= 1
    ensures e / (2 * p) == e / p / 2
  {
    var a := e / p;
    var r := e % p;
    assert e == p * a + r;
    var h, l := a / 2, a % 2;
    assert e == (2 * p) * h + (p * l + r) by {
      assert p * a == p * (2 * h + l) == p * (2 * h) + p * l;
      assert p * (2 * h) == (2 * p) * h;
    }
    assert 0 <= p * l + r < 2 * p by {
      assert l == 0 || l == 1;
    }
    DivModUnique(e, 2 * p, h, p * l + r);
  }

  lemma {:induction false} PowDouble(a: nat, e: nat)
    ensures Pow(a, 2 * e) == Pow(a, e) * Pow(a, e)
  {
    if e > 0 {
      PowDouble(a, e - 1);
      var p := Pow(a, e - 1);
      assert Pow(a, 2 * e) == a * (a * Pow(a, 2 * (e - 1)));
      assert a * (a * (p * p)) == (a * p) * (a * p);
    }
  }

  /** Square and multiply on Montgomery forms raises the plain residue to the power e. */
  method Exp(c: array<uint64>, a: array<uint64>, e: nat)
    requires IsFe(c) && IsFe(a) && Value(a[..]) < Q
    modifies c
    ensures Value(c[..]) == MontForm(Pow(old(Plain(Value(a[..]))), e))
  {
    hide Number, MontProduct, MontForm, Plain, Pow, Pow2, Bit, BitLen;
    ghost var v := Plain(Value(a[..]));
    PlainOf(Value(a[..]));
    var z := new uint64[6] [0x760900000002fffd, 0xebf4000bc40c0002, 0x5f48985753c758ba, 0x77ce585370525745,
                            0x5c071a97a256ec6d, 0x15f65ec3fa80e493];
    MontOne(v);
    ghost var k := 0;
    var i: int := BitLen(e);
    TopBit(e, i);
    while i >= 0
      invariant -1 <= i && k == e / Pow2(i + 1)
      invariant Value(z[..]) == MontForm(Pow(v, k))
      invariant Value(a[..]) == MontForm(v)
    {
      NextBit(e, i);
      ExpStep(z, a, Bit(e, i) == 1, v, k);
      k := 2 * k + Bit(e, i);
      i := i - 1;
    }
    c[0], c[1], c[2], c[3], c[4], c[5] := z[0], z[1], z[2], z[3], z[4], z[5];
    WholeExponent(e);
  }

  method ExpStep(z: array<uint64>, a: array<uint64>, multiply: bool, ghost v: nat, ghost k: nat)
    requires IsFe(z) && IsFe(a) && z != a
    requires Value(z[..]) == MontForm(Pow(v, k)) && Value(a[..]) == MontForm(v)
    modifies z
    ensures Value(z[..]) == MontForm(Pow(v, if multiply then 2 * k + 1 else 2 * k))
  {
    hide Value, MontProduct, MontForm, Pow;
    MontBound(Pow(v, k));
    MontBound(Pow(v, 2 * k));
    MontBound(v);
    MontSquare(v, k);
    MontStep(v, 2 * k);
    Mul(z, z, z);
    if multiply {
      Mul(z, z, a);
    }
  }

  lemma PlainOf(z: nat)
    requires z < Q
    ensures MontForm(Plain(z)) == z
  {
    MontFormInvertsPlain(z);
    ResidueUnique(z, z, 0);
  }

  lemma WholeExponent(e: nat)
    ensures e / Pow2(0) == e
  {
  }

  lemma MontOne(v: nat)
    ensures Number(0x760900000002fffd, 0xebf4000bc40c0002, 0x5f48985753c758ba, 0x77ce585370525745,
                   0x5c071a97a256ec6d, 0x15f65ec3fa80e493) == MontForm(Pow(v, 0))
  {
  }

  lemma MontBound(a: nat)
    ensures MontForm(a) < Q
  {
  }

  lemma MontSquare(v: nat, k: nat)
    ensures MontProduct(MontForm(Pow(v, k)), MontForm(Pow(v, k))) == MontForm(Pow(v, 2 * k))
  {
    hide MontForm, MontProduct;
    MontProductIsHomomorphic(Pow(v, k), Pow(v, k));
    PowDouble(v, k);
  }

  lemma MontStep(v: nat, k: nat)
    ensures MontProduct(MontForm(Pow(v, k)), MontForm(v)) == MontForm(Pow(v, k + 1))
  {
    hide MontForm, MontProduct;
    MontProductIsHomomorphic(Pow(v, k), v);
    assert Pow(v, k) * v == v * Pow(v, k);
  }

  lemma TopBit(e: nat, i: nat)
    requires i == BitLen(e)
    ensures e / Pow2(i + 1) == 0
  {
    DivModUnique(e, Pow2(i + 1), 0, e);
  }
}
