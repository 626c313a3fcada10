/** __multf3 (lib/lib-arm64.c): the product is correctly rounded. */
module MulTf3 {
  import opened Words
  import opened IeeeFormat
  import opened Sticky
  import opened Quad

  /** r = a * b in the sense of section 5.4.1 of IEEE 754-2019 under the default rounding. */
  ghost predicate IsProduct(a: U128, b: U128, r: U128)
  {
    if IsNaN(a) || IsNaN(b) then Quiets(Propagated(a, b), r)
    else if (IsInf(a) && Mag(b) == 0) || (IsInf(b) && Mag(a) == 0) then r == DefaultNaN
    else if IsInf(a) || IsInf(b) then IsInf(r) && (Sign(r) == 1 <==> Sign(a) != Sign(b))
    else (Sign(r) == 1 <==> Sign(a) != Sign(b)) && RoundedProduct(Mag(a), Mag(b), Mag(r))
  }

  /** r is nearest to the real product of the finite magnitudes a and b. */
  ghost predicate RoundedProduct(a: nat, b: nat, r: nat)
  {
    MulNat(Units(112, a), Units(112, b));
    NearestEven(Binary128, Units(112, a) * Units(112, b), Pow2(UnitExp()), r)
  }

  // Base 2^30.

  const B30: nat := 0x4000_0000
  const B60: nat := 0x1000_0000_0000_0000
  const B90: nat := 0x400_0000_0000_0000_0000_0000

  /** Four digits: 30 bits each, 32 bits in the top one. */
  datatype Limbs = Limbs(a0: u64, a1: u64, a2: u64, a3: u64)

  predicate Proper4(l: Limbs) { l.a0 < B30 && l.a1 < B30 && l.a2 < B30 && l.a3 < 0x1_0000_0000 }

  function Value4(l: Limbs): nat { l.a3 * B90 + l.a2 * B60 + l.a1 * B30 + l.a0 }

  /** The conversion to base 2^30; the bottom six bits must be zero. */
  method Split(a: U128, ghost h: nat) returns (l: Limbs)
    requires Nat128(a) == 64 * h
    ensures Proper4(l) && Value4(l) == h
  {
    var a0, m, low6 := LowLimb(a.x0);
    var a1, q := MiddleLimb(a.x1, m);
    var a2, a3 := HighLimbs(a.x1, q);
    l := Limbs(a0, a1, a2, a3);
    SplitSum(a, h, a0, m, low6, a1, q, a2, a3);
  }

  lemma SplitSum(a: U128, h: nat, a0: nat, m: nat, low6: nat, a1: nat, q: nat, a2: nat, a3: nat)
    requires Nat128(a) == 64 * h && low6 < 64
    requires a.x0 == m * 0x10_0000_0000 + a0 * 64 + low6
    requires a1 == m + q * 0x1000_0000 && a.x1 == a3 * 0x1_0000_0000 + a2 * 4 + q
    ensures a3 * B90 + a2 * B60 + a1 * B30 + a0 == h
  {}

  /** a.x0 << 28 >> 34 and a.x0 >> 36 */
  method LowLimb(x0: u64) returns (a0: u64, m: u64, ghost low6: nat)
    ensures x0 == m * 0x10_0000_0000 + a0 * 64 + low6
    ensures a0 < B30 && low6 < 64 && m < 0x1000_0000
  {
    assert Pow2(28) == 0x1000_0000 && Pow2(34) == 0x4_0000_0000 && Pow2(36) == 0x10_0000_0000 by { Pow2Middle(); }
    hide Pow2;
    var t, hi, lo := Left64(x0, 28, 0x10_0000_0000, 0x1000_0000);
    ghost var r34, r36;
    a0, r34 := Right64(t, 34, 0x4_0000_0000);
    m, r36 := Right64(x0, 36, 0x10_0000_0000);
    Euclid(0x10_0000_0000, hi, lo, m, r36);
    low6 := lo - a0 * 64;
  }

  /** x0 >> 36 | x1 << 62 >> 34 */
  method MiddleLimb(x1: u64, m: u64) returns (a1: u64, ghost q: nat)
    requires m < 0x1000_0000
    ensures a1 == m + q * 0x1000_0000 && q < 4 && exists h: nat :: x1 == h * 4 + q
  {
    assert Pow2(2) == 4;
    assert Pow2(62) == 0x4000_0000_0000_0000 && Pow2(34) == 0x4_0000_0000 && Pow2(28) == 0x1000_0000 by { Pow2Middle(); }
    hide Pow2;
    var t, hi, lo := Left64(x1, 62, 4, 0x4000_0000_0000_0000);
    var u, rem := Right64(t, 34, 0x4_0000_0000);
    q := lo;
    a1 := Join64(u, m, 28, 0x1000_0000, q);
    assert x1 == hi * 4 + q;
  }

  /** x1 << 32 >> 34 and x1 >> 32 */
  method HighLimbs(x1: u64, ghost q: nat) returns (a2: u64, a3: u64)
    requires q < 4 && exists h: nat :: x1 == h * 4 + q
    ensures x1 == a3 * 0x1_0000_0000 + a2 * 4 + q && a2 < B30 && a3 < 0x1_0000_0000
  {
    assert Pow2(32) == 0x1_0000_0000 && Pow2(34) == 0x4_0000_0000 by { Pow2Values(); Pow2Middle(); }
    hide Pow2;
    var t, hi, lo := Left64(x1, 32, 0x1_0000_0000, 0x1_0000_0000);
    ghost var rem, r32;
    a2, rem := Right64(t, 34, 0x4_0000_0000);
    a3, r32 := Right64(x1, 32, 0x1_0000_0000);
    Euclid(0x1_0000_0000, hi, lo, a3, r32);
    ghost var h: nat :| x1 == h * 4 + q;
    Euclid(4, h, q, hi * 0x4000_0000 + a2, lo - a2 * 4);
  }

  // The schoolbook product.

  const B120: nat := B60 * B60
  const B150: nat := B90 * B60
  const B180: nat := B90 * B90

  /** Column sums with carries: column i splits as carry[i] * 2^30 + digit[i]. */
  ghost predicate Carried(a: Limbs, b: Limbs, h: seq<nat>, l: seq<nat>, top: nat)
  {
    && |h| == 6 && |l| == 6
    && (forall i | 0 <= i < 6 :: l[i] < B30)
    && a.a0 * b.a0 == h[0] * B30 + l[0]
    && h[0] + a.a0 * b.a1 + a.a1 * b.a0 == h[1] * B30 + l[1]
    && h[1] + a.a0 * b.a2 + a.a1 * b.a1 + a.a2 * b.a0 == h[2] * B30 + l[2]
    && h[2] + a.a0 * b.a3 + a.a1 * b.a2 + a.a2 * b.a1 + a.a3 * b.a0 == h[3] * B30 + l[3]
    && h[3] + a.a1 * b.a3 + a.a2 * b.a2 + a.a3 * b.a1 == h[4] * B30 + l[4]
    && h[4] + a.a2 * b.a3 + a.a3 * b.a2 == h[5] * B30 + l[5]
    && h[5] + a.a3 * b.a3 == top
  }

  ghost function Digits(l: seq<nat>, top: nat): nat
    requires |l| == 6
  {
    top * B180 + l[5] * B150 + l[4] * B120 + l[3] * B90 + l[2] * B60 + l[1] * B30 + l[0]
  }

  /** One row of the product. */
  lemma Row(a: Limbs, y: nat)
    ensures Value4(a) * y == (a.a3 * y) * B90 + (a.a2 * y) * B60 + (a.a1 * y) * B30 + a.a0 * y
  {
    Distrib(a.a3 * B90 + a.a2 * B60 + a.a1 * B30, a.a0, y);
    Distrib(a.a3 * B90 + a.a2 * B60, a.a1 * B30, y);
    Distrib(a.a3 * B90, a.a2 * B60, y);
    MulCommute(a.a3, B90, y);
    MulCommute(a.a2, B60, y);
    MulCommute(a.a1, B30, y);
  }

  lemma Rows(a: Limbs, b: Limbs)
    ensures var v := Value4(a);
      v * Value4(b) == (v * b.a3) * B90 + (v * b.a2) * B60 + (v * b.a1) * B30 + v * b.a0
  {
    Row(b, Value4(a));
  }

  /** The carried columns are the digits of the exact product. */
  lemma ProductDigits(a: Limbs, b: Limbs, h: seq<nat>, l: seq<nat>, top: nat)
    requires Carried(a, b, h, l, top)
    ensures Value4(a) * Value4(b) == Digits(l, top)
  {
    Rows(a, b);
    Row(a, b.a0);
    Row(a, b.a1);
    Row(a, b.a2);
    Row(a, b.a3);
  }

  lemma ProductBound(x: nat, y: nat, m: nat, n: nat)
    requires x <= m && y <= n
    ensures 0 <= x * y <= m * n
  {
    MulNat(x, y);
    MulMono(x, m, y);
    MulMono(y, n, m);
  }

  /** No single product leaves the range that keeps every column below 2^64. */
  lemma LimbProducts(a: Limbs, b: Limbs)
    requires Proper4(a) && Proper4(b)
    ensures 0 <= a.a0 * b.a0 < B60 && 0 <= a.a0 * b.a1 < B60 && 0 <= a.a0 * b.a2 < B60 && 0 <= a.a0 * b.a3 < 4 * B60
    ensures 0 <= a.a1 * b.a0 < B60 && 0 <= a.a1 * b.a1 < B60 && 0 <= a.a1 * b.a2 < B60 && 0 <= a.a1 * b.a3 < 4 * B60
    ensures 0 <= a.a2 * b.a0 < B60 && 0 <= a.a2 * b.a1 < B60 && 0 <= a.a2 * b.a2 < B60 && 0 <= a.a2 * b.a3 < 4 * B60
    ensures 0 <= a.a3 * b.a0 < 4 * B60 && 0 <= a.a3 * b.a1 < 4 * B60 && 0 <= a.a3 * b.a2 < 4 * B60 && 0 <= a.a3 * b.a3
  {
    LimbRow(a.a0, b, B30 - 1, B60);
    LimbRow(a.a1, b, B30 - 1, B60);
    LimbRow(a.a2, b, B30 - 1, B60);
    LimbRow(a.a3, b, 0xffff_ffff, 4 * B60);
  }

  lemma LimbRow(x: nat, b: Limbs, m: nat, bound: nat)
    requires x <= m && Proper4(b) && m * (B30 - 1) < bound
    ensures 0 <= x * b.a0 < bound && 0 <= x * b.a1 < bound && 0 <= x * b.a2 < bound
    ensures 0 <= x * b.a3 <= m * 0xffff_ffff
  {
    ProductBound(x, b.a0, m, B30 - 1);
    ProductBound(x, b.a1, m, B30 - 1);
    ProductBound(x, b.a2, m, B30 - 1);
    ProductBound(x, b.a3, m, 0xffff_ffff);
  }

  /** The top column fits: the whole product is below 2^244. */
  lemma TopColumn(a: Limbs, b: Limbs, h: seq<nat>, l: seq<nat>, top: nat)
    requires Proper4(a) && Proper4(b) && Carried(a, b, h, l, top)
    ensures top < 0x1_0000_0000_0000_0000
  {
    ProductDigits(a, b, h, l, top);
    ProductBound(Value4(a), Value4(b), B60 * B60 * 4 - 1, B60 * B60 * 4 - 1);
  }

  /** x >> 30 */
  method Carry(x: u64) returns (h: u64, ghost l: nat)
    ensures x == h * B30 + l && l < B30
  {
    assert Pow2(30) == B30 by { Pow2Values(); }
    h, l := Right64(x, 30, B30);
  }

  /** x0 .. x6: sixteen multiplications, none of whose sums leaves 64 bits. */
  method Columns(a: Limbs, b: Limbs)
    returns (x0: u64, x1: u64, x2: u64, x3: u64, x4: u64, x5: u64, x6: u64, ghost h: seq<nat>, ghost l: seq<nat>)
    requires Proper4(a) && Proper4(b)
    ensures Carried(a, b, h, l, x6)
    ensures x0 == h[0] * B30 + l[0] && x1 == h[1] * B30 + l[1] && x2 == h[2] * B30 + l[2]
    ensures x3 == h[3] * B30 + l[3] && x4 == h[4] * B30 + l[4] && x5 == h[5] * B30 + l[5]
  {
    LimbProducts(a, b);
    ghost var l0, l1, l2, l3, l4, l5;
    x0 := a.a0 * b.a0;
    var c0, c1, c2, c3, c4, c5;
    c0, l0 := Carry(x0);
    x1 := c0 + a.a0 * b.a1 + a.a1 * b.a0;
    c1, l1 := Carry(x1);
    x2 := c1 + a.a0 * b.a2 + a.a1 * b.a1 + a.a2 * b.a0;
    c2, l2 := Carry(x2);
    x3 := c2 + a.a0 * b.a3 + a.a1 * b.a2 + a.a2 * b.a1 + a.a3 * b.a0;
    c3, l3 := Carry(x3);
    x4 := c3 + a.a1 * b.a3 + a.a2 * b.a2 + a.a3 * b.a1;
    c4, l4 := Carry(x4);
    x5 := c4 + a.a2 * b.a3 + a.a3 * b.a2;
    c5, l5 := Carry(x5);
    h, l := [c0, c1, c2, c3, c4, c5], [l0, l1, l2, l3, l4, l5];
    assert Carried(a, b, h, l, c5 + a.a3 * b.a3);
    TopColumn(a, b, h, l, c5 + a.a3 * b.a3);
    x6 := c5 + a.a3 * b.a3;
  }

  // The top 128 bits with a sticky low bit.

  /** x << 34: the low 30 bits of a column moved to the top. */
  method LowDigit(x: u64, ghost h: nat, ghost l: nat) returns (r: u64)
    requires x == h * B30 + l && l < B30
    ensures r == l * 0x4_0000_0000
  {
    assert Pow2(30) == B30 && Pow2(34) == 0x4_0000_0000 by { Pow2Values(); Pow2Middle(); }
    ghost var hi, lo;
    r, hi, lo := Left64(x, 34, B30, 0x4_0000_0000);
    Euclid(B30, hi, lo, h, l);
  }

  /** x3 << 34 >> 60 and x3 << 38: the top 4 and the low 26 of the low 30 bits. */
  method SplitDigit(x: u64, ghost h: nat, ghost l: nat) returns (t: u64, low: u64, ghost u: nat)
    requires x == h * B30 + l && l < B30
    ensures l == t * 0x400_0000 + u && u < 0x400_0000 && t < 16 && low == u * 0x40_0000_0000
  {
    assert Pow2(60) == B60 && Pow2(26) == 0x400_0000 && Pow2(38) == 0x40_0000_0000 by { Pow2Middle(); }
    hide Pow2;
    var y := LowDigit(x, h, l);
    ghost var rem, hi, lo;
    t, rem := Right64(y, 60, B60);
    low, hi, lo := Left64(x, 38, 0x400_0000, 0x40_0000_0000);
    u := l - t * 0x400_0000;
    Euclid(0x400_0000, hi, lo, h * 16 + t, u);
  }

  /** (x2 | x1 | x0) << 34 is zero exactly when the three low digits are. */
  method LowDigits(x2: u64, x1: u64, x0: u64, ghost h: seq<nat>, ghost l: seq<nat>) returns (r: u64)
    requires |h| >= 3 && |l| >= 3 && l[0] < B30 && l[1] < B30 && l[2] < B30
    requires x0 == h[0] * B30 + l[0] && x1 == h[1] * B30 + l[1] && x2 == h[2] * B30 + l[2]
    ensures r == 0 <==> l[2] == 0 && l[1] == 0 && l[0] == 0
  {
    assert Pow2(30) == B30 by { Pow2Values(); }
    hide Pow2, Or;
    OrSplit(x2, h[2], l[2], x1, h[1], l[1], 30);
    OrBound(l[2], l[1], 30);
    OrSplit(Or(x2, x1), Or(h[2], h[1]), Or(l[2], l[1]), x0, h[0], l[0], 30);
    OrBound(Or(l[2], l[1]), l[0], 30);
    OrIsZero(l[2], l[1]);
    OrIsZero(Or(l[2], l[1]), l[0]);
    r := LowDigit(Or64(Or64(x2, x1), x0), Or(Or(h[2], h[1]), h[0]), Or(Or(l[2], l[1]), l[0]));
  }

  method LowWord(x0: u64, x1: u64, x2: u64, x3: u64, x4: u64, x5: u64, ghost h: seq<nat>, ghost l: seq<nat>)
    returns (y0: u64, ghost q: nat, ghost r: nat)
    requires |h| == 6 && |l| == 6 && (forall i | 0 <= i < 6 :: l[i] < B30)
    requires x0 == h[0] * B30 + l[0] && x1 == h[1] * B30 + l[1] && x2 == h[2] * B30 + l[2]
    requires x3 == h[3] * B30 + l[3] && x4 == h[4] * B30 + l[4] && x5 == h[5] * B30 + l[5]
    ensures q < 0x1_0000_0000_0000_0000 && r < 0x10_0000_0000_0000_0000_0000_0000_0000 && y0 == Jamming(q, r)
    ensures l[5] * B150 + l[4] * B120 + l[3] * B90 + l[2] * B60 + l[1] * B30 + l[0]
         == q * 0x10_0000_0000_0000_0000_0000_0000_0000 + r
  {
    assert Pow2(34) == 0x4_0000_0000 && Pow2(4) == 16 by { Pow2Middle(); }
    assert B30 == 0x4000_0000;
    hide *;
    var d5 := LowDigit(x5, h[5], l[5]);
    var e4 := MidDigit(x4, h[4], l[4]);
    var t, low, u := SplitDigit(x3, h[3], l[3]);
    var rest := LowDigits(x2, x1, x0, h, l);
    y0 := Join64(d5, e4, 34, 0x4_0000_0000, l[5]);
    y0 := Join64(y0, t, 4, 16, l[5] * 0x4000_0000 + l[4]);
    q := y0;
    var z := BothZero(low, rest);
    y0 := SetLow64(y0, !z);
    r := LowWordIs(l, t, u, q, y0, z);
  }

  lemma LowWordIs(l: seq<nat>, t: nat, u: nat, q: nat, y0: nat, z: bool) returns (r: nat)
    requires |l| == 6 && (forall i | 0 <= i < 6 :: l[i] < B30)
    requires l[3] == t * 0x400_0000 + u && u < 0x400_0000
    requires q == l[5] * 0x4_0000_0000 + l[4] * 16 + t
    requires z <==> u == 0 && l[2] == 0 && l[1] == 0 && l[0] == 0
    requires y0 == if z then q else q - q % 2 + 1
    ensures r < 0x10_0000_0000_0000_0000_0000_0000_0000 && y0 == Jamming(q, r)
    ensures l[5] * B150 + l[4] * B120 + l[3] * B90 + l[2] * B60 + l[1] * B30 + l[0]
         == q * 0x10_0000_0000_0000_0000_0000_0000_0000 + r
  {
    r := u * B90 + l[2] * B60 + l[1] * B30 + l[0];
  }

  /** x << 34 >> 30: the low 30 bits of a column, four places up. */
  method MidDigit(x: u64, ghost h: nat, ghost l: nat) returns (r: u64)
    requires x == h * B30 + l && l < B30
    ensures r == l * 16
  {
    assert Pow2(30) == B30 by { Pow2Values(); }
    var d := LowDigit(x, h, l);
    ghost var rem;
    r, rem := Right64(d, 30, B30);
    Euclid(B30, r, rem, l * 16, 0);
  }

  /** y1:y0, the top 128 of the 244 bits of the product. */
  method MulTop(a: Limbs, b: Limbs) returns (y: U128)
    requires Proper4(a) && Proper4(b)
    ensures Nat128(y) == Jam(Value4(a) * Value4(b), 116)
  {
    var x0, x1, x2, x3, x4, x5, x6, h, l := Columns(a, b);
    ProductDigits(a, b, h, l, x6);
    var y0, q, r := LowWord(x0, x1, x2, x3, x4, x5, h, l);
    y := U128(y0, x6);
    assert Pow2(116) == 0x10_0000_0000_0000_0000_0000_0000_0000 by { Pow2Middle(); }
    TopJam(Value4(a) * Value4(b), y, q, r);
  }

  lemma TopJam(p: nat, y: U128, q: nat, r: nat)
    requires q < 0x1_0000_0000_0000_0000 && r < Pow2(116) && y.x0 == Jamming(q, r)
    requires p == (y.x1 * 0x1_0000_0000_0000_0000 + q) * Pow2(116) + r
    ensures Nat128(y) == Jam(p, 116)
  {
    hide *;
    JamIs(p, y.x1 * 0x1_0000_0000_0000_0000 + q, r, 116);
    JammingHigh(y, q, r);
  }

  lemma JammingHigh(y: U128, q: nat, r: nat)
    requires y.x0 == Jamming(q, r)
    ensures Nat128(y) == Jamming(y.x1 * 0x1_0000_0000_0000_0000 + q, r)
  {
    HalfPart(y.x1, q, 0x8000_0000_0000_0000, y.x1 * 0x1_0000_0000_0000_0000 + q, 0x1_0000_0000_0000_0000) by {
      assert q < 0x1_0000_0000_0000_0000;
    }
  }

  // Exponents.

  lemma SquareSix(ha: nat, hb: nat, a: nat, b: nat, h: nat, w: nat)
    requires a == 64 * ha && b == 64 * hb && h == ha * hb && w == a * b
    ensures w == h * 4096
  {}

  /** The unpacked mantissas and exponents give the exact product. */
  lemma UnitsProduct(ma: nat, ea: nat, ua: nat, mb: nat, eb: nat, ub: nat, m: nat, n: nat, k: nat)
    requires ua == ma * Pow2(ea) && ub == mb * Pow2(eb) && n == ua * ub && m == ma * mb
    ensures Exact(m, ea + eb - k, n, Pow2(k))
  {
    hide *;
    MulPowers(ma, ea, ua, mb, eb, ub, m, n);
    ExactRatio(m, ea + eb, k, n);
  }

  /** The normalised mantissas, less their six zero bits, multiplied. */
  lemma MantissaProduct(ma: nat, sa: nat, a: nat, mb: nat, sb: nat, b: nat, m: nat, w: nat)
    requires a == ma * Pow2(sa) && b == mb * Pow2(sb) && m == ma * mb && w == a * b
    ensures m * Pow2(sa + sb) == w
  {
    hide *;
    MulPowers(ma, sa, a, mb, sb, b, m, w);
  }

  lemma DropSix(m: nat, s: nat, ha: nat, a: nat, hb: nat, b: nat, h: nat, w: nat)
    requires a == 64 * ha && b == 64 * hb && h == ha * hb && w == a * b && m * Pow2(s) == w
    ensures m * Pow2(s) == h * Pow2(12)
  {
    assert Pow2(12) == 4096 by { Pow2Middle(); Pow2Add(6, 6); }
    hide *;
    SquareSix(ha, hb, a, b, h, w);
  }

  lemma Trade(m: nat, s: nat, h: nat, t: nat, e: int, n: nat, d: nat)
    requires m * Pow2(s) == h * Pow2(t) && Exact(m, e + s, n, d)
    ensures Exact(h, e + t, n, d)
  {
    ExactShift(m, e, n, d, s);
    ExactShift(h, e, n, d, t);
  }

  /** The product of the normalised mantissas, at its exponent, is the exact product. */
  lemma ExactProduct(ma: nat, sa: nat, a: nat, ea: nat, ua: nat, ha: nat,
                     mb: nat, sb: nat, b: nat, eb: nat, ub: nat, hb: nat, n: nat, k: nat)
    returns (h: nat)
    requires a == ma * Pow2(sa) && b == mb * Pow2(sb) && a == 64 * ha && b == 64 * hb
    requires ua == ma * Pow2(ea) && ub == mb * Pow2(eb) && n == ua * ub
    ensures h == ha * hb && Exact(h, ea - sa + eb - sb - k + 12, n, Pow2(k))
  {
    hide *;
    h := Product(ha, hb);
    var m, w := Product(ma, mb), Product(a, b);
    UnitsProduct(ma, ea, ua, mb, eb, ub, m, n, k);
    MantissaProduct(ma, sa, a, mb, sb, b, m, w);
    DropSix(m, sa + sb, ha, a, hb, b, h, w);
    Trade(m, sa + sb, h, 12, ea - sa + eb - sb - k, n, Pow2(k));
  }

  lemma TopSize(ha: nat, hb: nat, h: nat)
    requires 64 * ha >= P127 && 64 * hb >= P127 && h == ha * hb
    ensures Jam(h, 116) >= P127 / 2
  {
    MulMono(P127 / 64, ha, hb);
    MulMono(P127 / 64, hb, P127 / 64);
    assert Pow2(116) == 0x10_0000_0000_0000_0000_0000_0000_0000 by { Pow2Middle(); }
    JamBounds(h, 116, P127 / 2, 2 * h + 2);
  }

  lemma TopBit(y: U128, top: nat, rem: nat)
    requires y.x1 == top * 0x8000_0000_0000_0000 + rem && rem < 0x8000_0000_0000_0000
    ensures top == 0 ==> y.x1 < 0x8000_0000_0000_0000
    ensures top != 0 ==> Nat128(y) >= P127
  {}

  /** if (!(y1 >> 63)): one bit of renormalisation. */
  method Renormalise(exp: int, y: U128, ghost n: nat, ghost d: nat) returns (e: int, x: U128)
    requires d > 0 && Nat128(y) >= P127 / 2 && Holds(Nat128(y), exp - 16, n, d)
    ensures Nat128(x) >= P127 && Holds(Jam(Nat128(x), 13), e - 3, n, d)
  {
    assert Pow2(63) == 0x8000_0000_0000_0000 && Pow2(1) == 2 by { Pow2Values(); }
    assert P127 == 2 * (P127 / 2);
    hide *;
    var top, rem := Right64(y.x1, 63, 0x8000_0000_0000_0000);
    TopBit(y, top, rem);
    e, x := exp, y;
    if top == 0 {
      x := ShiftLeft(y, 1);
      e := e - 1;
      JamShiftedIn(Nat128(y), 1, 13);
      HoldsShift(Nat128(y), exp - 16, n, d, 12);
    } else {
      HoldsShift(Nat128(y), exp - 16, n, d, 13);
    }
  }

  /** Everything after the special cases of __multf3. */
  method MulFinite(sgn: bit, aExp: int, a: U128, bExp: int, b: U128,
                   ghost ua: nat, ghost ub: nat, ghost n: nat, ghost d: nat, ghost k: nat)
    returns (r: U128)
    requires 0 < Nat128(a) < 2 * P112 && 0 < Nat128(b) < 2 * P112 && aExp >= 1 && bExp >= 1
    requires k == 16494 && d == Pow2(k) && n == ua * ub
    requires ua == Nat128(a) * Pow2(aExp - 1) && ub == Nat128(b) * Pow2(bExp - 1)
    ensures Sign(r) == sgn && NearestEven(Binary128, n, d, Mag(r))
  {
    hide *;
    var ea, x := F3Normalise(aExp, a);
    var eb, y := F3Normalise(bExp, b);
    var ha := NormalisedLow(Nat128(a), aExp - ea, Nat128(x));
    var hb := NormalisedLow(Nat128(b), bExp - eb, Nat128(y));
    var la := Split(x, ha);
    var lb := Split(y, hb);
    var t := MulTop(la, lb);
    var h := ExactProduct(Nat128(a), aExp - ea, Nat128(x), aExp - 1, ua, ha,
                          Nat128(b), bExp - eb, Nat128(y), bExp - 1, ub, hb, n, k);
    ExactHolds(h, ea + eb - 2 - k + 12, n, d);
    HoldsShift(h, ea + eb - 2 - k + 12, n, d, 116);
    TopSize(ha, hb, h);
    var e, z := Renormalise(ea + eb - 16352, t, n, d);
    r := F3Round(sgn, e, z, n, d);
  }

  /** __multf3 on finite operands. */
  method MulNumbers(fa: U128, aExp: int, a: U128, fb: U128, bExp: int, b: U128) returns (r: U128)
    requires aExp >= 1 && bExp >= 1 && Nat128(a) < 2 * P112 && Nat128(b) < 2 * P112
    requires Units(112, Mag(fa)) == Nat128(a) * Pow2(aExp - 1) && Units(112, Mag(fb)) == Nat128(b) * Pow2(bExp - 1)
    ensures Sign(r) == Xor1(Sign(fa), Sign(fb)) && RoundedProduct(Mag(fa), Mag(fb), Mag(r))
  {
    hide *;
    var aZero := IsZero(a);
    var bZero := IsZero(b);
    if aZero || bZero {
      r := F3Zero(Xor1(Sign(fa), Sign(fb)));
      ZeroProduct(Mag(fa), Nat128(a), Pow2(aExp - 1), Mag(fb), Nat128(b), Pow2(bExp - 1));
    } else {
      r := MulNonzero(fa, aExp, a, fb, bExp, b);
    }
  }

  method MulNonzero(fa: U128, aExp: int, a: U128, fb: U128, bExp: int, b: U128) returns (r: U128)
    requires aExp >= 1 && bExp >= 1 && 0 < Nat128(a) < 2 * P112 && 0 < Nat128(b) < 2 * P112
    requires Units(112, Mag(fa)) == Nat128(a) * Pow2(aExp - 1) && Units(112, Mag(fb)) == Nat128(b) * Pow2(bExp - 1)
    ensures Sign(r) == Xor1(Sign(fa), Sign(fb)) && RoundedProduct(Mag(fa), Mag(fb), Mag(r))
  {
    assert UnitExp() == 16494;
    hide *;
    ghost var ua, ub, k := Units(112, Mag(fa)), Units(112, Mag(fb)), UnitExp();
    ghost var n, d := Product(ua, ub), Pow2(k);
    r := MulFinite(Xor1(Sign(fa), Sign(fb)), aExp, a, bExp, b, ua, ub, n, d, k);
    ProductRounded(Mag(fa), Mag(fb), Mag(r), n, d);
  }

  lemma ZeroProduct(fa: nat, a: nat, p: nat, fb: nat, b: nat, q: nat)
    requires Units(112, fa) == a * p && Units(112, fb) == b * q && (a == 0 || b == 0)
    ensures RoundedProduct(fa, fb, 0)
  {
    hide NearestEven, Pow2, Units;
    var n := Product(Units(112, fa), Units(112, fb));
    ZeroNearest(n, Pow2(UnitExp()));
    ProductRounded(fa, fb, 0, n, Pow2(UnitExp()));
  }

  lemma ProductRounded(a: nat, b: nat, r: nat, n: nat, d: nat)
    requires n == Units(112, a) * Units(112, b) && d == Pow2(UnitExp()) && NearestEven(Binary128, n, d, r)
    ensures RoundedProduct(a, b, r)
  {
    hide NearestEven, Units, Pow2;
  }

  method MulTf3(fa: U128, fb: U128) returns (r: U128)
    ensures IsProduct(fa, fb, r)
  {
    var aSgn, aExp, a := F3Unpack(fa);
    var bSgn, bExp, b := F3Unpack(fb);
    Classify(fa, aExp, a);
    Classify(fb, bExp, b);
    var found, nan := F3DetectNaNs(aSgn, aExp, a, bSgn, bExp, b, fa, fb);
    if found { return nan; }
    hide Units, RoundedProduct;
    var aZero := IsZero(a);
    var bZero := IsZero(b);
    if (aExp == 32767 && bZero) || (bExp == 32767 && aZero) {
      r := F3NaN();
    } else if aExp == 32767 || bExp == 32767 {
      r := F3Infinity(Xor1(aSgn, bSgn));
    } else {
      r := MulNumbers(fa, aExp, a, fb, bExp, b);
    }
  }
}
