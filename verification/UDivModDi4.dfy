/** __udivmoddi4 (lib/libtcc1.c): the other 64-bit divider, on the machine's 64-by-32 divide. */
module UDivModDi4 {
  import opened Words
  import opened Bits32
  import opened Division

  // The three machine primitives.

  /** divl: the quotient must fit a word, so n1 < d. */
  method UdivQrnnd(n1: u32, n0: u32, d: u32) returns (q: u32, r: u32)
    requires n1 < d
    ensures IsDivMod(n1 * 0x1_0000_0000 + n0, d, q, r)
  {
    ghost var n: int := n1;
    n := n * 0x1_0000_0000 + n0;
    DivMod(n1 * 0x1_0000_0000 + n0, d);
    DivNat(n1 * 0x1_0000_0000 + n0, d);
    QuotientFits(n, d, n / d);
    q, r := (n1 * 0x1_0000_0000 + n0) / d, (n1 * 0x1_0000_0000 + n0) % d;
  }

  lemma QuotientFits(n: nat, d: nat, q: nat)
    requires d > 0 && n < d * 0x1_0000_0000 && q * d <= n
    ensures q < 0x1_0000_0000
  {
    if q >= 0x1_0000_0000 { MulMono(0x1_0000_0000, q, d); }
  }

  /** sub_ddmmss: two words, wrapping. */
  method SubWide(aHi: u32, aLo: u32, bHi: u32, bLo: u32, ghost a: nat, ghost b: nat) returns (hi: u32, lo: u32)
    requires a == aHi * 0x1_0000_0000 + aLo && b == bHi * 0x1_0000_0000 + bLo
    ensures hi * 0x1_0000_0000 + lo == if a >= b then a - b else a - b + 0x1_0000_0000_0000_0000
  {
    lo := Sub32(aLo, bLo);
    hi := Sub32(Sub32(aHi, bHi), Truth(aLo < bLo));
  }

  /** d1 == 0: one divide, or two when the quotient needs two words. */
  method OneWord(n1: u32, n0: u32, d: u32) returns (q1: u32, q0: u32, r: u32)
    requires d > 0
    ensures IsDivMod(n1 * 0x1_0000_0000 + n0, d, q1 * 0x1_0000_0000 + q0, r)
  {
    if d > n1 {
      q0, r := UdivQrnnd(n1, n0, d);
      q1 := 0;
    } else {
      var k;
      q1, k := UdivQrnnd(0, n1, d);
      q0, r := UdivQrnnd(k, n0, d);
      Compose(n1, n0, d, q1, k, q0, r);
    }
  }

  /** n2 = n1 >> b, then the pair shifted left by bm: three words. */
  method ShiftTriple(n1: u32, n0: u32, bm: nat, ghost p: nat) returns (m2: u32, m1: u32, m0: u32)
    requires 0 < bm < 32 && p == Pow2(bm)
    ensures (m2 * 0x1_0000_0000 + m1) * 0x1_0000_0000 + m0 == (n1 * 0x1_0000_0000 + n0) * p && m2 < p
  {
    assert Pow2(32) == 0x1_0000_0000 by { Pow2Values(); }
    hide *;
    ghost var s := Pow2(32 - bm);
    Pow2Add(32 - bm, bm);
    ghost var r1, h1, l1, r0, h0, l0;
    var t, u;
    m2, r1 := Right32(n1, 32 - bm, s);
    t, h1, l1 := Left32(n1, bm, s, p);
    Euclid(s, m2, r1, h1, l1);
    u, r0 := Right32(n0, 32 - bm, s);
    m0, h0, l0 := Left32(n0, bm, s, p);
    Euclid(s, u, r0, h0, l0);
    MulCancel(u, p, s);
    m1 := Join32(t, u, bm, p, l1);
    TripleShifted(n1, n0, m2, l1, u, l0, s, p);
  }

  lemma TripleShifted(n1: nat, n0: nat, m2: nat, l1: nat, u: nat, l0: nat, s: nat, p: nat)
    requires s * p == 0x1_0000_0000 && n1 == m2 * s + l1 && n0 == u * s + l0
    ensures (m2 * 0x1_0000_0000 + (l1 * p + u)) * 0x1_0000_0000 + l0 * p == (n1 * 0x1_0000_0000 + n0) * p
  {
    assert n1 * p == m2 * 0x1_0000_0000 + l1 * p by {
      MulEq(p, n1, m2 * s + l1);
      Distrib(m2 * s, l1, p);
      MulAssoc(m2, s, p);
      MulEq(m2, s * p, 0x1_0000_0000);
    }
    assert n0 * p == u * 0x1_0000_0000 + l0 * p by {
      MulEq(p, n0, u * s + l0);
      Distrib(u * s, l0, p);
      MulAssoc(u, s, p);
      MulEq(u, s * p, 0x1_0000_0000);
    }
    Distrib(n1 * 0x1_0000_0000, n0, p);
    MulCommute(n1, 0x1_0000_0000, p);
  }

  /** The estimate from the top words is at most one too large, even when the shift is 31. */
  lemma AtMostOne(q: nat, d1: nat, d0: nat, k0: nat, bm: nat, p: nat, top: nat, r1: nat)
    requires 0 < bm < 32 && p == Pow2(bm) && 0x8000_0000 <= d1 && d0 == k0 * p && d0 < 0x1_0000_0000
    requires IsDivMod(top, d1, q, r1) && top < 0x1_0000_0000 * p
    ensures q * d0 <= d1 * 0x1_0000_0000
  {
    hide *;
    QuotientSmall(q, d1, p, top, r1);
    if bm == 31 {
      Pow2Of31();
      MulEq(k0, p, 0x8000_0000);
      LastBit(k0, d0);
      Bounded(q, 0x1_0000_0000, d0, 0x8000_0000, d1);
    } else {
      Pow2Of30();
      Pow2Mono(bm, 30);
      Bounded(q, 0x8000_0000, d0, 0x1_0000_0000, d1);
    }
  }

  lemma Pow2Of31()
    ensures Pow2(31) == 0x8000_0000
  {
    Pow2Values();
  }

  lemma Pow2Of30()
    ensures Pow2(30) == 0x4000_0000
  {
    Pow2Values();
  }

  lemma Bounded(q: nat, qm: nat, d0: nat, dm: nat, d1: nat)
    requires q <= qm && d0 <= dm && 0x8000_0000 <= d1
    requires (qm == 0x1_0000_0000 && dm == 0x8000_0000) || (qm == 0x8000_0000 && dm == 0x1_0000_0000)
    ensures q * d0 <= d1 * 0x1_0000_0000
  {
    MulMono(d0, dm, q);
    assert q * dm <= 0x8000_0000 * 0x1_0000_0000;
  }

  lemma QuotientSmall(q: nat, d1: nat, p: nat, top: nat, r1: nat)
    requires 0x8000_0000 <= d1 && IsDivMod(top, d1, q, r1) && top < 0x1_0000_0000 * p
    ensures q < 2 * p
  {
    MulMono(0x8000_0000, d1, q);
  }

  lemma LastBit(k0: nat, d0: nat)
    requires d0 == k0 * 0x8000_0000 && d0 < 0x1_0000_0000
    ensures d0 <= 0x8000_0000
  {}

  /** (hi << b) | (lo >> bm) and hi >> bm, on a multiple of 2^bm. */
  method ShiftBack(hi: u32, lo: u32, bm: nat, ghost p: nat, ghost r: nat) returns (rHi: u32, rLo: u32)
    requires 0 < bm < 32 && p == Pow2(bm) && hi * 0x1_0000_0000 + lo == r * p
    ensures rHi * 0x1_0000_0000 + rLo == r
  {
    assert Pow2(32) == 0x1_0000_0000 by { Pow2Values(); }
    hide *;
    ghost var s := Pow2(32 - bm);
    Pow2Add(32 - bm, bm);
    ghost var rem, h1, l1, r0;
    var t, u;
    t, h1, l1 := Left32(hi, 32 - bm, p, s);
    u, r0 := Right32(lo, bm, p);
    MulCancel(u, s, p);
    rLo := Join32(t, u, 32 - bm, s, l1);
    rHi, rem := Right32(hi, bm, p);
    Euclid(p, rHi, rem, h1, l1);
    BackShifted(hi, lo, rHi, l1, u, r0, s, p, r);
  }

  lemma BackShifted(hi: nat, lo: nat, h: nat, l: nat, u: nat, r0: nat, s: nat, p: nat, r: nat)
    requires s * p == 0x1_0000_0000 && hi == h * p + l && lo == u * p + r0 && r0 < p && hi * 0x1_0000_0000 + lo == r * p
    ensures h * 0x1_0000_0000 + (l * s + u) == r
  {
    var w := h * 0x1_0000_0000 + (l * s + u);
    assert w * p == (h * p) * 0x1_0000_0000 + l * 0x1_0000_0000 + u * p by {
      Distrib(h * 0x1_0000_0000, l * s + u, p);
      Distrib(l * s, u, p);
      MulAssoc(l, s, p);
      MulEq(l, s * p, 0x1_0000_0000);
      MulCommute(h, 0x1_0000_0000, p);
    }
    Euclid(p, w, r0, r, 0);
  }

  /** Estimate with the top words, multiply by the low one, take back at most one divisor. */
  method EstimateStep(n2: u32, n1: u32, n0: u32, d1: u32, d0: u32, ghost n: nat, ghost d: nat, ghost k0: nat, bm: nat, ghost p: nat)
    returns (q: u32, rHi: u32, rLo: u32)
    requires n == (n2 * 0x1_0000_0000 + n1) * 0x1_0000_0000 + n0 && d == d1 * 0x1_0000_0000 + d0
    requires 0 < bm < 32 && p == Pow2(bm) && n2 < p && d1 >= 0x8000_0000 && d0 == k0 * p && n2 < d1
    ensures IsDivMod(n, d, q, rHi * 0x1_0000_0000 + rLo)
  {
    hide Pow2;
    var r1, m1, m0;
    q, r1 := UdivQrnnd(n2, n1, d1);
    m0, m1 := MulWide(q, d0);
    ghost var t: int, w: int := n2, r1;
    AtMostOne(q, d1, d0, k0, bm, p, t * 0x1_0000_0000 + n1, r1);
    ghost var m, u := Product(q, d0), w * 0x1_0000_0000 + n0;
    StepEquation(n, t * 0x1_0000_0000 + n1, n0, d1, d0, d, q, r1, m, u);
    Distrib(q, -1, d);
    if m1 > r1 || (m1 == r1 && m0 > n0) {
      q := q - 1;
      m1, m0 := SubWide(m1, m0, d1, d0, m, d);
      m := if m >= d then m - d else m - d + 0x1_0000_0000_0000_0000;
    }
    rHi, rLo := SubWide(r1, n0, m1, m0, u, m);
  }

  lemma StepEquation(n: nat, top: nat, n0: u32, d1: nat, d0: nat, d: nat, q: nat, r1: nat, m: nat, u: nat)
    requires n == top * 0x1_0000_0000 + n0 && d == d1 * 0x1_0000_0000 + d0 && IsDivMod(top, d1, q, r1)
    requires m == q * d0 && u == r1 * 0x1_0000_0000 + n0
    ensures n == q * d + u - m && u < d && (m > u ==> q > 0)
  {
    Distrib(d1 * 0x1_0000_0000, d0, q);
    MulCommute(d1, 0x1_0000_0000, q);
  }

  /** d1 > 0 and n1 >= d1. */
  method TwoWords(n1: u32, n0: u32, d1: u32, d0: u32, ghost n: nat, ghost d: nat) returns (q: u32, rHi: u32, rLo: u32)
    requires n == n1 * 0x1_0000_0000 + n0 && d == d1 * 0x1_0000_0000 + d0 && n1 >= d1 > 0
    ensures IsDivMod(n, d, q, rHi * 0x1_0000_0000 + rLo)
  {
    var bm := Clz32(d1);
    if bm == 0 {
      assert Pow2(31) == 0x8000_0000 by { Pow2Values(); }
      if n1 > d1 || n0 >= d0 {
        q := 1;
        rHi, rLo := SubWide(n1, n0, d1, d0, n, d);
      } else {
        q, rHi, rLo := 0, n1, n0;
      }
    } else {
      q, rHi, rLo := Normalised(n1, n0, d1, d0, n, d, bm);
    }
  }

  method Normalised(n1: u32, n0: u32, d1: u32, d0: u32, ghost n: nat, ghost d: nat, bm: nat)
    returns (q: u32, rHi: u32, rLo: u32)
    requires n == n1 * 0x1_0000_0000 + n0 && d == d1 * 0x1_0000_0000 + d0
    requires 0 < bm < 32 && Pow2(31 - bm) <= d1 < 2 * Pow2(31 - bm)
    ensures IsDivMod(n, d, q, rHi * 0x1_0000_0000 + rLo)
  {
    ghost var p := Pow2(bm);
    TopBitSet(d1, bm, p);
    hide *;
    var e1, e0 := ShiftPair(d1, d0, bm, p);
    ghost var k0 := LowMultiple(d, e1, e0, bm, p);
    var m2, m1, m0 := ShiftTriple(n1, n0, bm, p);
    TopLarge(d1, d0, e1, e0, p);
    var h, l;
    q, h, l := EstimateStep(m2, m1, m0, e1, e0, Product(n, p), Product(d, p), k0, bm, p);
    ghost var w: int := h;
    ghost var r := Unscale(n, d, p, q, w * 0x1_0000_0000 + l);
    rHi, rLo := ShiftBack(h, l, bm, p, r);
  }

  lemma TopBitSet(d1: nat, bm: nat, p: nat)
    requires 0 < bm < 32 && p == Pow2(bm) && Pow2(31 - bm) <= d1 < 2 * Pow2(31 - bm)
    ensures 0x8000_0000 <= d1 * p < 0x1_0000_0000 && p <= 0x8000_0000 && d1 > 0
  {
    assert Pow2(31) == 0x8000_0000 by { Pow2Values(); }
    Pow2Mono(bm, 31);
    hide *;
    Pow2Add(31 - bm, bm);
    MulMono(Pow2(31 - bm), d1, p);
    MulMonoStrict(d1, 2 * Pow2(31 - bm), p);
    MulAssoc(2, Pow2(31 - bm), p);
  }

  lemma LowMultiple(d: nat, e1: nat, e0: nat, bm: nat, p: nat) returns (k: nat)
    requires 0 < bm < 32 && p == Pow2(bm) && e1 * 0x1_0000_0000 + e0 == d * p
    ensures e0 == k * p
  {
    assert Pow2(32) == 0x1_0000_0000 by { Pow2Values(); }
    hide *;
    var s := Pow2(32 - bm);
    Pow2Add(32 - bm, bm);
    k := Quotient(d, e1, e0, p, s, 0x1_0000_0000);
  }

  lemma Quotient(d: nat, e1: nat, e0: nat, p: nat, s: nat, w: nat) returns (k: nat)
    requires w == s * p && e1 * w + e0 == d * p && p > 0
    ensures e0 == k * p
  {
    MulAssoc(e1, s, p);
    var c := Product(e1, s);
    Distrib(d - c, c, p);
    if d - c < 0 { MulMono(d - c, -1, p); }
    k := d - c;
  }

  lemma TopLarge(d1: nat, d0: nat, e1: nat, e0: u32, p: nat)
    requires e1 * 0x1_0000_0000 + e0 == (d1 * 0x1_0000_0000 + d0) * p && d1 * p >= 0x8000_0000
    ensures e1 >= 0x8000_0000
  {
    Distrib(d1 * 0x1_0000_0000, d0, p);
    MulCommute(d1, 0x1_0000_0000, p);
    MulNat(d0, p);
  }

  /** __udivmoddi4, for the divisors it does not trap on. */
  method UDivMod(n1: u32, n0: u32, d1: u32, d0: u32) returns (q1: u32, q0: u32, r1: u32, r0: u32)
    requires d1 * 0x1_0000_0000 + d0 > 0
    ensures IsDivMod(n1 * 0x1_0000_0000 + n0, d1 * 0x1_0000_0000 + d0,
                     q1 * 0x1_0000_0000 + q0, r1 * 0x1_0000_0000 + r0)
  {
    if d1 == 0 {
      q1, q0, r0 := OneWord(n1, n0, d0);
      r1 := 0;
    } else if d1 > n1 {
      q1, q0, r1, r0 := 0, 0, n1, n0;
    } else {
      q0, r1, r0 := TwoWords(n1, n0, d1, d0, n1 * 0x1_0000_0000 + n0, d1 * 0x1_0000_0000 + d0);
      q1 := 0;
    }
  }
}
