/** 64-bit division on 32-bit words (lib/armeabi.c): Knuth's algorithm D with 16-bit digits, and the
    estimate-and-correct step for wide divisors. */
module Division {
  import opened Words
  import opened Bits32

  /** q and r are the quotient and remainder of n by d. */
  ghost predicate IsDivMod(n: nat, d: nat, q: nat, r: nat)
  {
    n == q * d + r && r < d
  }

  lemma DivModUnique(n: nat, d: nat, q: nat, r: nat, p: nat, s: nat)
    requires IsDivMod(n, d, q, r) && IsDivMod(n, d, p, s)
    ensures q == p && r == s
  {
    Euclid(d, q, r, p, s);
  }

  // One 16-bit quotient digit.

  /** (rhat << 16) | c */
  method Append16(hi: u32, c: u32) returns (r: u32)
    requires hi < 0x1_0000 && c < 0x1_0000
    ensures r == hi * 0x1_0000 + c
  {
    assert Pow2(16) == 0x1_0000 by { Pow2Values(); }
    hide *;
    var t, h, l := Left32(hi, 16, 0x1_0000, 0x1_0000);
    Euclid(0x1_0000, h, l, 0, hi);
    r := Join32(t, c, 16, 0x1_0000, hi);
  }

  /** The estimate u / vn1 is at most two above the digit (v is normalised). */
  lemma EstimateClose(u: nat, c: nat, vn1: nat, vn0: nat, v: nat, q: nat, rhat: nat, t: nat, rem: nat)
    requires vn1 >= 0x8000 && vn0 < 0x1_0000 && v == vn1 * 0x1_0000 + vn0 && u < v && c < 0x1_0000
    requires u == q * vn1 + rhat && rhat < vn1 && IsDivMod(u * 0x1_0000 + c, v, t, rem)
    ensures t <= q <= t + 2 && t < 0x1_0000 && q <= 0x1_0001
  {
    EstimateAbove(u, c, vn1, vn0, v, q, rhat, t, rem);
    if q > t + 2 { EstimateFar(u, c, vn1, vn0, v, q, rhat, t, rem); }
    if t >= 0x1_0000 { MulMono(0x1_0000, t, v); }
  }

  lemma EstimateAbove(u: nat, c: nat, vn1: nat, vn0: nat, v: nat, q: nat, rhat: nat, t: nat, rem: nat)
    requires v == vn1 * 0x1_0000 + vn0 && c < 0x1_0000
    requires u == q * vn1 + rhat && rhat < vn1 && IsDivMod(u * 0x1_0000 + c, v, t, rem)
    ensures t <= q
  {
    QuotientTimes(q, vn1, vn0, v);
    if t > q {
      MulMono(q + 1, t, v);
      Distrib(q, 1, v);
    }
  }

  lemma QuotientTimes(q: nat, vn1: nat, vn0: nat, v: nat)
    requires v == vn1 * 0x1_0000 + vn0
    ensures q * v == (q * vn1) * 0x1_0000 + q * vn0 && q * vn0 >= 0
  {
    Distrib(vn1 * 0x1_0000, vn0, q);
    MulCommute(vn1, 0x1_0000, q);
    MulNat(q, vn0);
  }

  lemma EstimateFar(u: nat, c: nat, vn1: nat, vn0: nat, v: nat, q: nat, rhat: nat, t: nat, rem: nat)
    requires vn1 >= 0x8000 && vn0 < 0x1_0000 && v == vn1 * 0x1_0000 + vn0 && u < v
    requires u == q * vn1 + rhat && IsDivMod(u * 0x1_0000 + c, v, t, rem)
    ensures q <= t + 2
  {
    QuotientTimes(q, vn1, vn0, v);
    if q >= t + 3 {
      MulMono(t + 1, q - 2, v);
      Distrib(t, 1, v);
      Distrib(q, -2, v);
      MulMono(vn0, 2 * vn1, q);
      MulAssoc(2, vn1, q);
    }
  }

  /** q * vn0 > ((rhat << 16) | c), with q at most 16 bits: the digit overshoots. */
  method Overshoots(q: u32, vn0: u32, rhat: u32, c: u32) returns (r: bool)
    requires q < 0x1_0000 && vn0 < 0x1_0000 && rhat < 0x1_0000 && c < 0x1_0000
    ensures r <==> q * vn0 > rhat * 0x1_0000 + c
  {
    MulMono(q, 0xffff, vn0);
    MulNat(q, vn0);
    var p: u32 := q * vn0;
    var w := Append16(rhat, c);
    r := p > w;
  }

  /** The loop's test says exactly whether the digit is still too large. */
  lemma TestMeans(u: nat, c: nat, vn1: nat, vn0: nat, v: nat, q: nat, rhat: nat, t: nat, rem: nat)
    requires v > 0 && v == vn1 * 0x1_0000 + vn0 && u == q * vn1 + rhat && IsDivMod(u * 0x1_0000 + c, v, t, rem)
    ensures q * vn0 > rhat * 0x1_0000 + c <==> q > t
  {
    QuotientTimes(q, vn1, vn0, v);
    Distrib(t, 1, v);
    if q > t { MulMono(t + 1, q, v); } else { MulMono(q, t, v); }
  }

  /** One digit: the estimate u / vn1, lowered while it overshoots.  The correction runs at most twice. */
  method Digit(u: u32, c: u32, v: u32, vn1: u32, vn0: u32) returns (q: u32, ghost rem: nat, ghost corrections: nat)
    requires 0x8000 <= vn1 < 0x1_0000 && vn0 < 0x1_0000 && v == vn1 * 0x1_0000 + vn0 && u < v && c < 0x1_0000
    ensures IsDivMod(u * 0x1_0000 + c, v, q, rem) && q < 0x1_0000 && corrections <= 2
  {
    ghost var t;
    t, rem := Exists(u * 0x1_0000 + c, v);
    DivMod(u, vn1);
    DivNat(u, vn1);
    MulMono(1, vn1, u / vn1);
    q := u / vn1;
    var rhat: u32 := u - q * vn1;
    EstimateClose(u, c, vn1, vn0, v, q, rhat, t, rem);
    hide IsDivMod;
    corrections := 0;
    ghost var first := q;
    TestMeans(u, c, vn1, vn0, v, q, rhat, t, rem);
    var over := TooLarge(q, vn0, rhat, c);
    while over
      invariant u == q * vn1 + rhat && rhat < 0x1_0000 && t <= q <= 0x1_0001 && (corrections > 0 ==> q <= 0x1_0000)
      invariant q + corrections == first && corrections <= 2
      invariant over <==> q > 0xffff || q > t
      decreases q
    {
      Distrib(q, -1, vn1);
      q := q - 1;
      rhat := rhat + vn1;
      corrections := corrections + 1;
      TestMeans(u, c, vn1, vn0, v, q, rhat, t, rem);
      if rhat > 0xffff {
        BreakExact(q, vn0, rhat, c);
        break;
      }
      over := TooLarge(q, vn0, rhat, c);
    }
    assert q == t;
  }

  lemma Exists(n: nat, d: nat) returns (q: nat, r: nat)
    requires d > 0
    ensures IsDivMod(n, d, q, r)
  {
    DivMod(n, d);
    DivNat(n, d);
    q, r := n / d, n % d;
  }

  /** The loop's test, evaluated left to right. */
  method TooLarge(q: u32, vn0: u32, rhat: u32, c: u32) returns (r: bool)
    requires vn0 < 0x1_0000 && rhat < 0x1_0000 && c < 0x1_0000
    ensures r <==> q > 0xffff || q * vn0 > rhat * 0x1_0000 + c
  {
    r := q > 0xffff;
    if !r { r := Overshoots(q, vn0, rhat, c); }
  }

  lemma BreakExact(q: nat, vn0: nat, rhat: nat, c: nat)
    requires q <= 0x1_0000 && vn0 < 0x1_0000 && rhat >= 0x1_0000
    ensures q * vn0 <= rhat * 0x1_0000 + c
  {
    MulMono(q, 0x1_0000, vn0);
  }

  /** a * b in 32 bits. */
  function Mul32(a: u32, b: u32): u32 { DivNat(Product(a, b), 0x1_0000_0000); a * b % 0x1_0000_0000 }

  /** (u << 16) + c - q * v, every operation wrapping: the true partial remainder. */
  method Partial(u: u32, c: u32, q: u32, v: u32, ghost rem: nat) returns (r: u32)
    requires c < 0x1_0000 && u * 0x1_0000 + c == q * v + rem && rem < 0x1_0000_0000
    ensures r == rem
  {
    assert Pow2(16) == 0x1_0000 by { Pow2Values(); }
    DivMod(q * v, 0x1_0000_0000);
    hide Pow2;
    var t, hi, lo := Left32(u, 16, 0x1_0000, 0x1_0000);
    var sum := Add32(t, c);
    var p := Mul32(q, v);
    r := Sub32(sum, p);
    WrapExact(hi, sum, q * v / 0x1_0000_0000, p, rem, r);
  }

  lemma WrapExact(hi: int, sum: u32, h: int, p: u32, rem: nat, r: u32)
    requires hi * 0x1_0000_0000 + sum == h * 0x1_0000_0000 + p + rem && rem < 0x1_0000_0000 && r == Sub32(sum, p)
    ensures r == rem
  {
    Euclid(0x1_0000_0000, if sum >= p then hi - h else hi - h - 1, r, 0, rem);
  }

  /** v >> 16, v & 0xFFFF */
  method Halves(v: u32) returns (h: u32, l: u32)
    ensures v == h * 0x1_0000 + l && l < 0x1_0000 && h < 0x1_0000
  {
    assert Pow2(16) == 0x1_0000 by { Pow2Values(); }
    hide *;
    var lo;
    ghost var rem, hi;
    h, rem := Right32(v, 16, 0x1_0000);
    lo, hi := Mask64(v, 16, 0x1_0000);
    Euclid(0x1_0000, h, rem, hi, lo);
    l := lo;
  }

  /** The two-digit step: (u1:u0) / v for a normalised v above u1. */
  method TwoDigits(u1: u32, u0: u32, v: u32) returns (q1: u32, q0: u32, un21: u32, un0: u32, ghost rem: nat)
    requires v >= 0x8000_0000 && u1 < v
    ensures q1 < 0x1_0000 && q0 < 0x1_0000 && un0 < 0x1_0000
    ensures IsDivMod(u1 * 0x1_0000_0000 + u0, v, q1 * 0x1_0000 + q0, rem)
    ensures un21 * 0x1_0000 + un0 == q0 * v + rem
  {
    var vn1, vn0 := Halves(v);
    var un1, l := Halves(u0);
    un0 := l;
    ghost var r1, n1, n0;
    q1, r1, n1 := Digit(u1, un1, v, vn1, vn0);
    un21 := Partial(u1, un1, q1, v, r1);
    q0, rem, n0 := Digit(un21, un0, v, vn1, vn0);
    Distrib(q1 * 0x1_0000, q0, v);
    MulCommute(q1, 0x1_0000, v);
  }

  // A divisor of one word.

  /** un32 = s ? (k << s) | (n >> (32 - s)) : k and un10 = n << s: the pair shifted left by s. */
  method ShiftPair(k: u32, n: u32, s: nat, ghost p: nat) returns (h: u32, l: u32)
    requires s < 32 && p == Pow2(s) && k * p < 0x1_0000_0000
    ensures h * 0x1_0000_0000 + l == (k * 0x1_0000_0000 + n) * p
  {
    assert Pow2(32) == 0x1_0000_0000 && Pow2(0) == 1 by { Pow2Values(); }
    hide *;
    ghost var hi, lo, rem, hk, lk;
    l, hi, lo := Left32(n, s, Pow2(32 - s), p);
    Pow2Add(32 - s, s);
    if s == 0 {
      h := k;
      Euclid(0x1_0000_0000, hi, lo, 0, n);
      MulOne(k * 0x1_0000_0000 + n, p);
    } else {
      var top;
      top, rem := Right32(n, 32 - s, Pow2(32 - s));
      Euclid(Pow2(32 - s), top, rem, hi, lo);
      h, hk, lk := Left32(k, s, Pow2(32 - s), p);
      MulCancel(k, Pow2(32 - s), p);
      Euclid(Pow2(32 - s), hk, lk, 0, k);
      h := Join32(h, top, s, p, k);
      PairShifted(k, n, top, lo, Pow2(32 - s), p);
    }
  }

  lemma PairShifted(k: nat, n: nat, top: nat, lo: nat, s: nat, p: nat)
    requires s * p == 0x1_0000_0000 && n == top * s + lo
    ensures (k * p + top) * 0x1_0000_0000 + lo * p == (k * 0x1_0000_0000 + n) * p
  {
    Distrib(top * s, lo, p);
    MulAssoc(top, s, p);
    MulEq(top, s * p, 0x1_0000_0000);
    MulEq(p, n, top * s + lo);
    Distrib(k * 0x1_0000_0000, n, p);
  }

  /** Dividing both sides by the same power of two. */
  lemma Unscale(n: nat, d: nat, p: nat, q: nat, rem: nat) returns (r: nat)
    requires p > 0 && d > 0 && IsDivMod(n * p, d * p, q, rem)
    ensures rem == r * p && IsDivMod(n, d, q, r)
  {
    MulAssoc(q, d, p);
    Distrib(n, -(q * d), p);
    var t := n - q * d;
    assert t * p == rem;
    MulCancel(0, t + 1, p);
    Distrib(t, 1, p);
    MulCancel(t, d, p);
    if t < 0 { MulMono(t, -1, p); }
    r := t;
  }

  /** The branch for d_hi == 0. */
  method NarrowDivisor(nLo: u32, nHi: u32, d: u32) returns (qLo: u32, qHi: u32, r: u32)
    requires d > 0
    ensures IsDivMod(nHi * 0x1_0000_0000 + nLo, d, qHi * 0x1_0000_0000 + qLo, r)
  {
    var k;
    qHi, k := Peel(nHi, d);
    var v, s := Normalise32(d);
    ghost var p := Pow2(s);
    MulMonoStrict(k, d, p);
    hide *;
    var h, l := ShiftPair(k, nLo, s, p);
    BelowDivisor(k, nLo, d, p, h, l, v);
    var q1, q0, un21, un0, rem := TwoDigits(h, l, v);
    ghost var r0 := Unscale(k * 0x1_0000_0000 + nLo, d, p, q1 * 0x1_0000 + q0, rem);
    RemainderFits(rem, h, l, v, q1 * 0x1_0000 + q0);
    var t := Partial(un21, un0, q0, v, rem);
    ghost var lo;
    r, lo := Right32(t, s, p);
    Euclid(p, r, lo, r0, 0);
    qLo := Append16(q1, q0);
    Compose(nHi, nLo, d, qHi, k, qLo, r);
  }

  /** qh = n_hi / d, k = n_hi - qh * d, when n_hi >= d. */
  method Peel(n: u32, d: u32) returns (q: u32, k: u32)
    requires d > 0
    ensures IsDivMod(n, d, q, k)
  {
    q, k := 0, n;
    if n >= d {
      DivMod(n, d);
      DivNat(n, d);
      MulMono(1, d, n / d);
      q := n / d;
      k := n - q * d;
    }
  }

  lemma BelowDivisor(k: nat, n: u32, d: nat, p: nat, h: nat, l: nat, v: nat)
    requires k < d && v == d * p && p > 0 && h * 0x1_0000_0000 + l == (k * 0x1_0000_0000 + n) * p
    ensures h < v
  {
    MulMonoStrict(k * 0x1_0000_0000 + n, (k + 1) * 0x1_0000_0000, p);
    MulCommute(k + 1, 0x1_0000_0000, p);
    MulMono(k + 1, d, p);
  }

  lemma RemainderFits(rem: nat, h: nat, l: nat, v: u32, q: nat)
    requires IsDivMod(h * 0x1_0000_0000 + l, v, q, rem)
    ensures rem < 0x1_0000_0000
  {}

  lemma Compose(nHi: nat, nLo: nat, d: nat, qHi: nat, k: nat, qLo: nat, r: nat)
    requires IsDivMod(nHi, d, qHi, k) && IsDivMod(k * 0x1_0000_0000 + nLo, d, qLo, r)
    ensures IsDivMod(nHi * 0x1_0000_0000 + nLo, d, qHi * 0x1_0000_0000 + qLo, r)
  {
    Distrib(qHi * 0x1_0000_0000, qLo, d);
    MulCommute(qHi, 0x1_0000_0000, d);
  }

  // A divisor of two words.

  /** The top 32 bits of the normalised divisor: d == v * g + rest, g = 2^(32 - s). */
  method TopOfDivisor(dLo: u32, dHi: u32) returns (v: u32, s: nat, ghost rest: nat)
    requires dHi > 0
    ensures s < 32 && v >= 0x8000_0000 && rest < Pow2(32 - s)
    ensures dHi * 0x1_0000_0000 + dLo == v * Pow2(32 - s) + rest
  {
    assert Pow2(32) == 0x1_0000_0000 && Pow2(0) == 1 by { Pow2Values(); }
    hide *;
    v, s := Normalise32(dHi);
    ghost var g, p := Pow2(32 - s), Pow2(s);
    Pow2Add(s, 32 - s);
    MulAssoc(dHi, p, g);
    rest := dLo;
    if s != 0 {
      var top;
      top, rest := Right32(dLo, 32 - s, g);
      MulCancel(top, p, g);
      v := Join32(v, top, s, p, dHi);
      Distrib(dHi * p, top, g);
    } else {
      MulOne(dHi, p);
    }
  }

  /** u1 = n_hi >> 1, u0 = (n_lo >> 1) | (n_hi << 31) */
  method HalfPair(nLo: u32, nHi: u32) returns (u1: u32, u0: u32, ghost b: bit)
    ensures nHi * 0x1_0000_0000 + nLo == 2 * (u1 * 0x1_0000_0000 + u0) + b && u1 < 0x8000_0000
  {
    assert Pow2(1) == 2 && Pow2(31) == 0x8000_0000 by { Pow2Values(); }
    hide *;
    ghost var rh, hi, lo, rl;
    u1, rh := Right32(nHi, 1, 2);
    var l, t;
    l, rl := Right32(nLo, 1, 2);
    t, hi, lo := Left32(nHi, 31, 2, 0x8000_0000);
    Euclid(2, u1, rh, hi, lo);
    u0 := Join32(t, l, 31, 0x8000_0000, rh);
    b := rl;
  }

  /** Halving, dividing by v and dropping 31 - s bits is dividing by v * 2^(32 - s). */
  lemma EstimateIs(n: nat, h: nat, b: bit, v: nat, q: nat, r: nat, k: nat, e: nat, lo: nat)
    requires v > 0 && n == 2 * h + b && IsDivMod(h, v, q, r) && q == e * Pow2(k) + lo && lo < Pow2(k)
    ensures e * (v * Pow2(k + 1)) <= n < (e + 1) * (v * Pow2(k + 1))
  {
    var p := Pow2(k);
    assert Pow2(k + 1) == 2 * p;
    hide *;
    var g := Product(v, p);
    assert v * Pow2(k + 1) == 2 * g by { MulEq(v, Pow2(k + 1), 2 * p); }
    assert e * g <= h < (e + 1) * g by { EstimateHalf(h, v, q, r, p, e, lo, g); }
    assert e * (2 * g) == 2 * (e * g) && (e + 1) * (2 * g) == 2 * ((e + 1) * g) by { Doubles(e, g); }
  }

  lemma Doubles(e: nat, g: nat)
    ensures e * (2 * g) == 2 * (e * g) && (e + 1) * (2 * g) == 2 * ((e + 1) * g)
  {}

  lemma EstimateHalf(h: nat, v: nat, q: nat, r: nat, p: nat, e: nat, lo: nat, g: nat)
    requires v > 0 && IsDivMod(h, v, q, r) && q == e * p + lo && lo < p && g == v * p
    ensures e * g <= h < (e + 1) * g
  {
    Distrib(e * p, lo, v);
    MulEq(v, q, e * p + lo);
    MulAssoc(e, p, v);
    MulNat(lo, v);
    MulMono(lo + 1, p, v);
    Distrib(lo, 1, v);
    Distrib(e, 1, g);
  }

  /** The estimate is the quotient or one more: v keeps enough bits of d, for every shift. */
  lemma EstimateWide(n: nat, d: nat, v: nat, s: nat, g: nat, rest: nat, e: nat)
    requires n < 0x1_0000_0000_0000_0000 && 0x8000_0000 <= v < 0x1_0000_0000 && s < 32 && g == Pow2(32 - s)
    requires d == v * g + rest && rest < g && e > 0 && e * (v * g) <= n
    ensures (e - 1) * d <= n
  {
    var d1 := Product(v, g);
    assert (e - 1) * rest <= d1 by { LostBits(n, v, s, g, rest, e, d1); }
    hide *;
    MulEq(e - 1, d, d1 + rest);
    Distrib(d1, rest, e - 1);
    Distrib(e, -1, d1);
    MulEq(e, v * g, d1);
  }

  lemma LostBits(n: nat, v: nat, s: nat, g: nat, rest: nat, e: nat, d1: nat)
    requires n < 0x1_0000_0000_0000_0000 && 0x8000_0000 <= v < 0x1_0000_0000 && s < 32 && g == Pow2(32 - s)
    requires rest < g && e > 0 && d1 == v * g && e * d1 <= n
    ensures (e - 1) * rest <= d1
  {
    if s == 31 {
      assert g == 2 by { assert Pow2(1) == 2; }
      hide *;
      OneBitLost(n, v, rest, e, d1);
    } else {
      assert Pow2(2) == 4;
      Pow2Mono(2, 32 - s);
      hide *;
      SomeBitsLost(n, v, g, rest, e, d1);
    }
  }

  lemma OneBitLost(n: nat, v: nat, rest: nat, e: nat, d1: nat)
    requires n < 0x1_0000_0000_0000_0000 && v >= 0x8000_0000 && rest < 2 && e > 0 && d1 == v * 2 && e * d1 <= n
    ensures (e - 1) * rest <= d1
  {
    MulMono(0x1_0000_0000, d1, e);
    MulMono(rest, 1, e - 1);
  }

  lemma SomeBitsLost(n: nat, v: nat, g: nat, rest: nat, e: nat, d1: nat)
    requires n < 0x1_0000_0000_0000_0000 && v >= 0x8000_0000 && g >= 4 && rest < g && e > 0 && d1 == v * g && e * d1 <= n
    ensures (e - 1) * rest <= d1
  {
    var eg := Product(e, g);
    assert e * d1 == v * eg by { MulAssoc(e, v, g); MulAssoc(v, e, g); }
    MulMono(0x8000_0000, v, eg);
    assert eg < 0x2_0000_0000;
    MulMono(rest, g, e - 1);
    Distrib(e, -1, g);
    MulMono(4, g, v);
  }

  /** 32 x 32 -> 64 from 16-bit halves, none of whose 32-bit sums wraps. */
  method MulWide(a: u32, b: u32) returns (lo: u32, hi: u32)
    ensures hi * 0x1_0000_0000 + lo == a * b
  {
    var ah, al := Halves(a);
    var bh, bl := Halves(b);
    HalfProducts(ah, al, bh, bl);
    var ll: u32, lh: u32, hl: u32, hh: u32 := al * bl, al * bh, ah * bl, ah * bh;
    var ll1, ll0 := Halves(ll);
    var lh1, lh0 := Halves(lh);
    var hl1, hl0 := Halves(hl);
    var mid: u32 := ll1 + lh0 + hl0;
    var m1, m0 := Halves(mid);
    lo := Append16(m0, ll0);
    hi := hh + lh1 + hl1 + m1;
  }

  lemma HalfProducts(ah: nat, al: nat, bh: nat, bl: nat)
    requires ah < 0x1_0000 && al < 0x1_0000 && bh < 0x1_0000 && bl < 0x1_0000
    ensures 0 <= al * bl <= 0xfffe_0001 && 0 <= al * bh <= 0xfffe_0001
    ensures 0 <= ah * bl <= 0xfffe_0001 && 0 <= ah * bh <= 0xfffe_0001
    ensures (ah * 0x1_0000 + al) * (bh * 0x1_0000 + bl)
         == (ah * bh) * 0x1_0000_0000 + (ah * bl + al * bh) * 0x1_0000 + al * bl
  {
    HalfProduct(al, bl);
    HalfProduct(al, bh);
    HalfProduct(ah, bl);
    HalfProduct(ah, bh);
    Distrib(ah * 0x1_0000, al, bh * 0x1_0000 + bl);
  }

  lemma HalfProduct(x: nat, y: nat)
    requires x < 0x1_0000 && y < 0x1_0000
    ensures 0 <= x * y <= 0xfffe_0001
  {
    MulNat(x, y);
    MulMono(x, 0xffff, y);
  }

  /** p = q * d on two words, given that it fits. */
  method TimesDivisor(q: u32, dLo: u32, dHi: u32, ghost p: nat) returns (pLo: u32, pHi: u32)
    requires p == q * (dHi * 0x1_0000_0000 + dLo) && p < 0x1_0000_0000_0000_0000
    ensures pHi * 0x1_0000_0000 + pLo == p
  {
    Distrib(dHi * 0x1_0000_0000, dLo, q);
    MulCommute(dHi, 0x1_0000_0000, q);
    MulNat(q, dHi);
    var h;
    pLo, h := MulWide(q, dLo);
    pHi := h + q * dHi;
  }

  /** The remainder, and one more in the quotient when it is still as large as d. */
  method Correct(q: u32, nLo: u32, nHi: u32, pLo: u32, pHi: u32, dLo: u32, dHi: u32, ghost n: nat, ghost d: nat)
    returns (q': u32, rLo: u32, rHi: u32)
    requires n == nHi * 0x1_0000_0000 + nLo && d == dHi * 0x1_0000_0000 + dLo
    requires pHi * 0x1_0000_0000 + pLo == q * d <= n < q * d + 2 * d && q < 0xffff_ffff
    ensures IsDivMod(n, d, q', rHi * 0x1_0000_0000 + rLo)
  {
    ghost var p := Product(q, d);
    rLo := Sub32(nLo, pLo);
    rHi := Sub32(Sub32(nHi, pHi), Truth(nLo < pLo));
    assert rHi * 0x1_0000_0000 + rLo == n - p;
    q' := q;
    Distrib(q, 1, d);
    if rHi > dHi || (rHi == dHi && rLo >= dLo) {
      q' := q + 1;
      rHi := Sub32(Sub32(rHi, dHi), Truth(rLo < dLo));
      rLo := Sub32(rLo, dLo);
    }
  }

  /** The estimate: n / 2 by the top of d, its low bits dropped, at most one too large. */
  method Estimate(nLo: u32, nHi: u32, dLo: u32, dHi: u32, ghost n: nat, ghost d: nat) returns (e: u32)
    requires n == nHi * 0x1_0000_0000 + nLo && d == dHi * 0x1_0000_0000 + dLo && dHi > 0 && n >= d
    ensures e > 0 && (e - 1) * d <= n < (e + 1) * d
  {
    hide *;
    var v, s, rest := TopOfDivisor(dLo, dHi);
    ghost var g := Pow2(32 - s);
    var u1, u0, b := HalfPair(nLo, nHi);
    var q1, q0, un21, un0, rem := TwoDigits(u1, u0, v);
    var q := Append16(q1, q0);
    ghost var lo;
    e, lo := Right32(q, 31 - s, Pow2(31 - s));
    ghost var h: int := u1;
    EstimateIs(n, h * 0x1_0000_0000 + u0, b, v, q, rem, 31 - s, e, lo);
    EstimateBounds(n, d, v, s, g, rest, e);
  }

  lemma EstimateBounds(n: nat, d: nat, v: nat, s: nat, g: nat, rest: nat, e: nat)
    requires d <= n < 0x1_0000_0000_0000_0000 && 0x8000_0000 <= v < 0x1_0000_0000 && s < 32 && g == Pow2(32 - s)
    requires d == v * g + rest && rest < g && e * (v * g) <= n < (e + 1) * (v * g)
    ensures e > 0 && (e - 1) * d <= n < (e + 1) * d
  {
    hide *;
    if e == 0 { MulOne(v * g, e + 1); }
    EstimateWide(n, d, v, s, g, rest, e);
    MulMono(v * g, d, e + 1);
  }

  /** The branch for d >= 2^32 and n >= d. */
  method WideDivisor(nLo: u32, nHi: u32, dLo: u32, dHi: u32, ghost n: nat, ghost d: nat)
    returns (q: u32, rLo: u32, rHi: u32)
    requires n == nHi * 0x1_0000_0000 + nLo && d == dHi * 0x1_0000_0000 + dLo && dHi > 0 && n >= d
    ensures IsDivMod(n, d, q, rHi * 0x1_0000_0000 + rLo)
  {
    hide *;
    var e := Estimate(nLo, nHi, dLo, dHi, n, d);
    Distrib(e - 1, 2, d);
    var q0 := e;
    if q0 != 0 { q0 := q0 - 1; }
    ghost var p := Product(q0, d);
    var pLo, pHi := TimesDivisor(q0, dLo, dHi, p);
    q, rLo, rHi := Correct(q0, nLo, nHi, pLo, pHi, dLo, dHi, n, d);
  }

  /** __tcc_aeabi_uldivmod_helper: exact quotient and remainder; zero and zero when d is zero. */
  method ULDivMod(nLo: u32, nHi: u32, dLo: u32, dHi: u32) returns (qLo: u32, qHi: u32, rLo: u32, rHi: u32)
    ensures var n, d, q, r := nHi * 0x1_0000_0000 + nLo, dHi * 0x1_0000_0000 + dLo,
                              qHi * 0x1_0000_0000 + qLo, rHi * 0x1_0000_0000 + rLo;
      if d == 0 then q == 0 && r == 0 else IsDivMod(n, d, q, r)
  {
    qLo, qHi, rLo, rHi := 0, 0, 0, 0;
    if Or32(dLo, dHi) != 0 {
      OrIsZero(dLo, dHi);
      if dHi == 0 {
        qLo, qHi, rLo := NarrowDivisor(nLo, nHi, dLo);
      } else if nHi < dHi || (nHi == dHi && nLo < dLo) {
        rLo, rHi := nLo, nHi;
      } else {
        qLo, rLo, rHi := WideDivisor(nLo, nHi, dLo, dHi, nHi * 0x1_0000_0000 + nLo, dHi * 0x1_0000_0000 + dLo);
      }
    } else {
      OrIsZero(dLo, dHi);
    }
  }
}
