/** Signed division built on the two unsigned ones: __tcc_aeabi_ldivmod_helper and __aeabi_uidiv/__aeabi_idiv
    (lib/armeabi.c), __divdi3 and __moddi3 (lib/libtcc1.c). */
module SignedDivision {
  import opened Words
  import opened Division
  import UDivModDi4

  /** Division as C has it: the quotient truncated toward zero, the remainder with the dividend's sign. */
  ghost predicate IsTruncated(n: int, d: int, q: int, r: int)
  {
    n == q * d + r && Abs(r) < Abs(d) && (r < 0 ==> n < 0) && (r > 0 ==> n > 0)
  }

  /** The two's complement reading of a w-bit pattern, m being 2^w. */
  function Signed(x: nat, m: nat): int { if 2 * x < m then x else x - m }

  function Neg(x: nat, m: nat): int { if x == 0 then 0 else m - x }

  function Pair(hi: u32, lo: u32): u64 { hi * 0x1_0000_0000 + lo }

  const M64: nat := 0x1_0000_0000_0000_0000

  lemma MulNeg(a: int, b: int)
    ensures (0 - a) * b == 0 - a * b && a * (0 - b) == 0 - a * b
  {}

  /** Dividing the magnitudes and then setting the signs truncates toward zero. */
  lemma SignsTruncate(n: int, d: int, q: nat, r: nat, sq: int, sr: int)
    requires IsDivMod(Abs(n), Abs(d), q, r)
    requires sq == (if (n < 0) != (d < 0) then 0 - q else q) && sr == if n < 0 then 0 - r else r
    ensures IsTruncated(n, d, sq, sr)
  {
    MulNeg(q, d);
  }

  /** Truncation has one answer, whose magnitudes are those of the unsigned division. */
  lemma TruncatedMagnitudes(n: int, d: int, q: int, r: int)
    requires IsTruncated(n, d, q, r)
    ensures IsDivMod(Abs(n), Abs(d), Abs(q), Abs(r))
    ensures q != 0 ==> (q < 0) == ((n < 0) != (d < 0))
  {
    MulNeg(q, d);
    MulNeg(0 - q, d);
    if q > 0 { MulMono(1, q, Abs(d)); }
    if q < 0 { MulMono(1, 0 - q, Abs(d)); }
  }

  lemma TruncatedUnique(n: int, d: int, q: int, r: int, p: int, s: int)
    requires IsTruncated(n, d, q, r) && IsTruncated(n, d, p, s)
    ensures q == p && r == s
  {
    TruncatedMagnitudes(n, d, q, r);
    TruncatedMagnitudes(n, d, p, s);
    hide IsTruncated;
    DivModUnique(Abs(n), Abs(d), Abs(q), Abs(r), Abs(p), Abs(s));
  }

  /** The quotient is never larger than the dividend, so that it fits the word again. */
  lemma QuotientFits(n: nat, d: nat, q: nat, r: nat)
    requires IsDivMod(n, d, q, r)
    ensures q <= n && r <= n && (q == n && n > 0 ==> d == 1)
  {
    MulMono(1, d, q);
    if d > 1 { MulMono(2, d, q); }
  }

  /** u64_neg */
  method Negate(lo: u32, hi: u32) returns (lo': u32, hi': u32)
    ensures Pair(hi', lo') == Neg(Pair(hi, lo), M64)
  {
    lo' := Add32(0xffff_ffff - lo, 1);
    hi' := Add32(0xffff_ffff - hi, Truth(lo' == 0));
  }

  /** Negating a pattern when its sign bit is set leaves the magnitude, 2^(w-1) included. */
  lemma NegMagnitude(x: nat, m: nat)
    requires x < m && m % 2 == 0
    ensures (if Signed(x, m) < 0 then Neg(x, m) else x) == Abs(Signed(x, m))
  {}

  /** Quotient and remainder patterns qw, rw after the sign step, from magnitudes q, r. */
  lemma Finished(n: int, d: int, q: nat, r: nat, qw: nat, rw: nat, m: nat)
    requires m > 0 && m % 2 == 0 && 0 - m <= 2 * n < m && 0 - m <= 2 * d < m
    requires IsDivMod(Abs(n), Abs(d), q, r)
    requires qw == (if (n < 0) != (d < 0) then Neg(q, m) else q) && rw == if n < 0 then Neg(r, m) else r
    ensures !(2 * n == 0 - m && d == -1) ==> IsTruncated(n, d, Signed(qw, m), Signed(rw, m))
    ensures 2 * n == 0 - m && d == -1 ==> Signed(qw, m) == n && rw == 0
  {
    QuotientFits(Abs(n), Abs(d), q, r);
    if 2 * n == 0 - m && d == -1 {
      Euclid(1, q, r, Abs(n), 0);
    } else {
      assert r < Abs(d);
      assert 2 * q < m || (n < 0) != (d < 0);
      hide IsDivMod;
      SignsTruncate(n, d, q, r, Signed(qw, m), Signed(rw, m));
    }
  }

  /** What both 64-bit signed divisions answer: truncation, except that the one quotient which does not fit wraps. */
  ghost predicate SignedAnswer(n: int, d: int, q: int, r: int)
  {
    if n == -0x8000_0000_0000_0000 && d == -1 then q == n && r == 0 else IsTruncated(n, d, q, r)
  }

  lemma SignedAnswerUnique(n: int, d: int, q: int, r: int, p: int, s: int)
    requires SignedAnswer(n, d, q, r) && SignedAnswer(n, d, p, s)
    ensures q == p && r == s
  {
    if !(n == -0x8000_0000_0000_0000 && d == -1) { TruncatedUnique(n, d, q, r, p, s); }
  }

  /** __tcc_aeabi_ldivmod_helper; zero and zero when d is zero. */
  method LDivMod(nLo: u32, nHi: u32, dLo: u32, dHi: u32) returns (qLo: u32, qHi: u32, rLo: u32, rHi: u32)
    ensures var n, d := Signed(Pair(nHi, nLo), M64), Signed(Pair(dHi, dLo), M64);
      if d == 0 then Pair(qHi, qLo) == 0 && Pair(rHi, rLo) == 0
      else SignedAnswer(n, d, Signed(Pair(qHi, qLo), M64), Signed(Pair(rHi, rLo), M64))
  {
    hide IsDivMod, IsTruncated;
    ghost var n, d := Signed(Pair(nHi, nLo), M64), Signed(Pair(dHi, dLo), M64);
    NegMagnitude(Pair(nHi, nLo), M64);
    NegMagnitude(Pair(dHi, dLo), M64);
    var qNeg, rNeg: bit := 0, 0;
    var unLo, unHi, udLo, udHi := nLo, nHi, dLo, dHi;
    if nHi >= 0x8000_0000 {
      qNeg := Xor1(qNeg, 1);
      rNeg := 1;
      unLo, unHi := Negate(unLo, unHi);
    }
    if dHi >= 0x8000_0000 {
      qNeg := Xor1(qNeg, 1);
      udLo, udHi := Negate(udLo, udHi);
    }
    assert Pair(unHi, unLo) == Abs(n) && Pair(udHi, udLo) == Abs(d);
    qLo, qHi, rLo, rHi := ULDivMod(unLo, unHi, udLo, udHi);
    ghost var q, r := Pair(qHi, qLo), Pair(rHi, rLo);
    if qNeg == 1 { qLo, qHi := Negate(qLo, qHi); }
    if rNeg == 1 { rLo, rHi := Negate(rLo, rHi); }
    if d != 0 { Finished(n, d, q, r, Pair(qHi, qLo), Pair(rHi, rLo), M64); }
  }

  /** __divdi3 and __moddi3 share this; the divisor is not zero. */
  method DivMod3(uHi: u32, uLo: u32, vHi: u32, vLo: u32) returns (qHi: u32, qLo: u32, rHi: u32, rLo: u32)
    requires Pair(vHi, vLo) != 0
    ensures SignedAnswer(Signed(Pair(uHi, uLo), M64), Signed(Pair(vHi, vLo), M64),
                         Signed(Pair(qHi, qLo), M64), Signed(Pair(rHi, rLo), M64))
  {
    hide IsDivMod, IsTruncated;
    ghost var n, d := Signed(Pair(uHi, uLo), M64), Signed(Pair(vHi, vLo), M64);
    NegMagnitude(Pair(uHi, uLo), M64);
    NegMagnitude(Pair(vHi, vLo), M64);
    var c, m := false, false;
    var u1, u0, v1, v0 := uHi, uLo, vHi, vLo;
    if uHi >= 0x8000_0000 {
      c, m := !c, !m;
      u0, u1 := Negate(u0, u1);
    }
    if vHi >= 0x8000_0000 {
      c := !c;
      v0, v1 := Negate(v0, v1);
    }
    assert Pair(u1, u0) == Abs(n) && Pair(v1, v0) == Abs(d);
    qHi, qLo, rHi, rLo := UDivModDi4.UDivMod(u1, u0, v1, v0);
    ghost var q, r := Pair(qHi, qLo), Pair(rHi, rLo);
    if c { qLo, qHi := Negate(qLo, qHi); }
    if m { rLo, rHi := Negate(rLo, rHi); }
    Finished(n, d, q, r, Pair(qHi, qLo), Pair(rHi, rLo), M64);
  }

  /** The ARM helper and the generic one give the same words on every pair with d not zero. */
  method HelpersAgree(nHi: u32, nLo: u32, dHi: u32, dLo: u32) returns (unsignedSame: bool, signedSame: bool)
    requires Pair(dHi, dLo) != 0
    ensures unsignedSame && signedSame
  {
    unsignedSame := UnsignedHelpersAgree(nHi, nLo, dHi, dLo);
    signedSame := SignedHelpersAgree(nHi, nLo, dHi, dLo);
  }

  method UnsignedHelpersAgree(nHi: u32, nLo: u32, dHi: u32, dLo: u32) returns (same: bool)
    requires Pair(dHi, dLo) != 0
    ensures same
  {
    var qLo, qHi, rLo, rHi := ULDivMod(nLo, nHi, dLo, dHi);
    var pHi, pLo, sHi, sLo := UDivModDi4.UDivMod(nHi, nLo, dHi, dLo);
    assert IsDivMod(Pair(nHi, nLo), Pair(dHi, dLo), Pair(qHi, qLo), Pair(rHi, rLo));
    assert IsDivMod(Pair(nHi, nLo), Pair(dHi, dLo), Pair(pHi, pLo), Pair(sHi, sLo));
    hide *;
    DivModUnique(Pair(nHi, nLo), Pair(dHi, dLo), Pair(qHi, qLo), Pair(rHi, rLo), Pair(pHi, pLo), Pair(sHi, sLo));
    SameWords(qHi, qLo, pHi, pLo);
    SameWords(rHi, rLo, sHi, sLo);
    same := qLo == pLo && qHi == pHi && rLo == sLo && rHi == sHi;
  }

  lemma SameWords(aHi: u32, aLo: u32, bHi: u32, bLo: u32)
    requires Pair(aHi, aLo) == Pair(bHi, bLo)
    ensures aHi == bHi && aLo == bLo
  {}

  method SignedHelpersAgree(nHi: u32, nLo: u32, dHi: u32, dLo: u32) returns (same: bool)
    requires Pair(dHi, dLo) != 0
    ensures same
  {
    var qLo, qHi, rLo, rHi := LDivMod(nLo, nHi, dLo, dHi);
    var pHi, pLo, sHi, sLo := DivMod3(nHi, nLo, dHi, dLo);
    hide *;
    SignedAnswerUnique(Signed(Pair(nHi, nLo), M64), Signed(Pair(dHi, dLo), M64),
                       Signed(Pair(qHi, qLo), M64), Signed(Pair(rHi, rLo), M64),
                       Signed(Pair(pHi, pLo), M64), Signed(Pair(sHi, sLo), M64));
    SamePair(qHi, qLo, pHi, pLo);
    SamePair(rHi, rLo, sHi, sLo);
    same := qLo == pLo && qHi == pHi && rLo == sLo && rHi == sHi;
  }

  lemma SamePair(aHi: u32, aLo: u32, bHi: u32, bLo: u32)
    requires Signed(Pair(aHi, aLo), M64) == Signed(Pair(bHi, bLo), M64)
    ensures aHi == bHi && aLo == bLo
  {
    SameWords(aHi, aLo, bHi, bLo);
  }

  // 32 bits: one bit a step.

  /** (r << 1) | ((n >> i) & 1): the next bit of the dividend. */
  method NextBit(n: u32, r: u32, i: nat, ghost p: nat, ghost t: nat) returns (r': u32, ghost t': nat)
    requires i < 32 && p == Pow2(i) && r < 0x8000_0000
    requires t * (2 * p) <= n < (t + 1) * (2 * p)
    ensures t' * p <= n < (t' + 1) * p && r' == 2 * r + (t' - 2 * t) && 0 <= t' - 2 * t <= 1
  {
    assert Pow2(1) == 2 && Pow2(31) == 0x8000_0000 by { Pow2Values(); }
    hide *;
    var s, b;
    ghost var lo, hi, h, l;
    s, lo := Right32(n, i, p);
    b, hi := Mask64(s, 1, 2);
    BitOf(n, p, t, s, lo, b, hi);
    r', h, l := Left32(r, 1, 0x8000_0000, 2);
    Euclid(0x8000_0000, h, l, 0, r);
    r' := Join32(r', b, 1, 2, r);
    t' := s;
    Distrib(s, 1, p);
  }

  lemma BitOf(n: nat, p: nat, t: nat, s: nat, lo: nat, b: nat, hi: nat)
    requires n == s * p + lo && lo < p && s == hi * 2 + b && b < 2 && t * (2 * p) <= n < (t + 1) * (2 * p)
    ensures hi == t
  {
    var x := n - t * (2 * p);
    Distrib(t, 1, 2 * p);
    Distrib(hi * 2, b, p);
    MulAssoc(hi, 2, p);
    MulMono(b, 1, p);
    Euclid(2 * p, hi, b * p + lo, t, x);
  }

  /** q |= 1u << i */
  method SetBit(q: u32, i: nat, ghost p: nat, ghost c: nat) returns (q': u32)
    requires i < 32 && p == Pow2(i) && q == c * (2 * p)
    ensures q' == (2 * c + 1) * p
  {
    ghost var s := Pow2(32 - i);
    assert s >= 2 && Pow2(i + 1) == 2 * p;
    hide *;
    var b;
    ghost var h, l;
    b, h, l := Left32(1, i, s, p);
    Euclid(s, h, l, 0, 1);
    MulOne(p, 1);
    q' := Join32(q, b, i + 1, 2 * p, c);
    MulAssoc(c, 2, p);
    Distrib(2 * c, 1, p);
  }

  /** The 32 steps of restoring division; the running remainder never outgrows the word. */
  method Restoring(n: u32, d: u32) returns (q: u32, r: u32)
    requires d > 0
    ensures IsDivMod(n, d, q, r)
  {
    q, r := 0, 0;
    ghost var c: nat, t: nat, p: nat := 0, 0, 0x1_0000_0000;
    assert Pow2(32) == 0x1_0000_0000 by { Pow2Values(); }
    for k := 0 to 32
      invariant p == Pow2(32 - k) && q == c * p && t == c * d + r && r < d
      invariant t * p <= n < (t + 1) * p
    {
      ghost var half := Pow2(31 - k);
      TopBitsFit(n, t, p, half, k, r, c, d);
      q, r, c, t := Step(n, d, q, r, 31 - k, half, c, t);
      p := half;
    }
    MulOne(c, p);
  }

  /** __aeabi_uidiv */
  method UIDiv(n: u32, d: u32) returns (q: u32)
    ensures if d == 0 then q == 0 else q == n / d
  {
    if d == 0 { return 0; }
    var r;
    q, r := Restoring(n, d);
    DivUnique(n, d, q, r);
  }

  lemma TopBitsFit(n: u32, t: nat, p: nat, half: nat, k: nat, rem: nat, c: nat, d: nat)
    requires k < 32 && p == Pow2(32 - k) && half == Pow2(31 - k) && t * p <= n && t == c * d + rem
    ensures p == 2 * half && rem < 0x8000_0000
  {
    MulNat(c, d);
    MulMono(2, p, t);
  }

  method Step(n: u32, d: u32, q: u32, rem: u32, i: nat, ghost p: nat, ghost c: nat, ghost t: nat)
    returns (q': u32, rem': u32, ghost c': nat, ghost t': nat)
    requires i < 32 && p == Pow2(i) && q == c * (2 * p) && t == c * d + rem && rem < d && rem < 0x8000_0000
    requires t * (2 * p) <= n < (t + 1) * (2 * p)
    ensures q' == c' * p && t' == c' * d + rem' && rem' < d && t' * p <= n < (t' + 1) * p
  {
    hide Pow2;
    q', c' := q, 2 * c;
    rem', t' := NextBit(n, rem, i, p, t);
    MulAssoc(2, c, d);
    MulAssoc(c, 2, p);
    if !(rem' < d) {
      rem' := rem' - d;
      q' := SetBit(q, i, p, c);
      c' := c' + 1;
      Distrib(2 * c, 1, d);
    }
  }

  /** __aeabi_idiv */
  method IDiv(n: u32, d: u32) returns (q: u32)
    ensures var sn, sd, m := Signed(n, 0x1_0000_0000), Signed(d, 0x1_0000_0000), 0x1_0000_0000;
      if sd == 0 then q == 0
      else if sn == -0x8000_0000 && sd == -1 then Signed(q, m) == sn
      else exists r :: IsTruncated(sn, sd, Signed(q, m), r)
  {
    if d == 0 { return 0; }
    ghost var sn, sd := Signed(n, 0x1_0000_0000), Signed(d, 0x1_0000_0000);
    NegMagnitude(n, 0x1_0000_0000);
    NegMagnitude(d, 0x1_0000_0000);
    var neg: bit := 0;
    var un, ud := n, d;
    if n >= 0x8000_0000 {
      neg := Xor1(neg, 1);
      un := Sub32(0, n);
    }
    if d >= 0x8000_0000 {
      neg := Xor1(neg, 1);
      ud := Sub32(0, d);
    }
    assert un == Abs(sn) && ud == Abs(sd);
    var p := UIDiv(un, ud);
    ghost var r := un % ud;
    DivMod(un, ud);
    assert IsDivMod(un, ud, p, r);
    hide IsDivMod, IsTruncated;
    q := if neg == 1 then Sub32(0, p) else p;
    ghost var rw: nat := if sn < 0 then (if r == 0 then 0 else 0x1_0000_0000 - r) else r;
    Finished(sn, sd, p, r, q, rw, 0x1_0000_0000);
  }
}
