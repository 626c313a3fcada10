/** Integers to and from binary128 (lib/lib-arm64.c). */
module Integers {
  import opened Words
  import opened IeeeFormat
  import opened Quad
  import opened Widen

  type i64 = x: int | -0x8000_0000_0000_0000 <= x < 0x8000_0000_0000_0000

  /** f is exactly the integer a; zero is +0. */
  ghost predicate IsFloat(a: int, f: U128)
  {
    Sign(f) == (if a < 0 then 1 else 0) && Mag(f) < InfMag && Units(112, Mag(f)) == Abs(a) * Pow2(UnitExp())
  }

  /** The integer part of the magnitude. */
  ghost function Whole(f: U128): nat
  {
    DivNat(Units(112, Mag(f)), Pow2(UnitExp()));
    Units(112, Mag(f)) / Pow2(UnitExp())
  }

  /** A magnitude with a sign, cut to the range of a signed 64-bit integer. */
  function Saturated(sgn: bit, q: nat): i64
  {
    if q >= 0x8000_0000_0000_0000 then if sgn == 1 then -0x8000_0000_0000_0000 else 0x7fff_ffff_ffff_ffff
    else if sgn == 1 then 0 - q else q
  }

  function SaturatedUnsigned(sgn: bit, q: nat): u64
  {
    if sgn == 1 then 0 else if q >= 0x1_0000_0000_0000_0000 then 0xffff_ffff_ffff_ffff else q
  }

  /** r is f truncated toward zero, saturating at the ends of the range. */
  ghost predicate IsFixed(f: U128, r: i64) { r == Saturated(Sign(f), Whole(f)) }

  ghost predicate IsFixedUnsigned(f: U128, r: u64) { r == SaturatedUnsigned(Sign(f), Whole(f)) }

  // Normalising a word.

  /** Shifts by 32, 16, ..., 1, each taken when the top bits it would lose are clear. */
  method NormaliseWord64(a: u64, exp: int) returns (m: u64, e: int)
    requires a > 0
    ensures exp - 64 < e <= exp && m == Doubled(a, exp - e) && m >= 0x8000_0000_0000_0000
  {
    assert Pow2(63) == 0x8000_0000_0000_0000 && Pow2(0) == 1 by { Pow2Values(); }
    assert Doubled(a, 0) == a;
    hide *;
    m, e := a, exp;
    var i := 32;
    ghost var w := 0;
    while i != 0
      invariant i in {32, 16, 8, 4, 2, 1, 0} && w == if i == 0 then 63 else 64 - 2 * i
      invariant exp - 64 < e - (63 - w) && e <= exp && m >= Pow2(w) && m == Doubled(a, exp - e)
    {
      m, e := WordStep(m, e, i, a, exp);
      w := 64 - i;
      i := i / 2;
    }
  }

  method WordStep(x: u64, f: int, i: nat, ghost a: nat, ghost exp: int) returns (m: u64, e: int)
    requires 0 < i <= 32 && f <= exp && Pow2(64 - 2 * i) <= x && x == Doubled(a, exp - f)
    ensures f - i <= e <= f && m >= Pow2(64 - i) && m == Doubled(a, exp - e)
  {
    hide *;
    m, e := x, f;
    var z := ShiftsOut(m, 64 - i);
    if z {
      m := ShiftUp(m, i, a, exp - e);
      e := e - i;
    }
  }

  /** mnt <<= i, when the top i bits are clear. */
  method ShiftUp(x: u64, i: nat, ghost a: nat, ghost s: nat) returns (y: u64)
    requires 0 < i <= 32 && Pow2(64 - 2 * i) <= x < Pow2(64 - i) && x == Doubled(a, s)
    ensures y >= Pow2(64 - i) && y == Doubled(a, s + i)
  {
    assert Pow2(64) == 0x1_0000_0000_0000_0000 by { Pow2Values(); }
    hide *;
    Pow2Add(64 - i, i);
    MulMonoStrict(x, Pow2(64 - i), Pow2(i));
    y := Scale64(x, i, Pow2(i));
    Pow2Add(64 - 2 * i, i);
    MulMono(Pow2(64 - 2 * i), x, Pow2(i));
    DoubledIs(x, i);
    DoubledAdd(a, s, i);
  }

  /** x0 = mnt << 49 and mnt << 1 >> 16 */
  method Spread(m: u64) returns (h: u64, l: u64)
    requires m >= 0x8000_0000_0000_0000
    ensures h < 0x1_0000_0000_0000
    ensures h * 0x1_0000_0000_0000_0000 + l == (m - 0x8000_0000_0000_0000) * 0x2_0000_0000_0000
  {
    assert Pow2(63) == 0x8000_0000_0000_0000 && Pow2(15) == 0x8000 && Pow2(16) == 0x1_0000 && Pow2(1) == 2 by { Pow2Values(); }
    assert Pow2(49) == 0x2_0000_0000_0000 by { Pow2Values(); assert Pow2(49) == 2 * Pow2(48); }
    hide *;
    var t, hi, lo := Left64(m, 1, 0x8000_0000_0000_0000, 2);
    Euclid(0x8000_0000_0000_0000, hi, lo, 1, m - 0x8000_0000_0000_0000);
    ghost var r16, h15, l15;
    h, r16 := Right64(t, 16, 0x1_0000);
    l, h15, l15 := Left64(m, 49, 0x8000, 0x2_0000_0000_0000);
    Euclid(0x8000, h15, l15, 0x1_0000_0000_0000 + h, lo - h * 0x8000);
  }

  /** The common part of __floatditf and __floatunditf. */
  method FloatMagnitude(sgn: bit, a: u64) returns (f: U128)
    requires a > 0
    ensures Sign(f) == sgn && Mag(f) < InfMag && Units(112, Mag(f)) == a * Pow2(UnitExp())
  {
    assert UnitExp() == 16494;
    hide *;
    var m, e := NormaliseWord64(a, 16446);
    var h, l := Spread(m);
    f := Pack(sgn, e, h, l);
    FloatExact(a, m, e, h, l, Mag(f));
  }

  lemma FloatExact(a: nat, m: nat, e: int, h: nat, l: nat, mag: nat)
    requires 16446 - 64 < e <= 16446 && m == Doubled(a, 16446 - e) && 0x8000_0000_0000_0000 <= m < 0x1_0000_0000_0000_0000
    requires h * 0x1_0000_0000_0000_0000 + l == (m - 0x8000_0000_0000_0000) * 0x2_0000_0000_0000
    requires mag == e * P112 + h * 0x1_0000_0000_0000_0000 + l
    ensures mag < InfMag && Units(112, mag) == a * Pow2(16494)
  {
    var big := m * 0x2_0000_0000_0000;
    assert mag < InfMag && mag == (e - 1) * P112 + big;
    assert Pow2(63) == 0x8000_0000_0000_0000 by { Pow2Values(); }
    assert Pow2(49) == 0x2_0000_0000_0000 by { Pow2Values(); assert Pow2(49) == 2 * Pow2(48); }
    hide *;
    WidenedUnits(63, m, 49, e - 1, big, mag);
    DoubledIs(a, 16446 - e);
    MulPow2(a, 16446 - e, 49 + (e - 1));
  }

  lemma FloatZero(f: U128)
    requires Sign(f) == 0 && Mag(f) == 0
    ensures IsFloat(0, f)
  {
    assert Units(112, 0) == 0;
    var p := Pow2(UnitExp());
    assert Abs(0) * p == 0;
    hide Pow2, Units;
  }

  /** __floatditf */
  method FloatDiTf(a: i64) returns (f: U128)
    ensures IsFloat(a, f)
  {
    if a == 0 {
      f := U128(0, 0);
      FloatZero(f);
    } else {
      hide Units, Pow2, Mag, Sign;
      var sgn: bit, mnt: u64 := 0, if a < 0 then a + 0x1_0000_0000_0000_0000 else a;
      if a < 0 {
        sgn := 1;
        mnt := Sub64(0, mnt);
      }
      f := FloatMagnitude(sgn, mnt);
    }
  }

  /** __floatunditf */
  method FloatUnDiTf(a: u64) returns (f: U128)
    ensures IsFloat(a, f)
  {
    if a == 0 {
      f := U128(0, 0);
      FloatZero(f);
    } else {
      hide Units, Pow2, Mag, Sign;
      f := FloatMagnitude(0, a);
    }
  }

  // Truncation to an integer.

  lemma WholeIs(f: U128, m: nat, t: nat, q: nat, k: nat, rem: nat)
    requires Units(112, Mag(f)) == m * Pow2(t) && m == q * Pow2(k) + rem && rem < Pow2(k) && t + k == UnitExp()
    ensures Whole(f) == q
  {
    hide Pow2, Units, Mag, UnitExp;
    var p := Pow2(t);
    Pow2Add(k, t);
    MulEq(p, m, q * Pow2(k) + rem);
    Distrib(q * Pow2(k), rem, p);
    MulAssoc(q, Pow2(k), p);
    MulNat(rem, p);
    MulMonoStrict(rem, Pow2(k), p);
    DivUnique(Units(112, Mag(f)), Pow2(UnitExp()), q, rem * p);
  }

  lemma WholeBig(f: U128, m: nat, t: nat, b: nat)
    requires Units(112, Mag(f)) == m * Pow2(t) && m >= P112 && 112 + t >= b + UnitExp()
    ensures Whole(f) >= Pow2(b)
  {
    assert Pow2(112) == P112 by { Constants(); }
    hide Pow2, Units, Mag, UnitExp, P112;
    var n, d := Units(112, Mag(f)), Pow2(UnitExp());
    assert Pow2(b) * d <= n by { BigUnits(m, t, b, UnitExp(), n); }
    QuotientAtLeast(n, d, Pow2(b));
  }

  lemma BigUnits(m: nat, t: nat, b: nat, k: nat, n: nat)
    requires n == m * Pow2(t) && m >= Pow2(112) && 112 + t >= b + k
    ensures Pow2(b) * Pow2(k) <= n
  {
    hide *;
    Pow2Add(b, k);
    Pow2Add(112, t);
    Pow2Mono(b + k, 112 + t);
    MulMono(Pow2(112), m, Pow2(t));
  }

  lemma QuotientAtLeast(n: nat, d: nat, c: nat)
    requires d > 0 && c * d <= n
    ensures n / d >= c
  {
    DivMod(n, d);
    if n / d < c {
      MulMono(n / d + 1, c, d);
      Distrib(n / d, 1, d);
    }
  }

  /** (a.x1 << 15 | a.x0 >> 49) >> j */
  method TopBits(m: U128, j: nat) returns (x: u64, ghost rem: nat)
    requires P112 <= Nat128(m) < 2 * P112 && j < 64
    ensures Nat128(m) == x * Pow2(49 + j) + rem && rem < Pow2(49 + j) && (j > 0 ==> x < 0x8000_0000_0000_0000)
  {
    assert Pow2(49) == 0x2_0000_0000_0000 && Pow2(15) == 0x8000 by { Pow2Values(); assert Pow2(49) == 2 * Pow2(48); }
    assert m.x1 < 0x2_0000_0000_0000;
    var w, r49 := Word49(m);
    hide *;
    ghost var lo;
    x, lo := Right64(w, j, Pow2(j));
    rem := TopSum(Nat128(m), w, r49, x, j, lo);
    if j > 0 { HalfWord(w, x, j, lo); }
  }

  method Word49(m: U128) returns (w: u64, ghost r: nat)
    requires Nat128(m) < 2 * P112
    ensures Nat128(m) == w * 0x2_0000_0000_0000 + r && r < 0x2_0000_0000_0000
  {
    assert Pow2(49) == 0x2_0000_0000_0000 && Pow2(15) == 0x8000 by { Pow2Values(); assert Pow2(49) == 2 * Pow2(48); }
    assert m.x1 < 0x2_0000_0000_0000;
    var h := Scale64(m.x1, 15, 0x8000);
    var l;
    l, r := Right64(m.x0, 49, 0x2_0000_0000_0000);
    w := Join64(h, l, 15, 0x8000, m.x1);
  }

  lemma TopSum(m: nat, w: nat, r49: nat, x: nat, j: nat, lo: nat) returns (rem: nat)
    requires m == w * 0x2_0000_0000_0000 + r49 && r49 < 0x2_0000_0000_0000 == Pow2(49)
    requires w == x * Pow2(j) + lo && lo < Pow2(j)
    ensures m == x * Pow2(49 + j) + rem && rem < Pow2(49 + j)
  {
    hide *;
    var p := Pow2(j);
    Pow2Add(j, 49);
    Distrib(x * p, lo, 0x2_0000_0000_0000);
    MulAssoc(x, p, 0x2_0000_0000_0000);
    MulMono(lo, p - 1, 0x2_0000_0000_0000);
    rem := lo * 0x2_0000_0000_0000 + r49;
  }

  lemma HalfWord(w: u64, x: nat, j: nat, lo: nat)
    requires j > 0 && w == x * Pow2(j) + lo
    ensures x < 0x8000_0000_0000_0000
  {
    Pow2Mono(1, j);
    MulMono(2, Pow2(j), x);
  }

  lemma FixedBelow(f: U128, q: nat, r: i64)
    requires Whole(f) == q < 0x8000_0000_0000_0000 && r == if Sign(f) == 1 then 0 - q else q
    ensures IsFixed(f, r)
  {
    hide Whole, Sign;
  }

  lemma FixedAbove(f: U128, r: i64)
    requires Whole(f) >= 0x8000_0000_0000_0000
    requires r == if Sign(f) == 1 then -0x8000_0000_0000_0000 else 0x7fff_ffff_ffff_ffff
    ensures IsFixed(f, r)
  {
    hide Whole, Sign;
  }

  /** __fixtfdi */
  method FixTfDi(f: U128) returns (r: i64)
    ensures IsFixed(f, r)
  {
    assert UnitExp() == 16494;
    assert Pow2(63) == 0x8000_0000_0000_0000 by { Pow2Values(); }
    hide *;
    var sgn, exp, m := F3Unpack(f);
    if exp < 16383 {
      WholeSmall(f, Nat128(m), exp - 1);
      r := 0;
      FixedBelow(f, 0, r);
    } else if exp > 16445 {
      WholeBig(f, Nat128(m), exp - 1, 63);
      r := if sgn == 1 then -0x8000_0000_0000_0000 else 0x7fff_ffff_ffff_ffff;
      FixedAbove(f, r);
    } else {
      r := FixMiddle(f, sgn, exp, m);
    }
  }

  method FixMiddle(f: U128, sgn: bit, exp: int, m: U128) returns (r: i64)
    requires sgn == Sign(f) && 16383 <= exp <= 16445 && P112 <= Nat128(m) < 2 * P112
    requires Units(112, Mag(f)) == Nat128(m) * Pow2(exp - 1)
    ensures IsFixed(f, r)
  {
    hide *;
    var x := WholeBits(f, exp, m);
    var y: int := x;
    r := if sgn == 1 then -y else y;
    FixedBelow(f, x, r);
  }

  method WholeBits(f: U128, exp: int, m: U128) returns (x: u64)
    requires 16383 <= exp <= 16446 && P112 <= Nat128(m) < 2 * P112
    requires Units(112, Mag(f)) == Nat128(m) * Pow2(exp - 1)
    ensures Whole(f) == x && (exp < 16446 ==> x < 0x8000_0000_0000_0000)
  {
    assert UnitExp() == 16494;
    hide *;
    ghost var rem;
    x, rem := TopBits(m, 16446 - exp);
    WholeIs(f, Nat128(m), exp - 1, x, 49 + (16446 - exp), rem);
  }

  lemma WholeSmall(f: U128, m: nat, t: nat)
    requires Units(112, Mag(f)) == m * Pow2(t) && m < 2 * P112 && t + 113 <= UnitExp()
    ensures Whole(f) == 0
  {
    assert Pow2(113) == 2 * P112 by { Constants(); }
    hide Pow2, Units, Mag, Whole, P112, UnitExp;
    Pow2Mono(113, UnitExp() - t);
    WholeIs(f, m, t, 0, UnitExp() - t, m);
  }

  /** __fixunstfdi */
  method FixUnsTfDi(f: U128) returns (r: u64)
    ensures IsFixedUnsigned(f, r)
  {
    var sgn, exp, m := F3Unpack(f);
    assert UnitExp() == 16494;
    assert Pow2(64) == 0x1_0000_0000_0000_0000 by { Pow2Values(); }
    hide Units, Pow2, Whole, Mag, UnitExp, Nat128;
    if sgn == 1 || exp < 16383 {
      if sgn == 0 { WholeSmall(f, Nat128(m), exp - 1); }
      r := 0;
    } else if exp > 16446 {
      WholeBig(f, Nat128(m), exp - 1, 64);
      r := 0xffff_ffff_ffff_ffff;
    } else {
      r := WholeBits(f, exp, m);
    }
  }

  /** Every 64-bit integer survives the trip through binary128. */
  lemma IntegerRoundTrip(a: int, f: U128, r: i64)
    requires IsFloat(a, f) && IsFixed(f, r)
    ensures r == Saturated(if a < 0 then 1 else 0, Abs(a))
    ensures -0x8000_0000_0000_0000 <= a < 0x8000_0000_0000_0000 ==> r == a
  {
    hide Units, Pow2, Mag, UnitExp;
    DivUnique(Units(112, Mag(f)), Pow2(UnitExp()), Abs(a), 0);
  }

  lemma UnsignedRoundTrip(a: u64, f: U128, r: u64)
    requires IsFloat(a, f) && IsFixedUnsigned(f, r)
    ensures r == a
  {
    hide Units, Pow2, Mag, UnitExp;
    DivUnique(Units(112, Mag(f)), Pow2(UnitExp()), Abs(a), 0);
  }

  /** __floatditf, then __fixtfdi. */
  method SignedThereAndBack(a: i64) returns (r: i64)
    ensures r == a
  {
    hide IsFloat, IsFixed;
    var f := FloatDiTf(a);
    r := FixTfDi(f);
    IntegerRoundTrip(a, f, r);
  }

  /** __floatunditf, then __fixunstfdi. */
  method UnsignedThereAndBack(a: u64) returns (r: u64)
    ensures r == a
  {
    hide IsFloat, IsFixedUnsigned;
    var f := FloatUnDiTf(a);
    r := FixUnsTfDi(f);
    UnsignedRoundTrip(a, f, r);
  }
}
