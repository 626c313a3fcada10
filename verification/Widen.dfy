/** __extenddftf2 and __extendsftf2 (lib/lib-arm64.c): widening is exact, and narrowing undoes it. */
module Widen {
  import opened Words
  import opened IeeeFormat
  import opened Quad
  import opened Narrow

  /** One unit of the narrow format is 2^k units of binary128. */
  ghost predicate SameValue(frac: nat, a: nat, m: nat, k: nat)
  {
    Units(112, m) == Units(frac, a) * Pow2(k)
  }

  /** The widened datum: same sign, same value, NaNs made quiet with their fraction kept. */
  ghost predicate IsWidened64(a: u64, f: U128)
  {
    && Sign(f) == Sign64(a)
    && if Mag64(a) > Inf64 then Mag(f) == InfMag + Quieted(Mag64(a) - Inf64, 0x8_0000_0000_0000) * 0x1000_0000_0000_0000
       else if Mag64(a) == Inf64 then Mag(f) == InfMag
       else Mag(f) < InfMag && SameValue(52, Mag64(a), Mag(f), UnitExp() - 1074)
  }

  ghost predicate IsWidened32(a: u32, f: U128)
  {
    && Sign(f) == Sign32(a)
    && if Mag32(a) > Inf32
       then Mag(f) == InfMag + Quieted(Mag32(a) - Inf32, 0x40_0000) * 0x200_0000_0000_0000_0000_0000
       else if Mag32(a) == Inf32 then Mag(f) == InfMag
       else Mag(f) < InfMag && SameValue(23, Mag32(a), Mag(f), UnitExp() - 149)
  }

  /** A mantissa of frac + 1 bits moved to the top of a binary128 one keeps its value. */
  lemma WidenedUnits(frac: nat, mant: nat, s: nat, e: nat, big: nat, m: nat)
    requires frac + s == 112 && Pow2(frac) <= mant < 2 * Pow2(frac)
    requires big == mant * Pow2(s) && m == e * P112 + big
    ensures Units(112, m) == mant * Pow2(s + e)
  {
    assert Pow2(112) == P112 by { Constants(); }
    hide *;
    Pow2Add(frac, s);
    MulMono(Pow2(frac), mant, Pow2(s));
    MulMonoStrict(mant, 2 * Pow2(frac), Pow2(s));
    MulAssoc(2, Pow2(frac), Pow2(s));
    UnpackedUnits(m, big, e);
    MulPow2(mant, s, e);
  }

  // Fields of a double.

  /** a >> 63, a << 1 >> 53 and the fraction as a << 12 sees it. */
  method Fields64(a: u64) returns (sgn: bit, e: nat, ghost fr: nat)
    ensures a == sgn * 0x8000_0000_0000_0000 + e * 0x10_0000_0000_0000 + fr && fr < 0x10_0000_0000_0000 && e < 2048
  {
    assert Pow2(63) == 0x8000_0000_0000_0000 && Pow2(1) == 2 by { Pow2Values(); }
    assert Pow2(53) == 0x20_0000_0000_0000 by { Pow2Odd(); assert Pow2(53) == 2 * Pow2(52); }
    hide *;
    var s, r63 := Right64(a, 63, 0x8000_0000_0000_0000);
    var t, hi, lo := Left64(a, 1, 0x8000_0000_0000_0000, 2);
    Euclid(0x8000_0000_0000_0000, s, r63, hi, lo);
    var u, r53 := Right64(t, 53, 0x20_0000_0000_0000);
    sgn, e := s, u;
    fr := lo - u * 0x10_0000_0000_0000;
  }

  /** y << 12 >> 16 and y << 60: the low 52 bits of y at the top of the fraction field. */
  method Fraction(y: u64, ghost hi: nat, ghost fr: nat) returns (h: u64, l: u64)
    requires y == hi * 0x10_0000_0000_0000 + fr && fr < 0x10_0000_0000_0000
    ensures h < 0x1_0000_0000_0000 && h * 0x1_0000_0000_0000_0000 + l == fr * 0x1000_0000_0000_0000
    ensures l == Shl(64, y, 60)
  {
    assert Pow2(52) == 0x10_0000_0000_0000 by { Pow2Odd(); }
    assert Pow2(12) == 0x1000 && Pow2(4) == 16 && Pow2(60) == 0x1000_0000_0000_0000 by { Pow2Middle(); Pow2Add(6, 6); }
    assert Pow2(16) == 0x1_0000 by { Pow2Values(); }
    hide *;
    var t, hi12, lo12 := Left64(y, 12, 0x10_0000_0000_0000, 0x1000);
    Euclid(0x10_0000_0000_0000, hi12, lo12, hi, fr);
    ghost var rem;
    h, rem := Right64(t, 16, 0x1_0000);
    ghost var hi60, lo60;
    l, hi60, lo60 := Left64(y, 60, 16, 0x1000_0000_0000_0000);
    FractionSum(y, hi, fr, h, rem, hi60, lo60);
  }

  lemma FractionSum(y: nat, hi: nat, fr: nat, h: nat, rem: nat, hi60: nat, lo60: nat)
    requires y == hi * 0x10_0000_0000_0000 + fr && fr < 0x10_0000_0000_0000
    requires fr * 0x1000 == h * 0x1_0000 + rem && rem < 0x1_0000
    requires y == hi60 * 16 + lo60 && lo60 < 16
    ensures h < 0x1_0000_0000_0000 && h * 16 + lo60 == fr
  {
    Euclid(16, hi * 0x1_0000_0000_0000 + h, fr - h * 16, hi60, lo60);
  }

  // Doubles.

  /** Sign, exponent and fraction put together; the fraction's 52 bits lead the field. */
  method Pack(sgn: bit, e: nat, h: u64, l: u64) returns (f: U128)
    requires e < 0x8000 && h < 0x1_0000_0000_0000
    ensures Sign(f) == sgn && Mag(f) == e * P112 + h * 0x1_0000_0000_0000_0000 + l
  {
    var x1 := PackHigh(sgn, e, h);
    f := U128(l, x1);
  }

  /** An infinity or NaN: the quiet bit is set when the fraction is not zero. */
  method WidenSpecial64(a: u64, sgn: bit, ghost fr: nat) returns (f: U128)
    requires a == sgn * 0x8000_0000_0000_0000 + 2047 * 0x10_0000_0000_0000 + fr && fr < 0x10_0000_0000_0000
    ensures Sign(f) == sgn
    ensures Mag(f) == InfMag + if fr == 0 then 0 else Quieted(fr, 0x8_0000_0000_0000) * 0x1000_0000_0000_0000
  {
    assert Pow2(47) == 0x8000_0000_0000 by { Pow2Values(); assert Pow2(48) == 2 * Pow2(47); }
    var h, l := Fraction(a, sgn * 2048 + 2047, fr);
    var nz := NonZeroFraction(a, sgn * 2048 + 2047, fr);
    var q: u64 := h;
    if nz {
      OrTopBit(h, 47);
      q := Or64(0x8000_0000_0000, h);
    }
    f := Pack(sgn, 0x7fff, q, l);
    QuietedHigh(fr, h, l);
  }

  lemma QuietedHigh(fr: nat, h: nat, l: nat)
    requires h * 0x1_0000_0000_0000_0000 + l == fr * 0x1000_0000_0000_0000 && l < 0x1_0000_0000_0000_0000
    ensures Quieted(h, 0x8000_0000_0000) * 0x1_0000_0000_0000_0000 + l
         == Quieted(fr, 0x8_0000_0000_0000) * 0x1000_0000_0000_0000
  {}

  /** !!(a << 12) */
  method NonZeroFraction(y: u64, ghost hi: nat, ghost fr: nat) returns (r: bool)
    requires y == hi * 0x10_0000_0000_0000 + fr && fr < 0x10_0000_0000_0000
    ensures r <==> fr != 0
  {
    assert Pow2(52) == 0x10_0000_0000_0000 by { Pow2Odd(); }
    assert Pow2(12) == 0x1000 by { Pow2Middle(); Pow2Add(6, 6); }
    hide *;
    var t, hi12, lo12 := Left64(y, 12, 0x10_0000_0000_0000, 0x1000);
    Euclid(0x10_0000_0000_0000, hi12, lo12, hi, fr);
    r := t != 0;
  }

  /** !(x >> k) */
  method ShiftsOut(x: u64, k: nat) returns (r: bool)
    requires k < 64
    ensures r <==> x < Pow2(k)
  {
    hide *;
    var y, lo := Right64(x, k, Pow2(k));
    if y > 0 { MulMono(1, y, Pow2(k)); }
    r := y == 0;
  }

  /** The normalising loop: the shift that brings the leading one to bit `top`. */
  method Adjust(fr: u64, top: nat) returns (adj: nat)
    requires 0 < fr < Pow2(top) && top < 64
    ensures 0 < adj <= top && Pow2(top - adj) <= fr < 2 * Pow2(top - adj)
  {
    hide *;
    adj := 0;
    var z := ShiftsOut(fr, top);
    while z
      invariant 0 <= adj <= top && fr < 2 * Pow2(top - adj)
      invariant z <==> fr < Pow2(top - adj)
      invariant adj == 0 ==> z
      decreases top - adj
    {
      AdjustRoom(fr, top, adj);
      adj := adj + 1;
      z := ShiftsOut(fr, top - adj);
    }
  }

  lemma AdjustRoom(fr: nat, top: nat, adj: nat)
    requires adj <= top && 0 < fr < Pow2(top - adj)
    ensures adj < top && Pow2(top - adj) == 2 * Pow2(top - adj - 1)
  {}

  /** A subnormal double: normalised, its exponent lowered by the shift. */
  method WidenSubnormal64(a: u64, sgn: bit, ghost fr: nat) returns (f: U128)
    requires a == sgn * 0x8000_0000_0000_0000 + fr && 0 < fr < 0x10_0000_0000_0000
    ensures Sign(f) == sgn && Mag(f) < InfMag && Units(112, Mag(f)) == fr * Pow2(15420)
  {
    assert Pow2(52) == 0x10_0000_0000_0000 by { Pow2Odd(); }
    hide *;
    var m := Magnitude64(a, sgn, fr);
    var adj := Adjust(m, 52);
    var h, l, mant := ShiftedFraction(a, sgn, fr, adj);
    f := Pack(sgn, 15361 - adj, h, l);
    SubnormalWidened(fr, adj, mant, h, l, Mag(f));
  }

  /** a << 1 >> 1 */
  method Magnitude64(a: u64, ghost sgn: bit, ghost m: nat) returns (r: u64)
    requires a == sgn * 0x8000_0000_0000_0000 + m && m < 0x8000_0000_0000_0000
    ensures r == m
  {
    assert Pow2(63) == 0x8000_0000_0000_0000 && Pow2(1) == 2 by { Pow2Values(); }
    hide *;
    var t, hi, lo := Left64(a, 1, 0x8000_0000_0000_0000, 2);
    Euclid(0x8000_0000_0000_0000, hi, lo, sgn, m);
    ghost var rem;
    r, rem := Right64(t, 1, 2);
  }

  /** a << adj << 12 >> 16 and a << 60 << adj: the normalised mantissa less its leading one. */
  method ShiftedFraction(a: u64, ghost sgn: bit, ghost fr: nat, adj: nat) returns (h: u64, l: u64, ghost mant: nat)
    requires a == sgn * 0x8000_0000_0000_0000 + fr && 0 < adj <= 52 && Pow2(52 - adj) <= fr < 2 * Pow2(52 - adj)
    ensures mant == fr * Pow2(adj) && 0x10_0000_0000_0000 <= mant < 0x20_0000_0000_0000 && h < 0x1_0000_0000_0000
    ensures h * 0x1_0000_0000_0000_0000 + l == (mant - 0x10_0000_0000_0000) * 0x1000_0000_0000_0000
  {
    assert Pow2(52) == 0x10_0000_0000_0000 by { Pow2Odd(); }
    hide *;
    mant := Product(fr, Pow2(adj));
    MantissaRange(fr, adj, mant, 52, 0x10_0000_0000_0000);
    var y := ShiftedDouble(a, sgn, fr, adj, mant);
    var l2;
    h, l2 := Fraction(y, 1, mant - 0x10_0000_0000_0000);
    l := LowShifted(a, y, adj);
  }

  /** a << adj */
  method ShiftedDouble(a: u64, ghost sgn: bit, ghost fr: nat, adj: nat, ghost mant: nat) returns (y: u64)
    requires a == sgn * 0x8000_0000_0000_0000 + fr && 0 < adj <= 52 && fr < 2 * Pow2(52 - adj)
    requires mant == fr * Pow2(adj)
    ensures y == mant && y == Shl(64, a, adj)
  {
    SignHigh(sgn, adj);
    hide *;
    ghost var hi, lo;
    y, hi, lo := Left64(a, adj, Pow2(64 - adj), Pow2(adj));
    Euclid(Pow2(64 - adj), hi, lo, sgn * Pow2(adj - 1), fr);
  }

  lemma SignHigh(sgn: bit, adj: nat)
    requires 0 < adj <= 52
    ensures sgn * 0x8000_0000_0000_0000 == (sgn * Pow2(adj - 1)) * Pow2(64 - adj)
    ensures 2 * Pow2(52 - adj) <= Pow2(64 - adj)
  {
    assert Pow2(63) == 0x8000_0000_0000_0000 by { Pow2Values(); }
    Pow2Mono(52 - adj, 64 - adj);
    hide *;
    Pow2Add(adj - 1, 64 - adj);
    MulAssoc(sgn, Pow2(adj - 1), Pow2(64 - adj));
  }

  /** x0 = a << 60; x0 <<= adj */
  method LowShifted(a: u64, ghost y: u64, adj: nat) returns (l: u64)
    requires 0 < adj <= 52 && y == Shl(64, a, adj)
    ensures l == Shl(64, y, 60)
  {
    hide *;
    var t, hi, lo := Left64(a, 60, Pow2(4), Pow2(60));
    ghost var hi2, lo2;
    l, hi2, lo2 := Left64(t, adj, Pow2(64 - adj), Pow2(adj));
    ShlCompose(64, a, 60, adj);
    ShlCompose(64, a, adj, 60);
  }

  lemma MantissaRange(fr: nat, adj: nat, mant: nat, top: nat, p: nat)
    requires adj <= top && p == Pow2(top) && mant == fr * Pow2(adj) && Pow2(top - adj) <= fr < 2 * Pow2(top - adj)
    ensures p <= mant < 2 * p
  {
    hide *;
    Pow2Add(top - adj, adj);
    MulMono(Pow2(top - adj), fr, Pow2(adj));
    MulMonoStrict(fr, 2 * Pow2(top - adj), Pow2(adj));
    MulAssoc(2, Pow2(top - adj), Pow2(adj));
  }

  lemma SubnormalWidened(fr: nat, adj: nat, mant: nat, h: nat, l: nat, m: nat)
    requires 0 < adj <= 52 && mant == fr * Pow2(adj) && 0x10_0000_0000_0000 <= mant < 0x20_0000_0000_0000
    requires h * 0x1_0000_0000_0000_0000 + l == (mant - 0x10_0000_0000_0000) * 0x1000_0000_0000_0000
    requires m == (15361 - adj) * P112 + h * 0x1_0000_0000_0000_0000 + l
    ensures m < InfMag && Units(112, m) == fr * Pow2(15420)
  {
    assert Pow2(52) == 0x10_0000_0000_0000 && Pow2(60) == 0x1000_0000_0000_0000 by { Pow2Odd(); Pow2Middle(); }
    var big := mant * 0x1000_0000_0000_0000;
    assert m < InfMag && m == (15360 - adj) * P112 + big;
    hide *;
    WidenedUnits(52, mant, 60, 15360 - adj, big, m);
    MulPow2(fr, adj, 60 + (15360 - adj));
  }

  /** A normal double: the exponent is re-biased. */
  method WidenNormal64(a: u64, sgn: bit, e: nat, ghost fr: nat) returns (f: U128)
    requires a == sgn * 0x8000_0000_0000_0000 + e * 0x10_0000_0000_0000 + fr && fr < 0x10_0000_0000_0000 && 0 < e < 2047
    ensures Sign(f) == sgn && Mag(f) < InfMag
    ensures Units(112, Mag(f)) == (0x10_0000_0000_0000 + fr) * Pow2(e - 1 + 15420)
  {
    hide *;
    var h, l := Fraction(a, sgn * 2048 + e, fr);
    f := Pack(sgn, e + 15360, h, l);
    NormalWidened(e, fr, h, l, Mag(f));
  }

  lemma NormalWidened(e: nat, fr: nat, h: nat, l: nat, m: nat)
    requires fr < 0x10_0000_0000_0000 && 0 < e < 2047
    requires h * 0x1_0000_0000_0000_0000 + l == fr * 0x1000_0000_0000_0000
    requires m == (e + 15360) * P112 + h * 0x1_0000_0000_0000_0000 + l
    ensures m < InfMag && Units(112, m) == (0x10_0000_0000_0000 + fr) * Pow2(e - 1 + 15420)
  {
    assert Pow2(52) == 0x10_0000_0000_0000 && Pow2(60) == 0x1000_0000_0000_0000 by { Pow2Odd(); Pow2Middle(); }
    var mant := 0x10_0000_0000_0000 + fr;
    var big := mant * 0x1000_0000_0000_0000;
    assert m < InfMag && m == (e + 15359) * P112 + big;
    hide *;
    WidenedUnits(52, mant, 60, e + 15359, big, m);
  }

  lemma Units64(m: nat, e: nat, fr: nat)
    requires m == e * 0x10_0000_0000_0000 + fr && fr < 0x10_0000_0000_0000
    ensures e == 0 ==> Units(52, m) == fr
    ensures e > 0 ==> Units(52, m) == (0x10_0000_0000_0000 + fr) * Pow2(e - 1)
  {
    assert Pow2(52) == 0x10_0000_0000_0000 by { Pow2Odd(); }
    if e > 0 {
      assert Encoded(52, 0x10_0000_0000_0000 + fr, e - 1) == m;
      UnitsOfGrid(52, 0x10_0000_0000_0000 + fr, e - 1);
    }
  }

  lemma SplitMag64(a: u64, sgn: bit, e: nat, fr: nat)
    requires a == sgn * 0x8000_0000_0000_0000 + e * 0x10_0000_0000_0000 + fr && fr < 0x10_0000_0000_0000 && e < 2048
    ensures Sign64(a) == sgn && Mag64(a) == e * 0x10_0000_0000_0000 + fr
  {}

  lemma SpecialWidened64(a: u64, f: U128, fr: nat)
    requires Sign(f) == Sign64(a) && Mag64(a) == 2047 * 0x10_0000_0000_0000 + fr
    requires Mag(f) == InfMag + if fr == 0 then 0 else Quieted(fr, 0x8_0000_0000_0000) * 0x1000_0000_0000_0000
    ensures IsWidened64(a, f)
  {}

  lemma FiniteWidened64(a: u64, f: U128, e: nat, fr: nat)
    requires Sign(f) == Sign64(a) && Mag64(a) == e * 0x10_0000_0000_0000 + fr && fr < 0x10_0000_0000_0000 && e < 2047
    requires Mag(f) < InfMag
    requires e == 0 ==> Units(112, Mag(f)) == fr * Pow2(15420)
    requires e > 0 ==> Units(112, Mag(f)) == (0x10_0000_0000_0000 + fr) * Pow2(e - 1 + 15420)
    ensures IsWidened64(a, f)
  {
    assert SameValue(52, Mag64(a), Mag(f), 15420) by { ScaledUnits64(Mag64(a), e, fr, Units(112, Mag(f)), 15420); }
    assert UnitExp() - 1074 == 15420 && Mag64(a) < Inf64;
    hide SameValue, Mag, Sign, Mag64, Sign64, Quieted;
  }

  lemma ScaledUnits64(m: nat, e: nat, fr: nat, u: nat, k: nat)
    requires m == e * 0x10_0000_0000_0000 + fr && fr < 0x10_0000_0000_0000
    requires e == 0 ==> u == fr * Pow2(k)
    requires e > 0 ==> u == (0x10_0000_0000_0000 + fr) * Pow2(e - 1 + k)
    ensures u == Units(52, m) * Pow2(k)
  {
    hide *;
    Units64(m, e, fr);
    if e > 0 { MulPow2(0x10_0000_0000_0000 + fr, e - 1, k); }
  }

  /** __extenddftf2 */
  method ExtendDfTf2(a: u64) returns (f: U128)
    ensures IsWidened64(a, f)
  {
    hide *;
    var sgn, e, fr := Fields64(a);
    SplitMag64(a, sgn, e, fr);
    var m := Magnitude64(a, sgn, Mag64(a));
    if m == 0 {
      f := WidenZero64(a, sgn);
      ZeroUnits();
      FiniteWidened64(a, f, e, fr);
    } else if e == 2047 {
      f := WidenSpecial64(a, sgn, fr);
      SpecialWidened64(a, f, fr);
    } else if e == 0 {
      f := WidenSubnormal64(a, sgn, fr);
      FiniteWidened64(a, f, e, fr);
    } else {
      f := WidenNormal64(a, sgn, e, fr);
      FiniteWidened64(a, f, e, fr);
    }
  }

  /** x0 = a << 60, x1 = a */
  method WidenZero64(a: u64, ghost sgn: bit) returns (f: U128)
    requires a == sgn * 0x8000_0000_0000_0000
    ensures Sign(f) == sgn && Mag(f) == 0 < InfMag
  {
    assert Pow2(4) == 16 && Pow2(60) == 0x1000_0000_0000_0000 by { Pow2Middle(); }
    var x0, hi, lo := Left64(a, 60, 16, 0x1000_0000_0000_0000);
    Euclid(16, hi, lo, sgn * 0x800_0000_0000_0000, 0);
    f := U128(x0, a);
  }

  lemma ZeroUnits()
    ensures Units(112, 0) == 0 && Units(52, 0) == 0 && Units(23, 0) == 0
  {}

  // Floats.

  /** aa >> 31 and a << 1 >> 24 */
  method Fields32(a: u32) returns (sgn: bit, e: nat, ghost fr: nat)
    ensures a == sgn * 0x8000_0000 + e * 0x80_0000 + fr && fr < 0x80_0000 && e < 256
  {
    assert Pow2(31) == 0x8000_0000 && Pow2(1) == 2 by { Pow2Values(); }
    assert Pow2(24) == 0x100_0000 by { Pow2Odd(); assert Pow2(24) == 2 * Pow2(23); }
    hide *;
    var s, r31 := Right64(a, 31, 0x8000_0000);
    var t, hi, lo := Left32(a, 1, 0x8000_0000, 2);
    Euclid(0x8000_0000, s, r31, hi, lo);
    var u, r24 := Right32(t, 24, 0x100_0000);
    sgn, e := s, u;
    fr := lo - u * 0x80_0000;
  }

  /** a << 1 >> 1 */
  method Magnitude32(a: u32, ghost sgn: bit, ghost m: nat) returns (r: u32)
    requires a == sgn * 0x8000_0000 + m && m < 0x8000_0000
    ensures r == m
  {
    assert Pow2(31) == 0x8000_0000 && Pow2(1) == 2 by { Pow2Values(); }
    hide *;
    var t, hi, lo := Left32(a, 1, 0x8000_0000, 2);
    Euclid(0x8000_0000, hi, lo, sgn, m);
    ghost var rem;
    r, rem := Right32(t, 1, 2);
  }

  /** y << 41 >> 16: the low 23 bits of y at the top of the fraction field. */
  method Fraction32(y: u64, ghost hi: nat, ghost fr: nat) returns (h: u64)
    requires y == hi * 0x80_0000 + fr && fr < 0x80_0000
    ensures h == fr * 0x200_0000
  {
    assert Pow2(23) == 0x80_0000 && Pow2(41) == 0x200_0000_0000 by { Pow2Odd(); }
    assert Pow2(16) == 0x1_0000 by { Pow2Values(); }
    hide *;
    var t, hi41, lo41 := Left64(y, 41, 0x80_0000, 0x200_0000_0000);
    Euclid(0x80_0000, hi41, lo41, hi, fr);
    ghost var rem;
    h, rem := Right64(t, 16, 0x1_0000);
    Euclid(0x1_0000, h, rem, fr * 0x200_0000, 0);
  }

  /** !!(a << 9) */
  method NonZeroFraction32(a: u32, ghost hi: nat, ghost fr: nat) returns (r: bool)
    requires a == hi * 0x80_0000 + fr && fr < 0x80_0000
    ensures r <==> fr != 0
  {
    assert Pow2(23) == 0x80_0000 by { Pow2Odd(); }
    assert Pow2(9) == 512;
    hide *;
    var t, hi9, lo9 := Left32(a, 9, 0x80_0000, 512);
    Euclid(0x80_0000, hi9, lo9, hi, fr);
    r := t != 0;
  }

  method WidenSpecial32(a: u32, sgn: bit, ghost fr: nat) returns (f: U128)
    requires a == sgn * 0x8000_0000 + 255 * 0x80_0000 + fr && fr < 0x80_0000
    ensures Sign(f) == sgn
    ensures Mag(f) == InfMag + if fr == 0 then 0 else Quieted(fr, 0x40_0000) * 0x200_0000_0000_0000_0000_0000
  {
    assert Pow2(47) == 0x8000_0000_0000 by { Pow2Values(); assert Pow2(48) == 2 * Pow2(47); }
    var h := Fraction32(a, sgn * 256 + 255, fr);
    var nz := NonZeroFraction32(a, sgn * 256 + 255, fr);
    var q: u64 := h;
    if nz {
      OrTopBit(h, 47);
      q := Or64(0x8000_0000_0000, h);
    }
    f := Pack(sgn, 0x7fff, q, 0);
  }

  /** aa << adj << 41 >> 16 */
  method ShiftedFraction32(a: u32, ghost sgn: bit, ghost fr: nat, adj: nat) returns (h: u64, ghost mant: nat)
    requires a == sgn * 0x8000_0000 + fr && 0 < adj <= 23 && Pow2(23 - adj) <= fr < 2 * Pow2(23 - adj)
    ensures mant == fr * Pow2(adj) && 0x80_0000 <= mant < 0x100_0000 && h == (mant - 0x80_0000) * 0x200_0000
  {
    assert Pow2(23) == 0x80_0000 by { Pow2Odd(); }
    Pow2Mono(adj, 23);
    hide *;
    mant := Product(fr, Pow2(adj));
    MantissaRange(fr, adj, mant, 23, 0x80_0000);
    MulMono(Pow2(adj), 0x80_0000, a);
    var y := Scale64(a, adj, Pow2(adj));
    ghost var hi := SignAbove(a, sgn, fr, Pow2(adj), mant, y);
    h := Fraction32(y, hi, mant - 0x80_0000);
  }

  lemma SignAbove(a: nat, sgn: bit, fr: nat, p: nat, mant: nat, y: nat) returns (hi: nat)
    requires a == sgn * 0x8000_0000 + fr && mant == fr * p && y == a * p
    ensures y == hi * 0x80_0000 + (mant - 0x80_0000)
  {
    Distrib(sgn * 0x8000_0000, fr, p);
    hi := if sgn == 1 then 256 * p + 1 else 1;
  }

  method WidenSubnormal32(a: u32, sgn: bit, ghost fr: nat) returns (f: U128)
    requires a == sgn * 0x8000_0000 + fr && 0 < fr < 0x80_0000
    ensures Sign(f) == sgn && Mag(f) < InfMag && Units(112, Mag(f)) == fr * Pow2(16345)
  {
    assert Pow2(23) == 0x80_0000 by { Pow2Odd(); }
    hide *;
    var m := Magnitude32(a, sgn, fr);
    var adj := Adjust(m, 23);
    var h, mant := ShiftedFraction32(a, sgn, fr, adj);
    f := Pack(sgn, 16257 - adj, h, 0);
    SubnormalWidened32(fr, adj, mant, Mag(f));
  }

  lemma SubnormalWidened32(fr: nat, adj: nat, mant: nat, m: nat)
    requires 0 < adj <= 23 && mant == fr * Pow2(adj) && 0x80_0000 <= mant < 0x100_0000
    requires m == (16257 - adj) * P112 + (mant - 0x80_0000) * 0x200_0000 * 0x1_0000_0000_0000_0000
    ensures m < InfMag && Units(112, m) == fr * Pow2(16345)
  {
    var big := mant * 0x200_0000_0000_0000_0000_0000;
    assert m < InfMag && m == (16256 - adj) * P112 + big;
    assert Pow2(23) == 0x80_0000 by { Pow2Odd(); }
    assert Pow2(89) == 0x200_0000_0000_0000_0000_0000 by { Pow2Odd(); assert Pow2(89) == 4 * Pow2(87); }
    hide *;
    WidenedUnits(23, mant, 89, 16256 - adj, big, m);
    MulPow2(fr, adj, 89 + (16256 - adj));
  }

  method WidenNormal32(a: u32, sgn: bit, e: nat, ghost fr: nat) returns (f: U128)
    requires a == sgn * 0x8000_0000 + e * 0x80_0000 + fr && fr < 0x80_0000 && 0 < e < 255
    ensures Sign(f) == sgn && Mag(f) < InfMag
    ensures Units(112, Mag(f)) == (0x80_0000 + fr) * Pow2(e - 1 + 16345)
  {
    hide *;
    var h := Fraction32(a, sgn * 256 + e, fr);
    f := Pack(sgn, e + 16256, h, 0);
    NormalWidened32(e, fr, Mag(f));
  }

  lemma NormalWidened32(e: nat, fr: nat, m: nat)
    requires fr < 0x80_0000 && 0 < e < 255
    requires m == (e + 16256) * P112 + fr * 0x200_0000 * 0x1_0000_0000_0000_0000
    ensures m < InfMag && Units(112, m) == (0x80_0000 + fr) * Pow2(e - 1 + 16345)
  {
    var mant := 0x80_0000 + fr;
    var big := mant * 0x200_0000_0000_0000_0000_0000;
    assert m < InfMag && m == (e + 16255) * P112 + big;
    assert Pow2(23) == 0x80_0000 by { Pow2Odd(); }
    assert Pow2(89) == 0x200_0000_0000_0000_0000_0000 by { Pow2Odd(); assert Pow2(89) == 4 * Pow2(87); }
    hide *;
    WidenedUnits(23, mant, 89, e + 16255, big, m);
  }

  lemma Units32(m: nat, e: nat, fr: nat)
    requires m == e * 0x80_0000 + fr && fr < 0x80_0000
    ensures e == 0 ==> Units(23, m) == fr
    ensures e > 0 ==> Units(23, m) == (0x80_0000 + fr) * Pow2(e - 1)
  {
    assert Pow2(23) == 0x80_0000 by { Pow2Odd(); }
    if e > 0 {
      assert Encoded(23, 0x80_0000 + fr, e - 1) == m;
      UnitsOfGrid(23, 0x80_0000 + fr, e - 1);
    }
  }

  lemma SplitMag32(a: u32, sgn: bit, e: nat, fr: nat)
    requires a == sgn * 0x8000_0000 + e * 0x80_0000 + fr && fr < 0x80_0000 && e < 256
    ensures Sign32(a) == sgn && Mag32(a) == e * 0x80_0000 + fr
  {}

  lemma SpecialWidened32(a: u32, f: U128, fr: nat)
    requires Sign(f) == Sign32(a) && Mag32(a) == 255 * 0x80_0000 + fr
    requires Mag(f) == InfMag + if fr == 0 then 0 else Quieted(fr, 0x40_0000) * 0x200_0000_0000_0000_0000_0000
    ensures IsWidened32(a, f)
  {}

  lemma ScaledUnits32(m: nat, e: nat, fr: nat, u: nat, k: nat)
    requires m == e * 0x80_0000 + fr && fr < 0x80_0000
    requires e == 0 ==> u == fr * Pow2(k)
    requires e > 0 ==> u == (0x80_0000 + fr) * Pow2(e - 1 + k)
    ensures u == Units(23, m) * Pow2(k)
  {
    hide *;
    Units32(m, e, fr);
    if e > 0 { MulPow2(0x80_0000 + fr, e - 1, k); }
  }

  lemma FiniteWidened32(a: u32, f: U128, e: nat, fr: nat)
    requires Sign(f) == Sign32(a) && Mag32(a) == e * 0x80_0000 + fr && fr < 0x80_0000 && e < 255
    requires Mag(f) < InfMag
    requires e == 0 ==> Units(112, Mag(f)) == fr * Pow2(16345)
    requires e > 0 ==> Units(112, Mag(f)) == (0x80_0000 + fr) * Pow2(e - 1 + 16345)
    ensures IsWidened32(a, f)
  {
    assert SameValue(23, Mag32(a), Mag(f), 16345) by { ScaledUnits32(Mag32(a), e, fr, Units(112, Mag(f)), 16345); }
    assert UnitExp() - 149 == 16345 && Mag32(a) < Inf32;
    hide SameValue, Mag, Sign, Mag32, Sign32, Quieted;
  }

  /** x1 = aa << 32 */
  method WidenZero32(a: u32, ghost sgn: bit) returns (f: U128)
    requires a == sgn * 0x8000_0000
    ensures Sign(f) == sgn && Mag(f) == 0 < InfMag
  {
    assert Pow2(32) == 0x1_0000_0000 by { Pow2Values(); }
    var x1 := Scale64(a, 32, 0x1_0000_0000);
    f := U128(0, x1);
  }

  /** __extendsftf2 */
  method ExtendSfTf2(a: u32) returns (f: U128)
    ensures IsWidened32(a, f)
  {
    hide *;
    var sgn, e, fr := Fields32(a);
    SplitMag32(a, sgn, e, fr);
    var m := Magnitude32(a, sgn, Mag32(a));
    if m == 0 {
      f := WidenZero32(a, sgn);
      ZeroUnits();
      FiniteWidened32(a, f, e, fr);
    } else if e == 255 {
      f := WidenSpecial32(a, sgn, fr);
      SpecialWidened32(a, f, fr);
    } else if e == 0 {
      f := WidenSubnormal32(a, sgn, fr);
      FiniteWidened32(a, f, e, fr);
    } else {
      f := WidenNormal32(a, sgn, e, fr);
      FiniteWidened32(a, f, e, fr);
    }
  }
}
