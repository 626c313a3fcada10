/** __trunctfdf2 and __trunctfsf2 (lib/lib-arm64.c): correctly rounded narrowing. */
module Narrow {
  import opened Words
  import opened IeeeFormat
  import opened Sticky
  import opened Quad

  // Reading the narrow formats.

  const Inf64: nat := 0x7ff0_0000_0000_0000
  const Inf32: nat := 0x7f80_0000

  function Sign64(x: u64): bit { if x >= 0x8000_0000_0000_0000 then 1 else 0 }

  function Mag64(x: u64): nat { if Sign64(x) == 1 then x - 0x8000_0000_0000_0000 else x }

  function Sign32(x: u32): bit { if x >= 0x8000_0000 then 1 else 0 }

  function Mag32(x: u32): nat { if Sign32(x) == 1 then x - 0x8000_0000 else x }

  /** x is the double nearest to f, ties to even; a NaN keeps the leading bits of its fraction and becomes quiet. */
  ghost predicate IsNarrowed64(f: U128, x: u64)
  {
    && Sign64(x) == Sign(f)
    && if IsNaN(f) then Mag64(x) == Inf64 + Quieted(Frac52(f), 0x8_0000_0000_0000)
       else NearestEven(Binary64, Units(112, Mag(f)), Pow2(UnitExp() - 1074), Mag64(x))
  }

  /** The same for floats. */
  ghost predicate IsNarrowed32(f: U128, x: u32)
  {
    && Sign32(x) == Sign(f)
    && if IsNaN(f) then Mag32(x) == Inf32 + Quieted(Frac23(f), 0x40_0000)
       else NearestEven(Binary32, Units(112, Mag(f)), Pow2(UnitExp() - 149), Mag32(x))
  }

  /** The leading 52 and 23 bits of the fraction field. */
  function Frac52(f: U128): nat { f.x1 % 0x1_0000_0000_0000 * 16 + f.x0 / 0x1000_0000_0000_0000 }

  function Frac23(f: U128): nat { f.x1 % 0x1_0000_0000_0000 / 0x200_0000 }

  // The three ranges of the exponent, for any narrower format.

  lemma NarrowBig(fmt: Format, m: nat, t: nat, n: nat, k: nat)
    requires Proper(fmt) && m >= P112 && n == m * Pow2(t) && t + 112 >= fmt.frac + k + fmt.top - 1
    ensures NearestEven(fmt, n, Pow2(k), Inf(fmt))
  {
    var e := t + 112 - fmt.frac - k;
    assert Pow2(112) == P112 by { Constants(); }
    hide *;
    Pow2Add(e, k);
    Pow2Add(fmt.frac, e + k);
    Pow2Add(112, t);
    MulMono(P112, m, Pow2(t));
    InfIsNearest(fmt, n, Pow2(k), e);
  }

  lemma NarrowSmall(fmt: Format, m: nat, t: nat, n: nat, k: nat)
    requires Proper(fmt) && m < 2 * P112 && n == m * Pow2(t) && t + 114 <= k
    ensures NearestEven(fmt, n, Pow2(k), 0)
  {
    assert 2 * n <= Pow2(k) by { SmallValue(m, t, n, k); }
    SmallRoundsToZero(fmt, n, Pow2(k));
  }

  lemma SmallValue(m: nat, t: nat, n: nat, k: nat)
    requires m < 2 * P112 && n == m * Pow2(t) && t + 114 <= k
    ensures 2 * n <= Pow2(k)
  {
    assert Pow2(113) == 2 * P112 by { Constants(); }
    assert Pow2(113 + t + 1) == 2 * Pow2(113 + t);
    hide *;
    MulMono(m, 2 * P112, Pow2(t));
    Pow2Add(113, t);
    Pow2Mono(114 + t, k);
  }

  lemma SmallRoundsToZero(fmt: Format, n: nat, d: nat)
    requires Proper(fmt) && d > 0 && 2 * n <= d
    ensures NearestEven(fmt, n, d, 0)
  {
    assert Pow2(0) * d == d && Encoded(fmt.frac, 0, 0) == 0 && Min(0, Inf(fmt)) == 0;
    assert GridRounded(fmt.frac, n, d, 0, 0);
    hide *;
    NearestOnGrid(fmt, n, d, 0, 0);
  }

  /** The working value after the shifts: j bits off the mantissa, more for a subnormal result. */
  function Working(m: nat, j: nat, e: int): nat { if e < 0 then Jam(Jam(m, j), -e) else Jam(m, j) }

  lemma NarrowMid(fmt: Format, m: nat, t: nat, n: nat, k: nat, j: nat, e: int)
    requires Proper(fmt) && n == m * Pow2(t) && e == t + j - k + 2
    requires Working(m, j, e) < 8 * Pow2(fmt.frac) && (e > 0 ==> Working(m, j, e) >= 4 * Pow2(fmt.frac))
    ensures NearestEven(fmt, n, Pow2(k), Min(Encoded(fmt.frac, RoundQuarter(Working(m, j, e)), Grid(e + 1)), Inf(fmt)))
  {
    hide NearestEven, Pow2, Holds, Exact, Jam, RoundQuarter, Inf, Encoded;
    ExactRatio(m, t, k, n);
    ExactHolds(m, t - k, n, Pow2(k));
    HoldsShift(m, t - k, n, Pow2(k), j);
    if e < 0 { HoldsShift(Jam(m, j), t - k + j, n, Pow2(k), -e); }
    RoundCorrect(fmt, Working(m, j, e), Grid(e + 1), n, Pow2(k));
  }

  // Word operations shared by both routines.

  lemma RoundQuarterByFour(y: nat)
    ensures RoundQuarter(y) == (if y % 4 == 3 || y % 8 == 6 then y + 4 else y) / 4
  {}

  /** x >> j | !!(x << (64 - j)) */
  method StickyRight64(x: u64, j: nat) returns (r: u64)
    requires 0 < j < 64
    ensures r == Jam(x, j)
  {
    hide *;
    var y, lo := Right64(x, j, Pow2(j));
    var lost, hi, low := Left64(x, 64 - j, Pow2(j), Pow2(64 - j));
    Euclid(Pow2(j), y, lo, hi, low);
    MulCancel(0, lo, Pow2(64 - j));
    r := SetLow64(y, lost != 0);
    JamIs(x, y, lo, j);
    JammingIs(y, lo, r);
  }

  lemma JammingIs(q: nat, lo: nat, r: nat)
    requires r == if lo != 0 then q - q % 2 + 1 else q
    ensures r == Jamming(q, lo)
  {}

  /** x >> j | !!(x << (32 - j)) */
  method StickyRight32(x: u32, j: nat) returns (r: u32)
    requires 0 < j < 32
    ensures r == Jam(x, j)
  {
    hide *;
    var y, lo := Right32(x, j, Pow2(j));
    var lost, hi, low := Left32(x, 32 - j, Pow2(j), Pow2(32 - j));
    Euclid(Pow2(j), y, lo, hi, low);
    MulCancel(0, lo, Pow2(32 - j));
    var s := SetLow64(y, lost != 0);
    JamIs(x, y, lo, j);
    JammingIs(y, lo, s);
    JamSmall(x, j);
    r := s;
  }

  lemma {:induction false} JamSmall(x: nat, j: nat)
    requires x < 0x1_0000_0000
    ensures Jam(x, j) < 0x1_0000_0000
  {
    if j > 0 { JamSmall(x, j - 1); }
  }

  /** mnt.x1 << 6 | mnt.x0 >> 58 | !!(mnt.x0 << 6) */
  method Gather64(m: U128) returns (x: u64)
    requires Nat128(m) < 2 * P112
    ensures x == Jam(Nat128(m), 58)
  {
    assert Pow2(6) == 64 && Pow2(58) == 0x400_0000_0000_0000 by { Pow2Middle(); assert Pow2(60) == 4 * Pow2(58); }
    assert m.x1 < 0x2_0000_0000_0000;
    ghost var p := Pow2(58);
    var h := Scale64(m.x1, 6, 64);
    var l, lo := Right64(m.x0, 58, p);
    var lost, hi, low := Left64(m.x0, 6, p, 64);
    Euclid(p, l, lo, hi, low);
    x := Join64(h, l, 6, 64, m.x1);
    JamIs(Nat128(m), x, lo, 58);
    x := SetLow64(x, lost != 0);
  }

  /** mnt.x1 >> 23 | !!(mnt.x0 | mnt.x1 << 41) */
  method Gather32(m: U128) returns (x: u32)
    requires Nat128(m) < 2 * P112
    ensures x == Jam(Nat128(m), 87)
  {
    assert Pow2(23) == 0x80_0000 && Pow2(41) == 0x200_0000_0000 && Pow2(87) == 0x80_0000_0000_0000_0000_0000 by { Pow2Odd(); }
    assert m.x1 < 0x2_0000_0000_0000;
    hide *;
    var h, lo := Right64(m.x1, 23, 0x80_0000);
    var t, hi, low := Left64(m.x1, 41, 0x80_0000, 0x200_0000_0000);
    Euclid(0x80_0000, h, lo, hi, low);
    var z := BothZero(m.x0, t);
    var s := SetLow64(h, !z);
    var r := GatherSum(m, h, lo);
    JamIs(Nat128(m), h, r, 87);
    JammingIs(h, r, s);
    x := s;
  }

  lemma GatherSum(m: U128, h: nat, lo: nat) returns (r: nat)
    requires m.x1 == h * 0x80_0000 + lo && lo < 0x80_0000
    ensures r < 0x80_0000_0000_0000_0000_0000 && Nat128(m) == h * 0x80_0000_0000_0000_0000_0000 + r
    ensures r != 0 <==> !(m.x0 == 0 && lo == 0)
  {
    r := lo * 0x1_0000_0000_0000_0000 + m.x0;
  }

  lemma Pow2Odd()
    ensures Pow2(22) == 0x40_0000 && Pow2(23) == 0x80_0000 && Pow2(25) == 0x200_0000 && Pow2(41) == 0x200_0000_0000
    ensures Pow2(51) == 0x8_0000_0000_0000 && Pow2(52) == 0x10_0000_0000_0000 && Pow2(87) == 0x80_0000_0000_0000_0000_0000
  {
    Pow2Values();
    Pow2Middle();
    assert Pow2(26) == 16 * Pow2(22);
    assert Pow2(26) == 2 * Pow2(25);
    hide Pow2;
    Pow2Add(22, 1);
    Pow2Add(38, 3);
    Pow2Add(48, 3);
    Pow2Add(48, 4);
    Pow2Add(64, 23);
  }

  /** Rounds off two guard bits: up on 3, and on 2 when the result would be odd. */
  method RoundOff64(y: u64) returns (r: u64)
    requires y < 0x80_0000_0000_0000
    ensures r == RoundQuarter(y)
  {
    assert Pow2(2) == 4 && Pow2(3) == 8;
    RoundQuarterByFour(y);
    var low3, h3 := Mask64(y, 3, 8);
    var low2, h2 := Mask64(y, 2, 4);
    var x := y;
    if low2 == 3 || low3 == 6 {
      x := x + 4;
    }
    ghost var rem;
    r, rem := Right64(x, 2, 4);
  }

  lemma WorkingSize(m: nat, j: nat, e: int, frac: nat)
    requires P112 <= m < 2 * P112 && j + frac == 110
    ensures Working(m, j, e) < 8 * Pow2(frac) && (e >= 0 ==> Working(m, j, e) >= 4 * Pow2(frac))
  {
    hide *;
    JamSize(m, j, frac);
    WorkingBound(m, j, e, 8 * Pow2(frac));
  }

  lemma JamSize(m: nat, j: nat, frac: nat)
    requires P112 <= m < 2 * P112 && j + frac == 110
    ensures 4 * Pow2(frac) <= Jam(m, j) < 8 * Pow2(frac)
  {
    assert Pow2(112) == P112 by { Constants(); }
    hide *;
    var g := TopPower(j, frac);
    SizeStep(m, j, Pow2(frac), g);
  }

  lemma TopPower(j: nat, frac: nat) returns (g: nat)
    requires j + frac == 110
    ensures Pow2(112) == 4 * g && g == Pow2(frac) * Pow2(j)
  {
    assert Pow2(112) == 2 * Pow2(111) && Pow2(111) == 2 * Pow2(110);
    hide *;
    Pow2Add(frac, j);
    g := Pow2(110);
  }

  lemma SizeStep(m: nat, j: nat, p: nat, g: nat)
    requires g == p * Pow2(j) && 4 * g <= m < 8 * g
    ensures 4 * p <= Jam(m, j) < 8 * p
  {
    MulAssoc(4, p, Pow2(j));
    MulAssoc(8, p, Pow2(j));
    JamBounds(m, j, 4 * p, 8 * p);
  }

  lemma JamStaysBelow(x: nat, k: nat, b: nat)
    requires x < b && b % 2 == 0
    ensures Jam(x, k) < b
  {
    Pow2Mono(0, k);
    MulMono(1, Pow2(k), b);
    hide *;
    JamBounds(x, k, 0, b);
  }

  lemma WorkingBound(m: nat, j: nat, e: int, b: nat)
    requires Jam(m, j) < b && b % 2 == 0
    ensures Working(m, j, e) < b && (e >= 0 ==> Working(m, j, e) == Jam(m, j))
  {
    hide Jam, Pow2;
    if e < 0 { JamStaysBelow(Jam(m, j), -e, b); }
  }

  lemma Constants64()
    ensures Pow2(52) == 0x10_0000_0000_0000 && Inf(Binary64) == Inf64 && Proper(Binary64)
  {
    Pow2Odd();
  }

  lemma Constants32()
    ensures Pow2(23) == 0x80_0000 && Inf(Binary32) == Inf32 && Proper(Binary32)
  {
    Pow2Odd();
  }

  method WithSign64(sgn: bit, m: u64) returns (x: u64)
    requires m < 0x8000_0000_0000_0000
    ensures Sign64(x) == sgn && Mag64(x) == m
  {
    assert Pow2(63) == 0x8000_0000_0000_0000 by { Pow2Values(); }
    var s := Scale64(sgn, 63, 0x8000_0000_0000_0000);
    x := Join64(s, m, 63, 0x8000_0000_0000_0000, sgn);
  }

  method WithSign32(sgn: bit, m: u32) returns (x: u32)
    requires m < 0x8000_0000
    ensures Sign32(x) == sgn && Mag32(x) == m
  {
    assert Pow2(31) == 0x8000_0000 && Pow2(1) == 2 by { Pow2Values(); }
    var s, hi, lo := Left32(sgn, 31, 2, 0x8000_0000);
    x := Join32(s, m, 31, 0x8000_0000, sgn);
  }

  /** The last branch of __trunctfdf2. */
  method Round64(exp: int, m: U128, ghost n: nat, ghost k: nat) returns (r: u64)
    requires 15308 <= exp <= 17406 && P112 <= Nat128(m) < 2 * P112 && k == 15420 && n == Nat128(m) * Pow2(exp - 1)
    ensures r <= Inf64 && NearestEven(Binary64, n, Pow2(k), r)
  {
    ghost var e := exp - 15361;
    WorkingSize(Nat128(m), 58, e, 52);
    Constants64();
    NarrowMid(Binary64, Nat128(m), exp - 1, n, k, 58, e);
    hide Pow2, NearestEven, Jam, Inf, Nat128;
    var x := Gather64(m);
    var f := exp - 15361;
    if f < 0 {
      x := StickyRight64(x, -f);
      f := 0;
    }
    x := RoundOff64(x);
    RoundQuarterBound(Working(Nat128(m), 58, e), 0x10_0000_0000_0000);
    var g := Scale64(f, 52, 0x10_0000_0000_0000);
    r := x + g;
  }

  lemma RoundQuarterBound(y: nat, p: nat)
    requires y < 8 * p
    ensures RoundQuarter(y) <= 2 * p
  {}

  /** The last branch of __trunctfsf2. */
  method Round32(exp: int, m: U128, ghost n: nat, ghost k: nat) returns (r: u32)
    requires 16233 <= exp <= 16510 && P112 <= Nat128(m) < 2 * P112 && k == 16345 && n == Nat128(m) * Pow2(exp - 1)
    ensures r <= Inf32 && NearestEven(Binary32, n, Pow2(k), r)
  {
    ghost var e := exp - 16257;
    WorkingSize(Nat128(m), 87, e, 23);
    Constants32();
    NarrowMid(Binary32, Nat128(m), exp - 1, n, k, 87, e);
    hide Pow2, NearestEven, Jam, Inf, Nat128;
    var x := Gather32(m);
    var f := exp - 16257;
    if f < 0 {
      x := StickyRight32(x, -f);
      f := 0;
    }
    var y := RoundOff64(x);
    RoundQuarterBound(Working(Nat128(m), 87, e), 0x80_0000);
    var g, hi, lo := Left32(f, 23, Pow2(9), 0x80_0000);
    NoLoss(f, hi, lo, 9, 512);
    r := y + g;
  }

  lemma NoLoss(x: nat, hi: nat, lo: nat, k: nat, bound: nat)
    requires k == 9 && bound == 512 && x < bound && x == hi * Pow2(k) + lo
    ensures lo == x
  {
    assert Pow2(9) == 512;
    if hi > 0 { MulMono(1, hi, 512); }
  }

  // NaNs keep the leading bits of their fraction and become quiet.

  /** Or with a single bit just above k lower bits. */
  lemma OrTopBit(frac: nat, k: nat)
    requires frac < 2 * Pow2(k)
    ensures Or(Pow2(k), frac) == Quieted(frac, Pow2(k))
  {
    var p := Pow2(k);
    hide Pow2;
    var b := if frac >= p then 1 else 0;
    OrSplit(p, 1, 0, frac, b, if b == 1 then frac - p else frac, k);
    OrZero(if b == 1 then frac - p else frac);
    assert Or(1, b) == 1 by { OrOne(b); OrZero(1); }
    MulOne(p, Or(1, b));
  }

  lemma OrNaN(head: nat, top: nat, frac: nat, k: nat)
    requires top == Pow2(k) && frac < 2 * top
    ensures Or(head * (2 * top) + top, frac) == head * (2 * top) + Quieted(frac, top)
  {
    assert Pow2(k + 1) == 2 * top;
    hide Pow2, Quieted;
    OrSplit(head * (2 * top) + top, head, top, frac, 0, frac, k + 1);
    OrZero(head);
    OrTopBit(frac, k);
  }

  lemma UnpackedFraction(f: U128, m: U128)
    requires Mag(f) == 32766 * P112 + Nat128(m) && P112 <= Nat128(m) < 2 * P112
    ensures m.x0 == f.x0 && m.x1 == 0x1_0000_0000_0000 + f.x1 % 0x1_0000_0000_0000
  {}

  /** mnt.x1 << 16 >> 12 | mnt.x0 >> 60 */
  method Fraction52(m: U128, ghost fr: nat) returns (frac: u64, ghost q: nat, ghost r60: nat)
    requires m.x1 == 0x1_0000_0000_0000 + fr && fr < 0x1_0000_0000_0000
    ensures frac == fr * 16 + q && q < 16 && m.x0 == q * 0x1000_0000_0000_0000 + r60 && r60 < 0x1000_0000_0000_0000
  {
    assert Pow2(60) == 0x1000_0000_0000_0000 && Pow2(4) == 16 && Pow2(12) == 0x1000 by { Pow2Middle(); Pow2Add(6, 6); }
    assert Pow2(16) == 0x1_0000 && Pow2(48) == 0x1_0000_0000_0000 by { Pow2Values(); }
    hide *;
    var t, hi, lo := Left64(m.x1, 16, 0x1_0000_0000_0000, 0x1_0000);
    Euclid(0x1_0000_0000_0000, hi, lo, 1, fr);
    var u, r12 := Right64(t, 12, 0x1000);
    Euclid(0x1000, u, r12, lo * 16, 0);
    var v;
    v, r60 := Right64(m.x0, 60, 0x1000_0000_0000_0000);
    q := v;
    frac := Join64(u, v, 4, 16, lo);
  }

  /** 0x7ff8000000000000 | mnt.x1 << 16 >> 12 | mnt.x0 >> 60 */
  method NaN64(f: U128, m: U128) returns (x: u64)
    requires Mag(f) == 32766 * P112 + Nat128(m) && P112 <= Nat128(m) < 2 * P112
    ensures x == Inf64 + Quieted(Frac52(f), 0x8_0000_0000_0000) < 0x8000_0000_0000_0000
  {
    assert Pow2(51) == 0x8_0000_0000_0000 by { Pow2Odd(); }
    UnpackedFraction(f, m);
    hide Pow2, Or, Mag, Nat128;
    var frac, q, r60 := Fraction52(m, f.x1 % 0x1_0000_0000_0000);
    DivUnique(f.x0, 0x1000_0000_0000_0000, q, r60);
    OrNaN(0x7ff, 0x8_0000_0000_0000, frac, 51);
    x := Or64(0x7ff8_0000_0000_0000, frac);
  }

  /** mnt.x1 >> 25 & 0x007fffff */
  method Fraction23(m: U128, ghost fr: nat) returns (frac: u64, ghost r25: nat)
    requires m.x1 == 0x1_0000_0000_0000 + fr && fr < 0x1_0000_0000_0000
    ensures fr == frac * 0x200_0000 + r25 && r25 < 0x200_0000 && frac < 0x80_0000
  {
    assert Pow2(23) == 0x80_0000 && Pow2(25) == 0x200_0000 by { Pow2Odd(); }
    hide *;
    var t; ghost var hi;
    t, r25 := Right64(m.x1, 25, 0x200_0000);
    frac, hi := Mask64(t, 23, 0x80_0000);
    Euclid(0x1_0000_0000_0000, hi, frac * 0x200_0000 + r25, 1, fr);
  }

  /** 0x7fc00000 | (mnt.x1 >> 25 & 0x007fffff) */
  method NaN32(f: U128, m: U128) returns (x: u32)
    requires Mag(f) == 32766 * P112 + Nat128(m) && P112 <= Nat128(m) < 2 * P112
    ensures x == Inf32 + Quieted(Frac23(f), 0x40_0000) < 0x8000_0000
  {
    assert Pow2(22) == 0x40_0000 by { Pow2Odd(); }
    UnpackedFraction(f, m);
    hide Pow2, Or, Mag, Nat128;
    var frac, r25 := Fraction23(m, f.x1 % 0x1_0000_0000_0000);
    DivUnique(f.x1 % 0x1_0000_0000_0000, 0x200_0000, frac, r25);
    OrNaN(0xff, 0x40_0000, frac, 22);
    x := Or32(0x7fc0_0000, frac);
  }

  /** __trunctfdf2 */
  method TruncTfDf2(f: U128) returns (x: u64)
    ensures IsNarrowed64(f, x)
  {
    var sgn, exp, m := F3Unpack(f);
    Classify(f, exp, m);
    ghost var n, k := Units(112, Mag(f)), UnitExp() - 1074;
    hide Units, Pow2, NearestEven;
    var nan := LooksNaN(exp, m);
    var r: u64;
    if nan {
      r := NaN64(f, m);
    } else if exp > 17406 {
      Constants64();
      NarrowBig(Binary64, Nat128(m), exp - 1, n, k);
      r := 0x7ff0_0000_0000_0000;
    } else if exp < 15308 {
      Constants64();
      NarrowSmall(Binary64, Nat128(m), exp - 1, n, k);
      r := 0;
    } else {
      r := Round64(exp, m, n, k);
    }
    x := WithSign64(sgn, r);
  }

  /** __trunctfsf2 */
  method TruncTfSf2(f: U128) returns (x: u32)
    ensures IsNarrowed32(f, x)
  {
    var sgn, exp, m := F3Unpack(f);
    Classify(f, exp, m);
    ghost var n, k := Units(112, Mag(f)), UnitExp() - 149;
    hide Units, Pow2, NearestEven;
    var nan := LooksNaN(exp, m);
    var r: u32;
    if nan {
      r := NaN32(f, m);
    } else if exp > 16510 {
      Constants32();
      NarrowBig(Binary32, Nat128(m), exp - 1, n, k);
      r := 0x7f80_0000;
    } else if exp < 16233 {
      Constants32();
      NarrowSmall(Binary32, Nat128(m), exp - 1, n, k);
      r := 0;
    } else {
      r := Round32(exp, m, n, k);
    }
    x := WithSign32(sgn, r);
  }
}
