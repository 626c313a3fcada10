/** __aeabi_ul2d, __aeabi_ul2f, __aeabi_l2d and __aeabi_l2f (lib/armeabi.c): correctly rounded, and
    in agreement with the binary128 route of lib/lib-arm64.c. */
module IntToFloat {
  import opened Words
  import opened IeeeFormat
  import opened Quad
  import opened Narrow
  import opened Bits32
  import opened Integers

  /** `m` is the encoding nearest to the integer a; one is 2^k units of the format. */
  ghost predicate Rounded(f: Format, a: nat, k: nat, m: nat)
  {
    MulNat(a, Pow2(k));
    NearestEven(f, a * Pow2(k), 1, m)
  }

  // Rounding an integer to fewer bits.

  /** The remainder against one half decides; on a tie the quotient becomes even. */
  lemma HalfRule(a: nat, p: nat, q: nat, r: nat, m: nat)
    requires p > 0 && a == q * (2 * p) + r && r < 2 * p
    requires m == if r > p || (r == p && q % 2 == 1) then q + 1 else q
    ensures IntNearestEven(a, 2 * p, m)
  {
    Distrib(q, 1, 2 * p);
  }

  lemma IntNearestTimes(n: nat, d: nat, k: nat, c: nat, n': nat, d': nat)
    requires c > 0 && n' == n * c && d' == d * c && IntNearestEven(n, d, k)
    ensures IntNearestEven(n', d', k)
  {
    var t := Dist(n, d, k);
    DistTimes(n, d, k, c, n', d');
    MulAssoc(2, t, c);
    MulCancel(2 * t, d, c);
  }

  lemma DistTimes(n: nat, d: nat, k: nat, c: nat, n': nat, d': nat)
    requires n' == n * c && d' == d * c
    ensures Dist(n', d', k) == Dist(n, d, k) * c
  {
    MulAssoc(k, d, c);
    if n >= k * d {
      MulMono(k * d, n, c);
      Distrib(n, 0 - k * d, c);
    } else {
      MulMono(n, k * d, c);
      Distrib(k * d, 0 - n, c);
    }
  }

  /** A rounded mantissa with its exponent is the rounded integer. */
  lemma RoundedInteger(f: Format, a: nat, s: nat, m: nat, k: nat)
    requires Proper(f) && IntNearestEven(a, Pow2(s), m) && Pow2(f.frac) <= m <= 2 * Pow2(f.frac)
    requires Pow2(f.frac) * Pow2(s) <= a && s + k > 0
    ensures Rounded(f, a, k, Min(Encoded(f.frac, m, s + k), Inf(f)))
  {
    var n := Product(a, Pow2(k));
    assert GridRounded(f.frac, n, 1, m, s + k) by {
      hide IntNearestEven, Pow2;
      Pow2Add(s, k);
      IntNearestTimes(a, Pow2(s), m, Pow2(k), n, Pow2(s + k));
      MulOne(Pow2(s + k), 1);
      MulMono(Pow2(f.frac) * Pow2(s), a, Pow2(k));
      MulAssoc(Pow2(f.frac), Pow2(s), Pow2(k));
    }
    hide *;
    NearestOnGrid(f, n, 1, m, s + k);
    RoundedIs(f, a, k, Min(Encoded(f.frac, m, s + k), Inf(f)), n);
  }

  lemma RoundedIs(f: Format, a: nat, k: nat, m: nat, n: nat)
    requires n == a * Pow2(k) && NearestEven(f, n, 1, m)
    ensures Rounded(f, a, k, m)
  {
    hide NearestEven, Pow2;
  }

  lemma ExactInteger(f: Format, a: nat, j: nat, t: nat, e: nat, m: nat)
    requires t == a * Pow2(j) && Pow2(f.frac) <= t < 2 * Pow2(f.frac) && m == Encoded(f.frac, t, e) && m <= Inf(f)
    ensures Rounded(f, a, j + e, m)
  {
    hide *;
    UnitsOfGrid(f.frac, t, e);
    MulPow2(a, j, e);
    var n := Product(a, Pow2(j + e));
    MulOne(Units(f.frac, m), 1);
    ExactIsNearest(f, n, 1, m);
    RoundedIs(f, a, j + e, m, n);
  }

  // The shared body of the four routines: fraction width, bias, and the format they make.

  ghost predicate Fits(f: Format, frac: nat, bias: nat)
  {
    && Proper(f) && f.frac == frac && 1 <= frac <= 52 && bias > 0 && bias + 65 <= f.top
    && (bias + 65) * Pow2(frac) < 0x8000_0000_0000_0000
  }

  /** (exp << frac) | (mant & (2^frac - 1)) */
  method PackFields(exp: nat, mant: u64, frac: nat, ghost f: Format, ghost bias: nat) returns (r: u64)
    requires Fits(f, frac, bias) && 0 < exp <= bias + 64 && Pow2(frac) <= mant < 2 * Pow2(frac)
    ensures r == Encoded(frac, mant, exp - 1) <= Inf(f)
  {
    FieldRoom(exp, mant, frac, f, bias);
    hide *;
    var low, hi := Mask64(mant, frac, Pow2(frac));
    Euclid(Pow2(frac), hi, low, 1, mant - Pow2(frac));
    var e := Scale64(exp, frac, Pow2(frac));
    r := Join64(e, low, frac, Pow2(frac), exp);
  }

  lemma FieldRoom(exp: nat, mant: nat, frac: nat, f: Format, bias: nat)
    requires Fits(f, frac, bias) && 0 < exp <= bias + 64 && Pow2(frac) <= mant < 2 * Pow2(frac)
    ensures exp < 0x8000_0000_0000_0000 && 0 <= exp * Pow2(frac) < 0x8000_0000_0000_0000
    ensures Encoded(frac, mant, exp - 1) == exp * Pow2(frac) + (mant - Pow2(frac))
    ensures Encoded(frac, mant, exp - 1) <= Inf(f)
  {
    var p := Pow2(frac);
    MulNat(exp, p);
    MulMono(exp, bias + 65, p);
    Distrib(exp - 1, 1, p);
    MulMono(exp + 1, f.top, p);
    Distrib(exp, 1, p);
    MulMono(1, p, exp);
  }

  method ConvertExact(a: u64, msb: nat, frac: nat, bias: nat, ghost f: Format) returns (r: u64)
    requires Fits(f, frac, bias) && msb <= frac && Pow2(msb) <= a < 2 * Pow2(msb)
    ensures Rounded(f, a, bias + frac - 1, r) && r <= Inf(f)
  {
    assert f.frac == frac && 1 <= frac <= 52 && bias > 0;
    hide *;
    ghost var shifted := ExactShifted(a, msb, frac);
    var t := Scale64(a, frac - msb, Pow2(frac - msb));
    r := PackFields(bias + msb, t, frac, f, bias);
    ExactInteger(f, a, frac - msb, t, bias + msb - 1, r);
  }

  lemma ExactShifted(a: nat, msb: nat, frac: nat) returns (t: nat)
    requires msb <= frac <= 52 && Pow2(msb) <= a < 2 * Pow2(msb)
    ensures t == a * Pow2(frac - msb) && Pow2(frac) <= t < 2 * Pow2(frac) && t < 0x1_0000_0000_0000_0000
  {
    assert Pow2(52) == 0x10_0000_0000_0000 by { Pow2Odd(); }
    hide *;
    t := Product(a, Pow2(frac - msb));
    Pow2Add(msb, frac - msb);
    MulMono(Pow2(msb), a, Pow2(frac - msb));
    MulMonoStrict(a, 2 * Pow2(msb), Pow2(frac - msb));
    MulAssoc(2, Pow2(msb), Pow2(frac - msb));
    Pow2Mono(frac, 52);
  }

  /** mant = a >> shift, rounded by the dropped bits. */
  method RoundBits(a: u64, shift: nat, frac: nat) returns (m: u64)
    requires 0 < shift < 64 && frac <= 52 && Pow2(frac + shift) <= a < 2 * Pow2(frac + shift)
    ensures IntNearestEven(a, Pow2(shift), m) && Pow2(frac) <= m <= 2 * Pow2(frac)
  {
    ghost var p := Pow2(shift);
    assert p == 2 * Pow2(shift - 1);
    hide *;
    ghost var rem;
    m, rem := Right64(a, shift, p);
    var dropped, hi := Mask64(a, shift, p);
    Euclid(p, hi, dropped, m, rem);
    QuotientRange(a, m, rem, shift, frac);
    PowerFits(shift);
    var half := Scale64(1, shift - 1, Pow2(shift - 1));
    ghost var q := m;
    if dropped > half || (dropped == half && m % 2 == 1) {
      m := m + 1;
    }
    HalfRule(a, Pow2(shift - 1), q, dropped, m);
  }

  lemma PowerFits(shift: nat)
    requires 0 < shift < 64
    ensures 1 * Pow2(shift - 1) < 0x1_0000_0000_0000_0000
  {
    assert Pow2(64) == 0x1_0000_0000_0000_0000 by { Pow2Values(); }
    Pow2Mono(shift - 1, 64);
  }

  lemma QuotientRange(a: nat, q: nat, r: nat, s: nat, frac: nat)
    requires a == q * Pow2(s) + r && r < Pow2(s) && frac <= 52 && Pow2(frac + s) <= a < 2 * Pow2(frac + s)
    ensures Pow2(frac) <= q < 2 * Pow2(frac) && q + 1 < 0x1_0000_0000_0000_0000
  {
    assert Pow2(52) == 0x10_0000_0000_0000 by { Pow2Odd(); }
    hide *;
    Pow2Mono(frac, 52);
    Pow2Add(frac, s);
    Distrib(q, 1, Pow2(s));
    MulCancel(Pow2(frac), q + 1, Pow2(s));
    MulAssoc(2, Pow2(frac), Pow2(s));
    MulCancel(q, 2 * Pow2(frac), Pow2(s));
  }

  method ConvertRounded(a: u64, msb: nat, frac: nat, bias: nat, ghost f: Format) returns (r: u64)
    requires Fits(f, frac, bias) && frac < msb < 64 && Pow2(msb) <= a < 2 * Pow2(msb)
    ensures Rounded(f, a, bias + frac - 1, r) && r <= Inf(f)
  {
    assert 1 <= frac <= 52 && bias > 0 && f.frac == frac && Proper(f);
    hide *;
    var shift := msb - frac;
    var mant := RoundBits(a, shift, frac);
    Pow2Add(frac, shift);
    RoundedInteger(f, a, shift, mant, bias + frac - 1);
    var exp, m := bias + msb, mant;
    if m == PowTwice(frac) {
      m := PowTwice(frac) / 2;
      exp := exp + 1;
      CarryEncoded(frac, bias + msb);
    }
    PowTwiceIs(frac);
    r := PackFields(exp, m, frac, f, bias);
    MinIs(Encoded(frac, mant, shift + bias + frac - 1), Inf(f));
  }

  /** 1 << (frac + 1) */
  function PowTwice(frac: nat): nat { 2 * Pow2(frac) }

  lemma PowTwiceIs(frac: nat)
    ensures PowTwice(frac) == 2 * Pow2(frac) && PowTwice(frac) / 2 == Pow2(frac)
  {}

  lemma CarryEncoded(frac: nat, exp: nat)
    requires exp > 0
    ensures Encoded(frac, Pow2(frac), exp) == Encoded(frac, 2 * Pow2(frac), exp - 1)
  {
    Distrib(exp - 1, 1, Pow2(frac));
  }

  lemma MinIs(a: nat, b: nat)
    ensures a <= b ==> Min(a, b) == a
  {}

  method Convert(a: u64, frac: nat, bias: nat, ghost f: Format) returns (r: u64)
    requires a > 0 && Fits(f, frac, bias)
    ensures Rounded(f, a, bias + frac - 1, r) && r <= Inf(f)
  {
    hide Rounded, Pow2, Inf;
    var msb := Msb64(a);
    if msb <= frac {
      r := ConvertExact(a, msb, frac, bias, f);
    } else {
      r := ConvertRounded(a, msb, frac, bias, f);
    }
  }

  // The entry points.

  lemma Fits64()
    ensures Fits(Binary64, 52, 1023) && Inf(Binary64) == Inf64
  {
    Pow2Odd();
  }

  lemma Fits32()
    ensures Fits(Binary32, 23, 127) && Inf(Binary32) == Inf32
  {
    Pow2Odd();
  }

  lemma ZeroRounded(f: Format, k: nat)
    ensures Rounded(f, 0, k, 0)
  {
    assert Units(f.frac, 0) == 0;
    hide *;
    MulOne(0, 1);
    var n := Product(0, Pow2(k));
    ExactIsNearest(f, n, 1, 0);
    RoundedIs(f, 0, k, 0, n);
  }

  /** __aeabi_ul2d */
  method Ul2d(a: u64) returns (r: u64)
    ensures Sign64(r) == 0 && Rounded(Binary64, a, 1074, Mag64(r))
  {
    Fits64();
    hide Rounded, Inf, Fits;
    if a == 0 {
      r := 0;
      ZeroRounded(Binary64, 1074);
    } else {
      r := Convert(a, 52, 1023, Binary64);
    }
  }

  /** __aeabi_ul2f */
  method Ul2f(a: u64) returns (r: u32)
    ensures Sign32(r) == 0 && Rounded(Binary32, a, 149, Mag32(r))
  {
    Fits32();
    hide Rounded, Inf, Fits;
    if a == 0 {
      r := 0;
      ZeroRounded(Binary32, 149);
    } else {
      var w := Convert(a, 23, 127, Binary32);
      r := w;
    }
  }

  function SignOf(a: int): bit { if a < 0 then 1 else 0 }

  /** -(unsigned long long)a, or a itself. */
  function Magnitude(a: i64): u64
  {
    if a < 0 then Sub64(0, a + 0x1_0000_0000_0000_0000) else a
  }

  /** __aeabi_l2d */
  method L2d(a: i64) returns (r: u64)
    ensures (Sign64(r) == 1 <==> a < 0) && Rounded(Binary64, Abs(a), 1074, Mag64(r))
  {
    Fits64();
    hide Rounded, Inf, Fits;
    if a == 0 {
      r := 0;
      ZeroRounded(Binary64, 1074);
    } else {
      var m := Convert(Magnitude(a), 52, 1023, Binary64);
      r := WithSign64(SignOf(a), m);
    }
  }

  /** __aeabi_l2f */
  method L2f(a: i64) returns (r: u32)
    ensures (Sign32(r) == 1 <==> a < 0) && Rounded(Binary32, Abs(a), 149, Mag32(r))
  {
    Fits32();
    hide Rounded, Inf, Fits;
    if a == 0 {
      r := 0;
      ZeroRounded(Binary32, 149);
    } else {
      var m := Convert(Magnitude(a), 23, 127, Binary32);
      r := WithSign32(SignOf(a), m);
    }
  }

  // Two routes, one answer.

  /** Rounding depends on the fraction only. */
  lemma NearestTimes(f: Format, n: nat, d: nat, c: nat, m: nat, n': nat, d': nat)
    requires c > 0 && n' == n * c && d' == d * c && NearestEven(f, n, d, m)
    ensures NearestEven(f, n', d', m)
  {
    forall y: nat | y <= Inf(f)
      ensures Dist(n', d', Units(f.frac, m)) <= Dist(n', d', Units(f.frac, y))
      ensures Dist(n', d', Units(f.frac, m)) == Dist(n', d', Units(f.frac, y))
         <==> Dist(n, d, Units(f.frac, m)) == Dist(n, d, Units(f.frac, y))
    {
      DistTimes(n, d, Units(f.frac, m), c, n', d');
      DistTimes(n, d, Units(f.frac, y), c, n', d');
      MulCancel(Dist(n, d, Units(f.frac, m)), Dist(n, d, Units(f.frac, y)), c);
    }
  }

  /** A magnitude rounded directly, and the same integer narrowed from its exact binary128 form. */
  lemma SameMagnitude(f: Format, a: nat, k: nat, j: nat, u: nat, m: nat, x: nat)
    requires Rounded(f, a, k, m) && u == a * Pow2(k + j) && NearestEven(f, u, Pow2(j), x)
    ensures x == m
  {
    var n := Product(a, Pow2(k));
    assert NearestEven(f, n, 1, m);
    hide *;
    MulPow2(a, k, j);
    MulOne(Pow2(j), 1);
    NearestTimes(f, n, 1, Pow2(j), m, u, Pow2(j));
    NearestEvenUnique(f, u, Pow2(j), x, m);
  }

  /** __aeabi_l2d (and __aeabi_ul2d) equals __floatditf (__floatunditf) then __trunctfdf2. */
  lemma RoutesAgree64(a: int, f: U128, x: u64, r: u64)
    requires IsFloat(a, f) && IsNarrowed64(f, x)
    requires (Sign64(r) == 1 <==> a < 0) && Rounded(Binary64, Abs(a), 1074, Mag64(r))
    ensures x == r
  {
    assert UnitExp() == 1074 + 15420 && UnitExp() - 1074 == 15420;
    hide NearestEven, Rounded, Units, Pow2;
    SameMagnitude(Binary64, Abs(a), 1074, 15420, Units(112, Mag(f)), Mag64(r), Mag64(x));
  }

  /** __aeabi_l2f (and __aeabi_ul2f) equals __floatditf (__floatunditf) then __trunctfsf2. */
  lemma RoutesAgree32(a: int, f: U128, x: u32, r: u32)
    requires IsFloat(a, f) && IsNarrowed32(f, x)
    requires (Sign32(r) == 1 <==> a < 0) && Rounded(Binary32, Abs(a), 149, Mag32(r))
    ensures x == r
  {
    assert UnitExp() == 149 + 16345 && UnitExp() - 149 == 16345;
    hide NearestEven, Rounded, Units, Pow2;
    SameMagnitude(Binary32, Abs(a), 149, 16345, Units(112, Mag(f)), Mag32(r), Mag32(x));
  }

  /** Both routes, run: r directly, x through binary128. */
  method SignedRoutes(a: i64) returns (r64: u64, x64: u64, r32: u32, x32: u32)
    ensures x64 == r64 && (Sign64(r64) == 1 <==> a < 0) && Rounded(Binary64, Abs(a), 1074, Mag64(r64))
    ensures x32 == r32 && (Sign32(r32) == 1 <==> a < 0) && Rounded(Binary32, Abs(a), 149, Mag32(r32))
  {
    hide IsFloat, IsNarrowed64, IsNarrowed32, Rounded;
    var f := FloatDiTf(a);
    r64 := L2d(a);
    x64 := TruncTfDf2(f);
    RoutesAgree64(a, f, x64, r64);
    r32 := L2f(a);
    x32 := TruncTfSf2(f);
    RoutesAgree32(a, f, x32, r32);
  }

  method UnsignedRoutes(a: u64) returns (r64: u64, x64: u64, r32: u32, x32: u32)
    ensures x64 == r64 && Sign64(r64) == 0 && Rounded(Binary64, a, 1074, Mag64(r64))
    ensures x32 == r32 && Sign32(r32) == 0 && Rounded(Binary32, a, 149, Mag32(r32))
  {
    hide IsFloat, IsNarrowed64, IsNarrowed32, Rounded;
    var f := FloatUnDiTf(a);
    r64 := Ul2d(a);
    x64 := TruncTfDf2(f);
    RoutesAgree64(a, f, x64, r64);
    r32 := Ul2f(a);
    x32 := TruncTfSf2(f);
    RoutesAgree32(a, f, x32, r32);
  }
}
