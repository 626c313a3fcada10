/** The word-pair building blocks of the quadruple-precision routines in lib/lib-arm64.c:
    unpack, normalise, sticky shift and round-and-pack. */
module Quad {
  import opened Words
  import opened IeeeFormat
  import opened Sticky

  /** u128_t: two 64-bit halves, low half first. */
  datatype U128 = U128(x0: u64, x1: u64)

  const P112: nat := 0x1_0000_0000_0000_0000_0000_0000_0000
  const P114: nat := 0x4_0000_0000_0000_0000_0000_0000_0000
  const P127: nat := 0x8000_0000_0000_0000_0000_0000_0000_0000
  const InfMag: nat := 0x7fff_0000_0000_0000_0000_0000_0000_0000

  function Nat128(x: U128): nat { x.x1 * 0x1_0000_0000_0000_0000 + x.x0 }

  /** Values are counted in units of 2^-UnitExp. */
  ghost function UnitExp(): nat { 16494 }

  // Reading a bit pattern as a binary128 datum.

  function Sign(f: U128): bit { if f.x1 >= 0x8000_0000_0000_0000 then 1 else 0 }

  function Mag(f: U128): nat { if Sign(f) == 1 then Nat128(f) - P127 else Nat128(f) }

  predicate IsNaN(f: U128) { Mag(f) > InfMag }

  predicate IsInf(f: U128) { Mag(f) == InfMag }

  predicate IsQuietNaN(f: U128) { Mag(f) >= InfMag + P112 / 2 }

  /** A fraction with its top bit set. */
  function Quieted(frac: nat, top: nat): nat { if frac >= top then frac else frac + top }

  /** The operand that a NaN result is made of: a signalling one before a quiet one, the left one before the right. */
  ghost function Propagated(a: U128, b: U128): U128
  {
    if IsNaN(a) && !IsQuietNaN(a) then a
    else if IsNaN(b) && !IsQuietNaN(b) then b
    else if IsNaN(a) then a
    else b
  }

  /** f is the NaN n with its quiet bit set, otherwise unchanged. */
  ghost predicate Quiets(n: U128, f: U128)
  {
    IsNaN(n) && Sign(f) == Sign(n) && Mag(f) == InfMag + Quieted(Mag(n) - InfMag, P112 / 2)
  }

  /** The NaN of an invalid operation. */
  const DefaultNaN: U128 := U128(0xffff_ffff_ffff_ffff, 0x7fff_ffff_ffff_ffff)

  /** The value of a non-NaN datum read with sign `sgn`, in units of 2^-16494. */
  ghost function Value(sgn: bit, f: U128): int
  {
    if sgn == 1 then 0 - Units(112, Mag(f)) else Units(112, Mag(f))
  }

  lemma Constants()
    ensures Pow2(112) == P112 && Pow2(127) == P127 && Pow2(128) == 2 * P127
    ensures Inf(Binary128) == InfMag && Proper(Binary128)
  {
    Pow2Values();
    Pow2Add(64, 48);
    Pow2Add(64, 63);
    assert Pow2(128) == 2 * Pow2(127);
  }

  /** !(x0 | x1) */
  method IsZero(x: U128) returns (r: bool)
    ensures r <==> Nat128(x) == 0
  {
    r := BothZero(x.x0, x.x1);
  }

  // Shifts of a pair: (x1 << k | x0 >> (64 - k), x0 << k) and its mirror image.

  method ShiftLeft(x: U128, k: nat) returns (r: U128)
    requires 0 < k < 64 && x.x1 < Pow2(64 - k)
    ensures Nat128(r) == Nat128(x) * Pow2(k)
  {
    var m, lo, l := SplitHigh(x.x0, 64 - k);
    WordFits(x.x1, k);
    var h := Scale64(x.x1, k, Pow2(k));
    h := Join64(h, m, k, Pow2(k), x.x1);
    r := U128(l, h);
    LeftPair(x.x1, x.x0, m, lo, Pow2(64 - k), Pow2(k));
  }

  lemma WordFits(x: nat, k: nat)
    requires k < 64
    ensures Pow2(64 - k) * Pow2(k) == 0x1_0000_0000_0000_0000
    ensures x < Pow2(64 - k) ==> x * Pow2(k) < 0x1_0000_0000_0000_0000
  {
    Pow2Add(64 - k, k);
    Pow2Values();
    if x < Pow2(64 - k) { MulMonoStrict(x, Pow2(64 - k), Pow2(k)); }
  }

  lemma LeftPair(x1: nat, x0: nat, hi: nat, lo: nat, s: nat, p: nat)
    requires s * p == 0x1_0000_0000_0000_0000 && x0 == hi * s + lo
    ensures (x1 * p + hi) * 0x1_0000_0000_0000_0000 + lo * p == (x1 * 0x1_0000_0000_0000_0000 + x0) * p
  {
    Distrib(hi * s, lo, p);
    MulAssoc(hi, s, p);
    MulEq(hi, s * p, 0x1_0000_0000_0000_0000);
    MulEq(p, x0, hi * s + lo);
    Distrib(x1 * 0x1_0000_0000_0000_0000, x0, p);
  }

  method ShiftRight(x: U128, k: nat) returns (r: U128, ghost q0: nat, ghost lo: nat)
    requires 0 < k < 64
    ensures Nat128(x) == Nat128(r) * Pow2(k) + lo && lo < Pow2(k)
    ensures x.x0 == q0 * Pow2(k) + lo
  {
    var h, b, m := SplitHigh(x.x1, k);
    var l, lo', m' := SplitHigh(x.x0, k);
    q0, lo := l, lo';
    l := Join64(m, l, 64 - k, Pow2(64 - k), b);
    r := U128(l, h);
    WordFits(0, k);
    RightPair(x.x1, x.x0, h, b, q0, lo, Pow2(64 - k), Pow2(k));
  }

  /** x >> k, and the bits it loses moved to the top: x << (64 - k). */
  method SplitHigh(x: u64, k: nat) returns (h: u64, ghost b: nat, m: u64)
    requires 0 < k < 64
    ensures x == h * Pow2(k) + b && b < Pow2(k) && h < Pow2(64 - k) && m == b * Pow2(64 - k)
  {
    ghost var hi, rem;
    m, hi, b := Left64(x, 64 - k, Pow2(k), Pow2(64 - k));
    h, rem := Right64(x, k, Pow2(k));
    Euclid(Pow2(k), h, rem, hi, b);
  }

  lemma RightPair(x1: nat, x0: nat, h: nat, b: nat, q0: nat, lo: nat, s: nat, p: nat)
    requires s * p == 0x1_0000_0000_0000_0000 && x1 == h * p + b && x0 == q0 * p + lo
    ensures x1 * 0x1_0000_0000_0000_0000 + x0 == (h * 0x1_0000_0000_0000_0000 + (b * s + q0)) * p + lo
  {
    Distrib(h * 0x1_0000_0000_0000_0000, b * s + q0, p);
    Distrib(b * s, q0, p);
    MulAssoc(b, s, p);
    MulEq(b, s * p, 0x1_0000_0000_0000_0000);
  }

  // Fields of the high half.

  /** x1 >> 63, x1 >> 48 & 32767 and x1 << 16 >> 16. */
  method Fields(x1: u64) returns (sgn: bit, exp: nat, frac: u64)
    ensures x1 == sgn * 0x8000_0000_0000_0000 + exp * 0x1_0000_0000_0000 + frac
    ensures exp < 0x8000 && frac < 0x1_0000_0000_0000
  {
    assert Pow2(15) == 0x8000 && Pow2(48) == 0x1_0000_0000_0000 && Pow2(63) == 0x8000_0000_0000_0000
      by { Pow2Values(); }
    var s, lo63 := Right64(x1, 63, 0x8000_0000_0000_0000);
    var t, lo48 := Right64(x1, 48, 0x1_0000_0000_0000);
    var e, hi := Mask64(t, 15, 0x8000);
    Euclid(0x8000_0000_0000_0000, s, lo63, hi, e * 0x1_0000_0000_0000 + lo48);
    sgn, exp := s, e;
    ghost var h;
    frac, h := LowFraction(x1);
    Euclid(0x1_0000_0000_0000, h, frac, t, lo48);
  }

  /** x1 << 16 >> 16 */
  method LowFraction(x1: u64) returns (frac: u64, ghost hi: nat)
    ensures frac < 0x1_0000_0000_0000 && x1 == hi * 0x1_0000_0000_0000 + frac
  {
    assert Pow2(48) == 0x1_0000_0000_0000 && Pow2(16) == 0x1_0000 by { Pow2Values(); }
    var t; ghost var lo, rem;
    t, hi, lo := Left64(x1, 16, 0x1_0000_0000_0000, 0x1_0000);
    frac, rem := Right64(t, 16, 0x1_0000);
  }

  /** frac | exp << 48 | sgn << 63, the fields put together again. */
  method PackHigh(sgn: bit, exp: nat, frac: u64) returns (r: u64)
    requires exp < 0x8000 && frac < 0x1_0000_0000_0000
    ensures r == sgn * 0x8000_0000_0000_0000 + exp * 0x1_0000_0000_0000 + frac
  {
    assert Pow2(48) == 0x1_0000_0000_0000 && Pow2(63) == 0x8000_0000_0000_0000 by { Pow2Values(); }
    var e := Scale64(exp, 48, 0x1_0000_0000_0000);
    r := Join64(e, frac, 48, 0x1_0000_0000_0000, exp);
    var s := Scale64(sgn, 63, 0x8000_0000_0000_0000);
    r := Join64(s, r, 63, 0x8000_0000_0000_0000, sgn);
  }

  method F3Zero(sgn: bit) returns (f: U128)
    ensures Sign(f) == sgn && Mag(f) == 0
  {
    var h := PackHigh(sgn, 0, 0);
    f := U128(0, h);
  }

  method F3Infinity(sgn: bit) returns (f: U128)
    ensures Sign(f) == sgn && Mag(f) == InfMag
  {
    var h := PackHigh(sgn, 0x7fff, 0);
    f := U128(0, h);
  }

  method F3NaN() returns (f: U128)
    ensures f == DefaultNaN && IsQuietNaN(f)
  {
    f := U128(0xffff_ffff_ffff_ffff, 0x7fff_ffff_ffff_ffff);
  }

  /** f3_unpack: sign, biased exponent (at least 1) and mantissa with its implicit bit. */
  method F3Unpack(f: U128) returns (sgn: bit, exp: int, mnt: U128)
    ensures sgn == Sign(f) && 1 <= exp <= 32767
    ensures Nat128(mnt) < 2 * P112 && (exp > 1 ==> Nat128(mnt) >= P112)
    ensures Mag(f) == (exp - 1) * P112 + Nat128(mnt)
    ensures Units(112, Mag(f)) == Nat128(mnt) * Pow2(exp - 1)
  {
    var x1;
    sgn, exp, x1 := Fields(f.x1);
    if exp != 0 {
      assert Pow2(48) == 0x1_0000_0000_0000 by { Pow2Values(); }
      var one := Scale64(1, 48, 0x1_0000_0000_0000);
      x1 := Join64(one, x1, 48, 0x1_0000_0000_0000, 1);
    } else {
      exp := 1;
    }
    mnt := U128(f.x0, x1);
    UnpackedUnits(Mag(f), Nat128(mnt), exp - 1);
  }

  lemma UnpackedUnits(m: nat, mant: nat, e: nat)
    requires m == e * P112 + mant && mant < 2 * P112 && (e > 0 ==> mant >= P112)
    ensures Units(112, m) == mant * Pow2(e)
  {
    assert Pow2(112) == P112 by { Constants(); }
    assert Encoded(112, mant, e) == m;
    UnitsOfGrid(112, mant, e);
  }

  /** The class of a datum, read off its unpacked exponent and mantissa. */
  lemma Classify(f: U128, exp: int, mnt: U128)
    requires 1 <= exp <= 32767 && Nat128(mnt) < 2 * P112 && (exp > 1 ==> Nat128(mnt) >= P112)
    requires Mag(f) == (exp - 1) * P112 + Nat128(mnt)
    ensures IsNaN(f) <==> exp == 32767 && Nat128(mnt) > P112
    ensures IsInf(f) <==> exp == 32767 && Nat128(mnt) == P112
    ensures exp < 32767 <==> Mag(f) < InfMag
  {}

  /** exp == 32767 && (x0 | x1 << 16): an all-ones exponent with a non-zero fraction. */
  method LooksNaN(exp: int, mnt: U128) returns (r: bool)
    requires exp == 32767 ==> P112 <= Nat128(mnt) < 2 * P112
    ensures r <==> exp == 32767 && Nat128(mnt) > P112
  {
    assert Pow2(48) == 0x1_0000_0000_0000 && Pow2(16) == 0x1_0000 by { Pow2Values(); }
    hide *;
    var t, hi, lo := Left64(mnt.x1, 16, 0x1_0000_0000_0000, 0x1_0000);
    var z := BothZero(mnt.x0, t);
    r := exp == 32767 && !z;
    if exp == 32767 { FractionIsZero(mnt, hi, lo); }
  }

  lemma FractionIsZero(mnt: U128, hi: nat, lo: nat)
    requires P112 <= Nat128(mnt) < 2 * P112 && mnt.x1 == hi * 0x1_0000_0000_0000 + lo && lo < 0x1_0000_0000_0000
    ensures Nat128(mnt) > P112 <==> !(mnt.x0 == 0 && lo == 0)
  {}

  /** What F3Unpack says of a datum and its parts. */
  ghost predicate IsUnpacked(f: U128, sgn: bit, exp: int, mnt: U128)
  {
    && sgn == Sign(f) && 1 <= exp <= 32767
    && Nat128(mnt) < 2 * P112 && (exp > 1 ==> Nat128(mnt) >= P112)
    && Mag(f) == (exp - 1) * P112 + Nat128(mnt)
  }

  /** A mantissa's upper word by its quiet bit and the bits below it. */
  lemma OrQuiet(q: nat, low: nat)
    requires 2 <= q <= 3 && low < 0x8000_0000_0000
    ensures Or(q * 0x8000_0000_0000 + low, 0x7fff_8000_0000_0000) == 0x7fff_8000_0000_0000 + low
  {
    hide Or;
    assert Pow2(47) == 0x8000_0000_0000 by { Pow2Values(); assert Pow2(48) == 2 * Pow2(47); }
    hide Pow2;
    OrOnes(q);
    OrZero(low);
    OrSplit(q * 0x8000_0000_0000 + low, q, low, 0x7fff_8000_0000_0000, 0xffff, 0, 47);
  }

  lemma OrOnes(q: nat)
    requires 2 <= q <= 3
    ensures Or(q, 0xffff) == 0xffff
  {
    assert Pow2(2) == 4;
    assert Or(q, 3) == 3 by { OrUnfold(q, 3); }
    hide Or, Pow2;
    OrSplit(q, 0, q, 0xffff, 0x3fff, 3, 2);
    OrZero(0x3fff);
  }

  lemma QuietedWords(mnt: U128, q: nat, low: nat, h: u64)
    requires P112 <= Nat128(mnt) < 2 * P112 && mnt.x1 == q * 0x8000_0000_0000 + low && low < 0x8000_0000_0000
    ensures 2 <= q <= 3 && (q == 3 <==> Nat128(mnt) - P112 >= P112 / 2)
    ensures h == 0x7fff_8000_0000_0000 + low ==>
      h * 0x1_0000_0000_0000_0000 + mnt.x0 == InfMag + Quieted(Nat128(mnt) - P112, P112 / 2)
  {}

  /** fp3_convert_NaN: the operand with its quiet bit set. */
  method F3ConvertNaN(sgn: bit, mnt: U128, ghost n: U128) returns (f: U128)
    requires IsUnpacked(n, sgn, 32767, mnt) && IsNaN(n)
    ensures Quiets(n, f)
  {
    assert Pow2(63) == 0x8000_0000_0000_0000 by { Pow2Values(); }
    hide Or, Pow2;
    ghost var q, low := mnt.x1 / 0x8000_0000_0000, mnt.x1 % 0x8000_0000_0000;
    QuietedWords(mnt, q, low, 0x7fff_8000_0000_0000 + low);
    OrQuiet(q, low);
    var h: u64 := Or(mnt.x1, 0x7fff_8000_0000_0000);
    var s := Scale64(sgn, 63, 0x8000_0000_0000_0000);
    var t := Join64(s, h, 63, 0x8000_0000_0000_0000, sgn);
    f := U128(mnt.x0, t);
  }

  /** x1 >> 47 & 1 */
  method QuietBit(exp: int, mnt: U128, ghost n: U128, ghost sgn: bit) returns (r: bool)
    requires IsUnpacked(n, sgn, exp, mnt)
    ensures IsNaN(n) ==> (r <==> IsQuietNaN(n))
  {
    assert Pow2(47) == 0x8000_0000_0000 by { Pow2Values(); assert Pow2(48) == 2 * Pow2(47); }
    var y, low := Right64(mnt.x1, 47, 0x8000_0000_0000);
    AndOne(y);
    hide And, Pow2;
    r := And(y, 1) == 1;
    if IsNaN(n) {
      Classify(n, exp, mnt);
      QuietedWords(mnt, y, low, 0);
    }
  }

  lemma AndOne(y: nat)
    ensures And(y, 1) == y % 2
  {}

  /** fp3_detect_NaNs: signalling operands first, then quiet ones, left before right. */
  method F3DetectNaNs(aSgn: bit, aExp: int, a: U128, bSgn: bit, bExp: int, b: U128, ghost fa: U128, ghost fb: U128)
    returns (found: bool, f: U128)
    requires IsUnpacked(fa, aSgn, aExp, a) && IsUnpacked(fb, bSgn, bExp, b)
    ensures found <==> IsNaN(fa) || IsNaN(fb)
    ensures found ==> Quiets(Propagated(fa, fb), f)
  {
    Classify(fa, aExp, a);
    Classify(fb, bExp, b);
    var aNaN := LooksNaN(aExp, a);
    var bNaN := LooksNaN(bExp, b);
    var aQuiet := QuietBit(aExp, a, fa, aSgn);
    var bQuiet := QuietBit(bExp, b, fb, bSgn);
    hide Quiets;
    found := true;
    if aNaN && !aQuiet {
      f := F3ConvertNaN(aSgn, a, fa);
    } else if bNaN && !bQuiet {
      f := F3ConvertNaN(bSgn, b, fb);
    } else if aNaN {
      f := F3ConvertNaN(aSgn, a, fa);
    } else if bNaN {
      f := F3ConvertNaN(bSgn, b, fb);
    } else {
      found := false;
      f := U128(0, 0);
    }
  }

  /** f3_normalise: shift left until the top bit is set. */
  method F3Normalise(exp: int, mnt: U128) returns (e: int, r: U128)
    ensures Nat128(mnt) > 0 ==> Nat128(r) >= P127
    ensures exp - 128 < e <= exp && Nat128(r) == Nat128(mnt) * Pow2(exp - e)
  {
    ghost var m := Nat128(mnt);
    e, r := exp, mnt;
    MulOne(m, Pow2(exp - e));
    var zero := BothZero(mnt.x0, mnt.x1);
    if !zero {
      e, r := NormaliseWord(exp, mnt);
      e, r := NormaliseLoop(e, r, m, exp);
      DoubledIs(m, exp - e);
    }
  }

  method NormaliseWord(exp: int, mnt: U128) returns (e: int, r: U128)
    requires Nat128(mnt) > 0
    ensures exp - 64 <= e <= exp && Nat128(r) >= Pow2(64) && Nat128(r) == Doubled(Nat128(mnt), exp - e)
  {
    assert Pow2(64) == W64 by { Pow2Values(); }
    if mnt.x1 == 0 {
      e, r := exp - 64, U128(0, mnt.x0);
      DoubledIs(Nat128(mnt), 64);
    } else {
      e, r := exp, mnt;
    }
  }

  method NormaliseLoop(exp: int, x: U128, ghost m: nat, ghost start: int) returns (e: int, r: U128)
    requires Nat128(x) >= Pow2(64) && exp <= start && Nat128(x) == Doubled(m, start - exp)
    ensures exp - 64 < e <= exp && Nat128(r) >= P127 && Nat128(r) == Doubled(m, start - e)
  {
    hide *;
    e, r := exp, x;
    var sh := 32;
    ghost var w := 64;
    while sh != 0
      invariant sh in {32, 16, 8, 4, 2, 1, 0} && w == if sh == 0 then 127 else 128 - 2 * sh
      invariant exp - 64 < e - (127 - w) && e <= exp
      invariant Nat128(r) >= Pow2(w)
      invariant Nat128(r) == Doubled(m, start - e)
    {
      e, r := NormaliseStep(e, r, sh, m, start);
      w := 128 - sh;
      sh := sh / 2;
    }
    assert Pow2(127) == P127 by { Constants(); }
  }

  /** One round of the normalising loop: `sh` leading zeros or none. */
  method NormaliseStep(exp: int, x: U128, sh: nat, ghost m: nat, ghost start: int) returns (e: int, r: U128)
    requires 0 < sh <= 32 && Nat128(x) >= Pow2(128 - 2 * sh)
    requires exp <= start && Nat128(x) == Doubled(m, start - exp)
    ensures exp - sh <= e <= exp && Nat128(r) >= Pow2(128 - sh)
    ensures Nat128(r) == Doubled(m, start - e)
  {
    ghost var s := Pow2(64 - sh);
    var top, lo := Right64(x.x1, 64 - sh, s);
    if top == 0 {
      r := ShiftLeft(x, sh);
      e := exp - sh;
      DoubledIs(Nat128(x), sh);
      DoubledAdd(m, start - exp, sh);
      ShiftedBound(Nat128(x), sh);
    } else {
      e, r := exp, x;
      MulMono(1, top, s);
      HighBound(x, sh);
    }
  }

  lemma ShiftedBound(n: nat, sh: nat)
    requires 0 < sh <= 32 && n >= Pow2(128 - 2 * sh)
    ensures n * Pow2(sh) >= Pow2(128 - sh)
  {
    Pow2Add(128 - 2 * sh, sh);
    MulMono(Pow2(128 - 2 * sh), n, Pow2(sh));
  }

  lemma HighBound(x: U128, sh: nat)
    requires 0 < sh <= 32 && x.x1 >= Pow2(64 - sh)
    ensures Nat128(x) >= Pow2(128 - sh)
  {
    assert Pow2(128 - sh) == Pow2(64 - sh) * W64 by { Pow2Values(); Pow2Add(64 - sh, 64); }
    MulMono(Pow2(64 - sh), x.x1, W64);
  }

  lemma SmallShift(m: nat, s: nat)
    requires m < 2 * P112 && s < 6
    ensures m * Pow2(s) < P127
  {
    assert Pow2(6) == 64 by { Pow2Middle(); }
    Pow2Mono(s, 6);
    MulMono(Pow2(s), 64, m);
  }

  /** A normalised mantissa of at most 113 bits ends in at least 15 zeros. */
  lemma NormalisedLow(m: nat, s: nat, a: nat) returns (h: nat)
    requires m < 2 * P112 && a == m * Pow2(s) && a >= P127
    ensures a == 64 * h
  {
    assert Pow2(6) == 64 by { Pow2Middle(); }
    if s < 6 {
      SmallShift(m, s);
      assert false;
    }
    MulNat(m, Pow2(s - 6));
    h := m * Pow2(s - 6);
    MulPow2(m, s - 6, 6);
  }

  lemma TooSmall(x: nat, k: nat)
    requires k > 13 && 0 <= x * Pow2(k) < 2 * P127
    ensures x < P114
  {
    assert Pow2(14) == 0x4000 by { Pow2Values(); }
    Pow2Mono(14, k);
    MulMono(0x4000, Pow2(k), x);
  }

  /** f3_sticky_shift: a right shift whose lost bits are remembered in the low bit. */
  method F3StickyShift(sh: int, x: U128) returns (r: U128)
    ensures sh <= 0 ==> r == x
    ensures sh >= 0 ==> Nat128(r) == Jam(Nat128(x), sh)
  {
    r := x;
    var s := sh;
    if s >= 128 {
      var z := BothZero(x.x0, x.x1);
      r := U128(Truth(!z), 0);
      JamAll(x, sh);
      return;
    }
    if s >= 64 {
      var l := SetLow64(x.x1, x.x0 != 0);
      r := U128(l, 0);
      s := s - 64;
      JamWord(x);
      JamCompose(Nat128(x), 64, s);
    }
    if s > 0 {
      r := StickyWithinWord(s, r);
    }
  }

  method StickyWithinWord(k: nat, x: U128) returns (r: U128)
    requires 0 < k < 64
    ensures Nat128(r) == Jam(Nat128(x), k)
  {
    var y, q0, lo := ShiftRight(x, k);
    var lost, hi, low := Left64(x.x0, 64 - k, Pow2(k), Pow2(64 - k));
    Euclid(Pow2(k), q0, lo, hi, low);
    MulCancel(0, lo, Pow2(64 - k));
    var l := SetLow64(y.x0, lost != 0);
    r := U128(l, y.x1);
    JamIs(Nat128(x), Nat128(y), lo, k);
    LowBits(y);
  }

  lemma LowBits(x: U128)
    ensures Nat128(x) % 4 == x.x0 % 4 && Nat128(x) % 2 == x.x0 % 2
  {
    DivUnique(Nat128(x), 4, x.x1 * 0x4000_0000_0000_0000 + x.x0 / 4, x.x0 % 4);
    DivUnique(Nat128(x), 2, x.x1 * 0x8000_0000_0000_0000 + x.x0 / 2, x.x0 % 2);
  }

  lemma JamWord(x: U128)
    ensures Jam(Nat128(x), 64) == if x.x0 != 0 then x.x1 - x.x1 % 2 + 1 else x.x1
  {
    assert Pow2(64) == W64 by { Pow2Values(); }
    JamIs(Nat128(x), x.x1, x.x0, 64);
  }

  lemma JamAll(x: U128, k: nat)
    requires k >= 128
    ensures Jam(Nat128(x), k) == Truth(!(x.x0 == 0 && x.x1 == 0))
  {
    assert Pow2(128) == 2 * P127 by { Constants(); }
    Pow2Mono(128, k);
    JamIs(Nat128(x), 0, Nat128(x), k);
  }

  // f3_round

  /** The exponent of the working mantissa's unit: 0 for subnormals, exp - 1 otherwise. */
  function Grid(exp: int): nat { if exp > 0 then exp - 1 else 0 }

  lemma JammedSize(x: U128, exp: int)
    requires Nat128(x) >= P127
    ensures exp > 0 ==> 4 * P112 <= Jam(Nat128(x), 13) < 8 * P112
    ensures exp <= 0 ==> Jam(Nat128(x), 14 - exp) < 4 * P112
  {
    assert Pow2(13) == 0x2000 && Pow2(14) == 0x4000 by { Pow2Values(); }
    if exp > 0 {
      JamBounds(Nat128(x), 13, 4 * P112, 8 * P112);
    } else {
      Pow2Mono(14, 14 - exp);
      MulMono(0x4000, Pow2(14 - exp), 4 * P112);
      JamBounds(Nat128(x), 14 - exp, 0, 4 * P112);
    }
  }

  /** After its first shift f3_round holds the exact value with two guard bits. */
  lemma RoundReady(x: U128, exp: int, n: nat, d: nat)
    requires d > 0 && Holds(Jam(Nat128(x), 13), exp - 3, n, d)
    ensures Holds(Jam(Nat128(x), if exp > 0 then 13 else 14 - exp), Grid(exp) - 2, n, d)
  {
    if exp <= 0 {
      JamCompose(Nat128(x), 13, 1 - exp);
      HoldsShift(Jam(Nat128(x), 13), exp - 3, n, d, 1 - exp);
    }
  }

  /** `++x` with its two carries: out of the subnormals and into the next binade. */
  method RoundUp(exp: nat, x: U128) returns (e: nat, r: U128)
    requires Nat128(x) < 2 * P112 && (exp > 0 <==> Nat128(x) >= P112)
    ensures Nat128(r) < 2 * P112 && (e > 0 <==> Nat128(r) >= P112)
    ensures Grid(e) * P112 + Nat128(r) == Grid(exp) * P112 + Nat128(x) + 1
  {
    e := exp;
    r := U128(Add64(x.x0, 1), x.x1);
    if r.x0 == 0 {
      r := U128(r.x0, Add64(r.x1, 1));
      if r.x1 == 0x1_0000_0000_0000 {
        e := 1;
      } else if r.x1 == 0x2_0000_0000_0000 {
        e := e + 1;
        ghost var q0, lo;
        r, q0, lo := ShiftRight(r, 1);
        assert Pow2(1) == 2;
        assert Nat128(r) == P112;
      }
    }
  }

  method F3Pack(sgn: bit, exp: nat, x: U128) returns (f: U128)
    requires Nat128(x) < 2 * P112 && (exp > 0 <==> Nat128(x) >= P112)
    ensures Sign(f) == sgn && Mag(f) == Min(Grid(exp) * P112 + Nat128(x), InfMag)
  {
    if exp >= 32767 {
      f := F3Infinity(sgn);
    } else {
      var h, hi := LowFraction(x.x1);
      h := PackHigh(sgn, exp, h);
      f := U128(x.x0, h);
    }
  }

  /** The second half of f3_round: drop the two guard bits to nearest even, and pack. */
  method RoundAndPack(sgn: bit, exp: nat, y: U128) returns (f: U128)
    requires Nat128(y) < 8 * P112 && (exp > 0 <==> Nat128(y) >= 4 * P112)
    ensures Sign(f) == sgn
    ensures Mag(f) == Min(Grid(exp) * P112 + RoundQuarter(Nat128(y)), InfMag)
  {
    var z, up := DropGuard(y);
    var e := exp;
    if up {
      e, z := RoundUp(e, z);
    }
    f := F3Pack(sgn, e, z);
  }

  /** Drops the two guard bits: rounds up on 3, and on 2 when the result is odd. */
  method DropGuard(y: U128) returns (z: U128, up: bool)
    ensures Nat128(z) == Nat128(y) / 4 && RoundQuarter(Nat128(y)) == Nat128(z) + Truth(up)
  {
    assert Pow2(2) == 4;
    var error, hi := Mask64(y.x0, 2, 4);
    ghost var q0, lo;
    z, q0, lo := ShiftRight(y, 2);
    Euclid(4, hi, error, q0, lo);
    DivUnique(Nat128(y), 4, Nat128(z), lo);
    LowBits(z);
    up := error == 3 || (error == 2 && z.x0 % 2 == 1);
  }

  lemma RoundCorrect128(y: nat, e: nat, n: nat, d: nat)
    requires d > 0 && Holds(y, e - 2, n, d)
    requires y < 8 * P112 && (e > 0 ==> y >= 4 * P112)
    ensures NearestEven(Binary128, n, d, Min(e * P112 + RoundQuarter(y), InfMag))
  {
    Constants();
    RoundCorrect(Binary128, y, e, n, d);
    assert Encoded(112, RoundQuarter(y), e) == e * P112 + RoundQuarter(y);
  }

  /** The first half of f3_round: shift to two guard bits, subnormals further. */
  method RoundShift(exp: int, x: U128, ghost n: nat, ghost d: nat) returns (e: nat, y: U128)
    requires d > 0 && Nat128(x) >= P127 && Holds(Jam(Nat128(x), 13), exp - 3, n, d)
    ensures e == (if exp > 0 then exp else 0) && Holds(Nat128(y), Grid(exp) - 2, n, d)
    ensures Nat128(y) < 8 * P112 && (e > 0 <==> Nat128(y) >= 4 * P112)
  {
    RoundReady(x, exp, n, d);
    JammedSize(x, exp);
    if exp > 0 {
      y := F3StickyShift(13, x);
      e := exp;
    } else {
      y := F3StickyShift(14 - exp, x);
      e := 0;
    }
  }

  /** f3_round: round the normalised x * 2^(exp - 16) and pack it.  The ghost arguments
      name the exact value n/d that x stands for. */
  method F3Round(sgn: bit, exp: int, x: U128, ghost n: nat, ghost d: nat) returns (f: U128)
    requires d > 0 && Nat128(x) >= P127 && Holds(Jam(Nat128(x), 13), exp - 3, n, d)
    ensures Sign(f) == sgn && NearestEven(Binary128, n, d, Mag(f))
  {
    var e, y := RoundShift(exp, x, n, d);
    RoundCorrect128(Nat128(y), Grid(exp), n, d);
    f := RoundAndPack(sgn, e, y);
  }

  lemma ZeroNearest(n: nat, d: nat)
    requires n == 0 && d > 0
    ensures NearestEven(Binary128, n, d, 0)
  {
    ExactIsNearest(Binary128, n, d, 0);
  }
}
