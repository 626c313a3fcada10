/** Narrowing undoes widening, for every float and double. */
module RoundTrips {
  import opened Words
  import opened IeeeFormat
  import opened Quad
  import opened Narrow
  import opened Widen

  lemma InfinityNarrows(fmt: Format, k: nat)
    requires Proper(fmt) && 32766 + 112 >= fmt.frac + k + fmt.top - 1
    ensures NearestEven(fmt, Units(112, InfMag), Pow2(k), Inf(fmt))
  {
    assert InfMag == 32766 * P112 + P112;
    hide *;
    UnpackedUnits(InfMag, P112, 32766);
    NarrowBig(fmt, P112, 32766, Units(112, InfMag), k);
  }

  lemma FiniteRoundTrip(fmt: Format, n: nat, k: nat, a: nat, x: nat)
    requires n == Units(fmt.frac, a) * Pow2(k) && a <= Inf(fmt) && NearestEven(fmt, n, Pow2(k), x)
    ensures x == a
  {
    hide *;
    ExactIsNearest(fmt, n, Pow2(k), a);
    NearestEvenUnique(fmt, n, Pow2(k), a, x);
  }

  lemma NaNFraction64(f: U128, q: nat)
    requires q < 0x10_0000_0000_0000 && Mag(f) == InfMag + q * 0x1000_0000_0000_0000
    ensures Frac52(f) == q
  {
    var h, l := q / 16, q % 16;
    assert f.x0 == l * 0x1000_0000_0000_0000 && f.x1 % 0x8000_0000_0000_0000 == 0x7fff_0000_0000_0000 + h;
    assert f.x1 % 0x1_0000_0000_0000 == h;
  }

  lemma NaNFraction32(f: U128, q: nat)
    requires q < 0x80_0000 && Mag(f) == InfMag + q * 0x200_0000_0000_0000_0000_0000
    ensures Frac23(f) == q
  {
    assert f.x0 == 0 && f.x1 % 0x8000_0000_0000_0000 == 0x7fff_0000_0000_0000 + q * 0x200_0000;
    assert f.x1 % 0x1_0000_0000_0000 == q * 0x200_0000;
  }

  lemma SameDouble(a: u64, x: u64)
    requires Sign64(a) == Sign64(x) && Mag64(a) == Mag64(x)
    ensures a == x
  {}

  /** A double survives the trip through binary128; a NaN comes back quiet, otherwise unchanged. */
  lemma DoubleRoundTrip(a: u64, f: U128, x: u64)
    requires IsWidened64(a, f) && IsNarrowed64(f, x)
    ensures Mag64(a) <= Inf64 ==> x == a
    ensures Sign64(x) == Sign64(a)
    ensures Mag64(a) > Inf64 ==> Mag64(x) == Inf64 + Quieted(Mag64(a) - Inf64, 0x8_0000_0000_0000)
  {
    hide NearestEven, Units, Pow2, Inf;
    Constants64();
    var k := UnitExp() - 1074;
    if Mag64(a) > Inf64 {
      NaNFraction64(f, Quieted(Mag64(a) - Inf64, 0x8_0000_0000_0000));
    } else if Mag64(a) == Inf64 {
      InfinityNarrows(Binary64, k);
      NearestEvenUnique(Binary64, Units(112, Mag(f)), Pow2(k), Inf64, Mag64(x));
      SameDouble(a, x);
    } else {
      FiniteRoundTrip(Binary64, Units(112, Mag(f)), k, Mag64(a), Mag64(x));
      SameDouble(a, x);
    }
  }

  lemma SameFloat(a: u32, x: u32)
    requires Sign32(a) == Sign32(x) && Mag32(a) == Mag32(x)
    ensures a == x
  {}

  /** The same for floats. */
  lemma FloatRoundTrip(a: u32, f: U128, x: u32)
    requires IsWidened32(a, f) && IsNarrowed32(f, x)
    ensures Mag32(a) <= Inf32 ==> x == a
    ensures Sign32(x) == Sign32(a)
    ensures Mag32(a) > Inf32 ==> Mag32(x) == Inf32 + Quieted(Mag32(a) - Inf32, 0x40_0000)
  {
    hide NearestEven, Units, Pow2, Inf;
    Constants32();
    var k := UnitExp() - 149;
    if Mag32(a) > Inf32 {
      NaNFraction32(f, Quieted(Mag32(a) - Inf32, 0x40_0000));
    } else if Mag32(a) == Inf32 {
      InfinityNarrows(Binary32, k);
      NearestEvenUnique(Binary32, Units(112, Mag(f)), Pow2(k), Inf32, Mag32(x));
      SameFloat(a, x);
    } else {
      FiniteRoundTrip(Binary32, Units(112, Mag(f)), k, Mag32(a), Mag32(x));
      SameFloat(a, x);
    }
  }

  /** __extenddftf2, then __trunctfdf2. */
  method DoubleThereAndBack(a: u64) returns (x: u64)
    ensures Mag64(a) <= Inf64 ==> x == a
    ensures Sign64(x) == Sign64(a)
    ensures Mag64(a) > Inf64 ==> Mag64(x) == Inf64 + Quieted(Mag64(a) - Inf64, 0x8_0000_0000_0000)
  {
    hide IsWidened64, IsNarrowed64;
    var f := ExtendDfTf2(a);
    x := TruncTfDf2(f);
    DoubleRoundTrip(a, f, x);
  }

  /** __extendsftf2, then __trunctfsf2. */
  method FloatThereAndBack(a: u32) returns (x: u32)
    ensures Mag32(a) <= Inf32 ==> x == a
    ensures Sign32(x) == Sign32(a)
    ensures Mag32(a) > Inf32 ==> Mag32(x) == Inf32 + Quieted(Mag32(a) - Inf32, 0x40_0000)
  {
    hide IsWidened32, IsNarrowed32;
    var f := ExtendSfTf2(a);
    x := TruncTfSf2(f);
    FloatRoundTrip(a, f, x);
  }
}
