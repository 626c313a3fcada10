/** Binary interchange formats and round-to-nearest-even, independently of any code.

    A non-negative encoding `m` is read as an integer: exponent field above fraction
    field.  Its value is counted in units of the format's smallest subnormal, so every
    finite value is a natural number and every exact result of +, *, / is a fraction
    of two natural numbers.  The all-ones exponent field with a zero fraction
    (infinity) takes part in the competition as 2^(emax+1): section 4.3.1 of
    IEEE 754-2019 rounds to infinity exactly from the midpoint below it. */
module IeeeFormat {
  import opened Words

  datatype Format = Format(frac: nat, top: nat)

  const Binary32: Format := Format(23, 255)
  const Binary64: Format := Format(52, 2047)
  const Binary128: Format := Format(112, 32767)

  ghost predicate Proper(f: Format) { f.frac >= 1 && f.top >= 2 }

  /** The encoding of infinity; encodings above it are NaNs. */
  ghost function Inf(f: Format): nat { MulNat(f.top, Pow2(f.frac)); f.top * Pow2(f.frac) }

  /** The value of an encoding.  With exponent field 0 or 1 a unit is a unit; each further
      step of the exponent field doubles the value. */
  ghost function Units(frac: nat, m: nat): nat
  {
    if m < 2 * Pow2(frac) then m else 2 * Units(frac, m - Pow2(frac))
  }

  /** Distance between n/d and u, scaled by d. */
  ghost function Dist(n: nat, d: nat, u: nat): nat
  {
    if n >= u * d then n - u * d else u * d - n
  }

  /** `m` encodes the value nearest to n/d; of two nearest ones, the even encoding. */
  ghost predicate NearestEven(f: Format, n: nat, d: nat, m: nat)
  {
    && m <= Inf(f)
    && (forall y: nat | y <= Inf(f) ::
          Dist(n, d, Units(f.frac, m)) <= Dist(n, d, Units(f.frac, y)))
    && (forall y: nat | y <= Inf(f) && y != m ::
          Dist(n, d, Units(f.frac, m)) == Dist(n, d, Units(f.frac, y)) ==> m % 2 == 0)
  }

  function Min(a: nat, b: nat): nat { if a <= b then a else b }

  /** Packing by addition: the implicit bit of `mant` carries into the exponent field. */
  ghost function Encoded(frac: nat, mant: nat, e: nat): nat
  {
    MulNat(e, Pow2(frac));
    e * Pow2(frac) + mant
  }

  lemma EncodedStep(frac: nat, mant: nat, e: nat)
    requires e > 0
    ensures Encoded(frac, mant, e) == Encoded(frac, mant, e - 1) + Pow2(frac)
    ensures mant >= Pow2(frac) ==> Encoded(frac, mant, e) >= 2 * Pow2(frac)
  {
    Distrib(e - 1, 1, Pow2(frac));
    MulNat(e - 1, Pow2(frac));
  }

  /** A mantissa times a power of two, encoded; the carry into the next binade included.
      With e = exponent field - 1 and mant = 2^frac + fraction this is the textbook value. */
  lemma {:induction false} UnitsOfGrid(frac: nat, mant: nat, e: nat)
    requires e == 0 || mant >= Pow2(frac)
    requires mant <= 2 * Pow2(frac)
    ensures Units(frac, Encoded(frac, mant, e)) == mant * Pow2(e)
    decreases e
  {
    if e == 0 {
      UnitsFirst(frac, mant);
    } else {
      var m, l := Encoded(frac, mant, e), Encoded(frac, mant, e - 1);
      EncodedStep(frac, mant, e);
      assert m - Pow2(frac) == l;
      assert Units(frac, m) == 2 * Units(frac, l);
      UnitsOfGrid(frac, mant, e - 1);
      OffGridStep(0, mant, Units(frac, l), Pow2(e - 1), Pow2(e));
    }
  }

  lemma UnitsFirst(frac: nat, mant: nat)
    requires mant <= 2 * Pow2(frac)
    ensures Units(frac, Encoded(frac, mant, 0)) == mant * Pow2(0)
  {
    var p := Pow2(frac);
    assert Encoded(frac, mant, 0) == mant;
    if mant == 2 * p { assert Units(frac, mant - p) == p; }
  }

  lemma {:induction false} UnitsStep(frac: nat, m: nat)
    ensures Units(frac, m) < Units(frac, m + 1)
  {
    var p := Pow2(frac);
    if m + 1 == 2 * p {
      assert Units(frac, p) == p;
    } else if m + 1 > 2 * p {
      UnitsStep(frac, m - p);
    }
  }

  /** Encodings are ordered as their values are. */
  lemma {:induction false} UnitsMono(frac: nat, a: nat, b: nat)
    requires a < b
    ensures Units(frac, a) < Units(frac, b)
    decreases b
  {
    UnitsStep(frac, b - 1);
    if a < b - 1 { UnitsMono(frac, a, b - 1); }
  }

  /** `k` is the integer nearest to n/d, the even one on a tie. */
  ghost predicate IntNearestEven(n: nat, d: nat, k: nat)
  {
    2 * Dist(n, d, k) <= d && (2 * Dist(n, d, k) == d ==> k % 2 == 0)
  }

  lemma IntNearest(n: nat, d: nat, k: nat, j: nat)
    requires d > 0 && 2 * Dist(n, d, k) <= d
    ensures Dist(n, d, k) <= Dist(n, d, j)
    ensures Dist(n, d, k) == Dist(n, d, j) && k != j ==> 2 * Dist(n, d, k) == d
  {
    if k < j {
      MulMono(k + 1, j, d);
      Distrib(k, 1, d);
    } else if j < k {
      MulMono(j + 1, k, d);
      Distrib(j, 1, d);
    }
  }

  /** What lies off the grid of spacing 2^e lies below the binade that starts at 2^frac * 2^e. */
  lemma {:induction false} OffGrid(frac: nat, y: nat, e: nat) returns (onGrid: bool, k: nat)
    ensures onGrid ==> Units(frac, y) == k * Pow2(e)
    ensures !onGrid ==> e > 0 && Units(frac, y) < Pow2(frac) * Pow2(e)
    decreases e
  {
    var p := Pow2(frac);
    if e == 0 {
      onGrid, k := true, Units(frac, y);
    } else if y < 2 * p {
      onGrid, k := false, 0;
      Pow2Mono(1, e);
      MulMono(2, Pow2(e), p);
    } else {
      onGrid, k := OffGrid(frac, y - p, e - 1);
      OffGridStep(p, k, Units(frac, y - p), Pow2(e - 1), Pow2(e));
    }
  }

  lemma OffGridStep(p: nat, k: nat, u: nat, q: nat, q2: nat)
    requires q2 == 2 * q
    ensures u == k * q ==> 2 * u == k * q2
    ensures u < p * q ==> 2 * u < p * q2
  {
    MulEq(k, q2, 2 * q);
    MulEq(p, q2, 2 * q);
  }

  /** `mant` is n/d rounded to a multiple of 2^e, the unit in the last place there. */
  ghost predicate GridRounded(frac: nat, n: nat, d: nat, mant: nat, e: nat)
  {
    MulNat(Pow2(e), d);
    && IntNearestEven(n, Pow2(e) * d, mant)
    && (e > 0 ==> mant >= Pow2(frac) && Pow2(frac) * (Pow2(e) * d) <= n)
    && mant <= 2 * Pow2(frac)
  }

  /** Rounding to the grid of the value's own binade is rounding to the format. */
  lemma NearestOnGrid(f: Format, n: nat, d: nat, mant: nat, e: nat)
    requires Proper(f) && d > 0 && GridRounded(f.frac, n, d, mant, e)
    ensures NearestEven(f, n, d, Min(Encoded(f.frac, mant, e), Inf(f)))
  {
    var m := Encoded(f.frac, mant, e);
    if m <= Inf(f) {
      EncodedParity(f.frac, mant, e);
      forall y: nat | y <= Inf(f)
        ensures Dist(n, d, Units(f.frac, m)) <= Dist(n, d, Units(f.frac, y))
        ensures y != m && Dist(n, d, Units(f.frac, m)) == Dist(n, d, Units(f.frac, y)) ==> m % 2 == 0
      {
        NearestPoint(f.frac, n, d, mant, e, y);
      }
    } else {
      BeyondInf(f, mant, e);
      InfIsNearest(f, n, d, e);
    }
  }

  lemma EvenMul(a: nat, p: nat) returns (h: nat)
    requires p % 2 == 0
    ensures a * p == 2 * h
  {
    MulNat(a, p / 2);
    h := a * (p / 2);
    MulAssoc(a, p / 2, 2);
    MulEq(a, p / 2 * 2, p);
  }

  lemma EncodedParity(frac: nat, mant: nat, e: nat)
    requires frac >= 1
    ensures Encoded(frac, mant, e) % 2 == mant % 2
  {
    var h := EvenMul(e, Pow2(frac));
  }

  lemma BeyondInf(f: Format, mant: nat, e: nat)
    requires mant <= 2 * Pow2(f.frac) && Encoded(f.frac, mant, e) > Inf(f)
    ensures e >= f.top - 1
  {
    if e + 2 <= f.top {
      MulMono(e + 2, f.top, Pow2(f.frac));
      Distrib(e, 2, Pow2(f.frac));
    }
  }

  lemma NearestPoint(frac: nat, n: nat, d: nat, mant: nat, e: nat, y: nat)
    requires d > 0 && GridRounded(frac, n, d, mant, e)
    ensures var m := Encoded(frac, mant, e);
      && Dist(n, d, Units(frac, m)) <= Dist(n, d, Units(frac, y))
      && (y != m && Dist(n, d, Units(frac, m)) == Dist(n, d, Units(frac, y)) ==> mant % 2 == 0)
  {
    var m := Encoded(frac, mant, e);
    MulPositive(Pow2(e), d);
    var g := Pow2(e) * d;
    UnitsOfGrid(frac, mant, e);
    GridDist(n, d, Units(frac, m), mant, e);
    var onGrid, k := OffGrid(frac, y, e);
    if onGrid {
      GridDist(n, d, Units(frac, y), k, e);
      IntNearest(n, g, mant, k);
      if k == mant && y != m {
        if y < m { UnitsMono(frac, y, m); } else { UnitsMono(frac, m, y); }
      }
    } else {
      BelowBinade(n, d, Units(frac, y), Pow2(frac), e);
      IntNearest(n, g, mant, Pow2(frac));
    }
  }

  lemma GridDist(n: nat, d: nat, u: nat, k: nat, e: nat)
    requires u == k * Pow2(e)
    ensures Pow2(e) * d >= 0 && Dist(n, d, u) == Dist(n, Pow2(e) * d, k)
  {
    MulNat(Pow2(e), d);
    MulEq(d, u, k * Pow2(e));
    MulAssoc(k, Pow2(e), d);
  }

  lemma BelowBinade(n: nat, d: nat, u: nat, p: nat, e: nat)
    requires d > 0 && u < p * Pow2(e) && Pow2(e) * d >= 0 && p * (Pow2(e) * d) <= n
    ensures Dist(n, Pow2(e) * d, p) < Dist(n, d, u)
  {
    MulMonoStrict(u, p * Pow2(e), d);
    MulAssoc(p, Pow2(e), d);
  }

  lemma InfUnits(f: Format)
    requires Proper(f)
    ensures Units(f.frac, Inf(f)) == Pow2(f.frac) * Pow2(f.top - 1)
  {
    Distrib(f.top - 1, 1, Pow2(f.frac));
    UnitsOfGrid(f.frac, Pow2(f.frac), f.top - 1);
  }

  lemma InfBelow(f: Format, n: nat, d: nat, e: nat)
    requires Proper(f) && e >= f.top - 1
    requires Pow2(f.frac) * (Pow2(e) * d) <= n
    ensures Units(f.frac, Inf(f)) * d <= n
  {
    InfUnits(f);
    Pow2Mono(f.top - 1, e);
    ProductBelow(Pow2(f.frac), Pow2(f.top - 1), Pow2(e), d, Units(f.frac, Inf(f)));
  }

  lemma ProductBelow(p: nat, q: nat, q2: nat, d: nat, u: nat)
    requires q <= q2 && u == p * q
    ensures u * d <= p * (q2 * d)
  {
    MulMono(q, q2, p);
    MulMono(u, p * q2, d);
    MulAssoc(p, q2, d);
  }

  lemma InfIsNearest(f: Format, n: nat, d: nat, e: nat)
    requires Proper(f) && d > 0 && e >= f.top - 1
    requires Pow2(f.frac) * (Pow2(e) * d) <= n
    ensures NearestEven(f, n, d, Inf(f))
  {
    InfBelow(f, n, d, e);
    var u := Units(f.frac, Inf(f));
    forall y: nat | y < Inf(f)
      ensures Dist(n, d, u) < Dist(n, d, Units(f.frac, y))
    {
      UnitsMono(f.frac, y, Inf(f));
      MulMonoStrict(Units(f.frac, y), u, d);
    }
  }

  /** Correct rounding determines the result. */
  lemma NearestEvenUnique(f: Format, n: nat, d: nat, a: nat, b: nat)
    requires d > 0 && NearestEven(f, n, d, a) && NearestEven(f, n, d, b)
    ensures a == b
  {
    if a < b {
      NearestEvenOrdered(f, n, d, a, b);
    } else if b < a {
      NearestEvenOrdered(f, n, d, b, a);
    }
  }

  lemma NearestEvenOrdered(f: Format, n: nat, d: nat, a: nat, b: nat)
    requires d > 0 && NearestEven(f, n, d, a) && NearestEven(f, n, d, b)
    ensures !(a < b)
  {
    if a < b {
      var ua, ub := Units(f.frac, a), Units(f.frac, b);
      UnitsMono(f.frac, a, b);
      MulMonoStrict(ua, ub, d);
      assert Dist(n, d, ua) == Dist(n, d, ub);
      var y := a + 1;
      assert a % 2 == 0 && b % 2 == 0;
      var uy := Units(f.frac, y);
      UnitsMono(f.frac, a, y);
      UnitsMono(f.frac, y, b);
      MulMonoStrict(ua, uy, d);
      MulMonoStrict(uy, ub, d);
    }
  }

  /** A representable value rounds to itself. */
  lemma ExactIsNearest(f: Format, n: nat, d: nat, m: nat)
    requires d > 0 && m <= Inf(f) && Units(f.frac, m) * d == n
    ensures NearestEven(f, n, d, m)
  {
    forall y: nat | y <= Inf(f) && y != m
      ensures Dist(n, d, Units(f.frac, y)) > 0
    {
      if y < m { UnitsMono(f.frac, y, m); } else { UnitsMono(f.frac, m, y); }
      MulCancel(Units(f.frac, y), Units(f.frac, m), d);
    }
  }

  lemma InfEncoded(f: Format)
    requires Proper(f)
    ensures Inf(f) == Encoded(f.frac, 2 * Pow2(f.frac), f.top - 2)
    ensures Inf(f) > 0 && Inf(f) - 1 == Encoded(f.frac, 2 * Pow2(f.frac) - 1, f.top - 2)
  {
    Distrib(f.top - 2, 2, Pow2(f.frac));
    MulNat(f.top - 2, Pow2(f.frac));
  }

  lemma InfNeighbour(f: Format)
    requires Proper(f)
    ensures Inf(f) > 0 && Inf(f) % 2 == 0
    ensures Units(f.frac, Inf(f)) + Units(f.frac, Inf(f) - 1) == (4 * Pow2(f.frac) - 1) * Pow2(f.top - 2)
  {
    var p, e := Pow2(f.frac), f.top - 2;
    InfEncoded(f);
    EncodedParity(f.frac, 2 * p, e);
    UnitsOfGrid(f.frac, 2 * p, e);
    UnitsOfGrid(f.frac, 2 * p - 1, e);
    Distrib(2 * p, 2 * p - 1, Pow2(e));
  }

  /** The overflow rule of section 4.3.1: infinity is the result exactly from half a
      unit in the last place above the largest finite value. */
  lemma OverflowThreshold(f: Format, n: nat, d: nat)
    requires Proper(f) && d > 0
    ensures NearestEven(f, n, d, Inf(f)) <==> 2 * n >= (4 * Pow2(f.frac) - 1) * Pow2(f.top - 2) * d
  {
    InfNeighbour(f);
    var u, v := Units(f.frac, Inf(f)), Units(f.frac, Inf(f) - 1);
    Distrib(u, v, d);
    UnitsMono(f.frac, Inf(f) - 1, Inf(f));
    MulMonoStrict(v, u, d);
    if 2 * n >= (u + v) * d {
      forall y: nat | y < Inf(f)
        ensures Dist(n, d, u) <= Dist(n, d, Units(f.frac, y))
      {
        if y < Inf(f) - 1 { UnitsMono(f.frac, y, Inf(f) - 1); }
        MulMono(Units(f.frac, y), v, d);
      }
    } else {
      assert Dist(n, d, u) > Dist(n, d, v);
    }
  }
}
