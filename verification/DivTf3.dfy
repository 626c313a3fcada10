/** __divtf3 (lib/lib-arm64.c): the quotient is correctly rounded. */
module DivTf3 {
  import opened Words
  import opened IeeeFormat
  import opened Sticky
  import opened Quad

  /** r = a / b in the sense of section 5.4.1 of IEEE 754-2019 under the default rounding. */
  ghost predicate IsQuotient(a: U128, b: U128, r: U128)
  {
    if IsNaN(a) || IsNaN(b) then Quiets(Propagated(a, b), r)
    else if (IsInf(a) && IsInf(b)) || (Mag(a) == 0 && Mag(b) == 0) then r == DefaultNaN
    else if IsInf(a) || Mag(b) == 0 then IsInf(r) && (Sign(r) == 1 <==> Sign(a) != Sign(b))
    else if IsInf(b) then Mag(r) == 0 && (Sign(r) == 1 <==> Sign(a) != Sign(b))
    else (Sign(r) == 1 <==> Sign(a) != Sign(b)) && RoundedQuotient(Mag(a), Mag(b), Mag(r))
  }

  /** r is nearest to the real quotient of the finite magnitudes a and b. */
  ghost predicate RoundedQuotient(a: nat, b: nat, r: nat)
  {
    NearestEven(Binary128, Product(Units(112, a), Pow2(UnitExp())), Units(112, b), r)
  }

  // Comparing and subtracting pairs.

  method AtLeast(a: U128, b: U128) returns (r: bool)
    ensures r <==> Nat128(a) >= Nat128(b)
  {
    r := a.x1 > b.x1 || (a.x1 == b.x1 && a.x0 >= b.x0);
  }

  method Subtract(a: U128, b: U128) returns (r: U128)
    requires Nat128(a) >= Nat128(b)
    ensures Nat128(r) == Nat128(a) - Nat128(b)
  {
    var x1 := Sub64(Sub64(a.x1, b.x1), Truth(a.x0 < b.x0));
    r := U128(Sub64(a.x0, b.x0), x1);
  }

  method Double(x: U128) returns (r: U128)
    requires Nat128(x) < P127
    ensures Nat128(r) == 2 * Nat128(x)
  {
    assert Pow2(63) == 0x8000_0000_0000_0000 && Pow2(1) == 2 by { Pow2Values(); }
    r := ShiftLeft(x, 1);
  }

  /** a >> 1 on an even number. */
  method Half(x: U128, ghost h: nat) returns (r: U128)
    requires Nat128(x) == 2 * h
    ensures Nat128(r) == h
  {
    assert Pow2(1) == 2;
    ghost var q0, lo;
    r, q0, lo := ShiftRight(x, 1);
  }

  /** x.x0 |= c on an even number, or on any number when it is jammed. */
  method OrLow(x: U128, c: bool) returns (r: U128)
    ensures Nat128(r) == if c then Nat128(x) - Nat128(x) % 2 + 1 else Nat128(x)
  {
    var l := SetLow64(x.x0, c);
    r := U128(l, x.x1);
    LowBits(x);
  }

  /** One step of the restoring division. */
  method DivStep(a: U128, b: U128, x: U128) returns (c: U128, y: U128)
    requires Nat128(a) < 2 * Nat128(b) && Nat128(b) < P127 && Nat128(x) < P127
    ensures Nat128(c) < 2 * Nat128(b) && Nat128(y) <= 2 * Nat128(x) + 1
    ensures exists t: bit :: Nat128(y) == 2 * Nat128(x) + t && Nat128(c) == 2 * (Nat128(a) - t * Nat128(b))
  {
    hide *;
    y := Double(x);
    c := a;
    var ge := AtLeast(a, b);
    ghost var t: bit := 0;
    if ge {
      c := Subtract(a, b);
      y := OrLow(y, true);
      t := 1;
    }
    c := Double(c);
    assert Nat128(y) == 2 * Nat128(x) + t && Nat128(c) == 2 * (Nat128(a) - t * Nat128(b));
  }

  lemma DivInvariant(n: nat, p: nat, x: nat, b: nat, a: int, t: bit, y: nat, c: int)
    requires n * p == (2 * x) * b + a && y == 2 * x + t && c == 2 * (a - t * b)
    ensures n * (2 * p) == (2 * y) * b + c
  {
    Distrib(4 * x, 2 * t, b);
    MulAssoc(2, 2 * x, b);
    MulAssoc(2, t, b);
  }

  /** 116 steps: the quotient of a * 2^115 by b, and twice its remainder. */
  method DivLoop(a: U128, b: U128) returns (x: U128, c: U128)
    requires Nat128(a) < 2 * Nat128(b) && 0 < Nat128(b) < P127
    ensures Nat128(a) * Pow2(116) == (2 * Nat128(x)) * Nat128(b) + Nat128(c) && Nat128(c) < 2 * Nat128(b)
  {
    x, c := U128(0, 0), a;
    assert Nat128(x) == 0;
    hide *;
    var i := 0;
    DivStart(Nat128(a), Nat128(b), Nat128(x));
    while i < 116
      invariant 0 <= i <= 116 && Nat128(c) < 2 * Nat128(b) && Nat128(x) < Pow2(i)
      invariant Nat128(a) * Pow2(i) == (2 * Nat128(x)) * Nat128(b) + Nat128(c)
    {
      StepRoom(i);
      var c', y := DivStep(c, b, x);
      ghost var t: bit :| Nat128(y) == 2 * Nat128(x) + t && Nat128(c') == 2 * (Nat128(c) - t * Nat128(b));
      DivInvariant(Nat128(a), Pow2(i), Nat128(x), Nat128(b), Nat128(c), t, Nat128(y), Nat128(c'));
      x, c := y, c';
      i := i + 1;
    }
  }

  lemma DivStart(a: nat, b: nat, x: nat)
    requires x == 0
    ensures a * Pow2(0) == (2 * x) * b + a && x < Pow2(0)
  {}

  lemma StepRoom(i: nat)
    requires i < 116
    ensures Pow2(i) < P127 && Pow2(i + 1) == 2 * Pow2(i)
  {
    Pow2Mono(i, 116);
    assert Pow2(116) < P127 by { Pow2Middle(); }
  }

  // What the loop's result says about the exact quotient.

  /** A quotient jammed with its remainder is the sticky image of the fraction. */
  lemma QuotientJammed(n: nat, b: nat, x: nat, r: nat, y: nat)
    requires b > 0 && n == x * b + r && r < b && y == if r != 0 then x - x % 2 + 1 else x
    ensures Jammed(y, n, b)
  {
    Distrib(x, 1, b);
    Distrib(x, 2, b);
    Distrib(x, -1, b);
  }

  lemma JammedRatio(y: nat, n: nat, d: nat, n': nat, d': nat)
    requires d > 0 && d' > 0 && Jammed(y, n, d) && n * d' == n' * d
    ensures Jammed(y, n', d')
  {
    RatioOrder(y, n, d, n', d');
    RatioOrder(y + 1, n, d, n', d');
    if y > 0 { RatioOrder(y - 1, n, d, n', d'); }
  }

  lemma RatioOrder(z: nat, n: nat, d: nat, n': nat, d': nat)
    requires d > 0 && d' > 0 && n * d' == n' * d
    ensures z * d < n <==> z * d' < n'
    ensures z * d == n <==> z * d' == n'
  {
    MulCancel(z * d, n, d');
    MulCancel(z * d', n', d);
    MulCommute(z, d, d');
  }

  lemma SameRatio(x: nat, i: nat, n: nat, y: nat, j: nat, d: nat, k: nat, n': nat, l: nat, d': nat)
    requires n == x * Pow2(i) && d == y * Pow2(j) && n' == x * Pow2(k) && d' == y * Pow2(l) && i + l == k + j
    ensures n * d' == n' * d
  {
    hide *;
    MulPowers(x, i, n, y, l, d', Product(x, y), Product(n, d'));
    MulPowers(x, k, n', y, j, d, Product(x, y), Product(n', d));
  }

  lemma ScaledN(m: nat, i: nat, n: nat, e: int)
    requires n == m * Pow2(i)
    ensures ScaleN(n, e) == m * Pow2(if e >= 0 then i else i - e)
  {
    if e < 0 {
      assert ScaleN(n, e) == n * Pow2(-e);
      hide *;
      MulPow2(m, i, -e);
    }
  }

  lemma ScaledD(m: nat, i: nat, d: nat, e: int)
    requires d == m * Pow2(i)
    ensures ScaleD(d, e) == m * Pow2(if e >= 0 then i + e else i)
  {
    if e >= 0 {
      assert ScaleD(d, e) == Pow2(e) * d;
      hide *;
      MulPow2(m, i, e);
    }
  }

  /** From mantissas and exponents to the units of the format. */
  lemma QuotientHolds(y: nat, ma: nat, i: nat, n0: nat, mb: nat, j: nat, d0: nat,
                      p: nat, n: nat, q: nat, d: nat, e: int)
    requires n0 == ma * Pow2(i) && d0 == mb * Pow2(j) && n == ma * Pow2(p) && d == mb * Pow2(q)
    requires d0 > 0 && d > 0 && Jammed(y, n0, d0) && i + q + e == p + j
    ensures Holds(y, e, n, d)
  {
    ScalePositive(d, e);
    hide ScaleN, ScaleD, Pow2, Jammed;
    ScaledN(ma, p, n, e);
    ScaledD(mb, q, d, e);
    SameRatio(ma, i, n0, mb, j, d0, if e >= 0 then p else p - e, ScaleN(n, e),
              if e >= 0 then q + e else q, ScaleD(d, e));
    JammedRatio(y, n0, d0, ScaleN(n, e), ScaleD(d, e));
  }

  /** The quotient has 115 or 116 bits. */
  lemma QuotientSize(a: nat, b: nat, x: nat, r: nat)
    requires P127 / 2 <= a < P127 && P127 / 2 <= b < P127
    requires a * Pow2(115) == x * b + r && r < b
    ensures x >= P114
  {
    assert Pow2(115) == 2 * P114 by { Pow2Middle(); assert Pow2(116) == 2 * Pow2(115); }
    if x < P114 {
      MulMono(x + 1, P114, b);
      Distrib(x, 1, b);
    }
  }

  lemma HalveEquation(a: nat, p: nat, x: nat, b: nat, c: nat) returns (r: nat)
    requires a * (2 * p) == (2 * x) * b + c && c < 2 * b
    ensures c == 2 * r && r < b && a * p == x * b + r
  {
    assert a * (2 * p) == 2 * (a * p) && (2 * x) * b == 2 * (x * b);
    r := c / 2;
  }

  /** The mantissas halved, divided, and the remainder folded into the low bit. */
  method DivMantissas(a: U128, ghost ha: nat, b: U128, ghost hb: nat) returns (x: U128, ghost n: nat)
    requires Nat128(a) == 2 * ha >= P127 && Nat128(b) == 2 * hb >= P127
    ensures n == ha * Pow2(115) && Jammed(Nat128(x), n, hb) && Nat128(x) >= P114
  {
    HalfSize(a, ha);
    HalfSize(b, hb);
    assert Pow2(116) == 2 * Pow2(115);
    hide *;
    var c := Half(a, ha);
    var d := Half(b, hb);
    var q, rem := DivLoop(c, d);
    var r := HalveEquation(ha, Pow2(115), Nat128(q), hb, Nat128(rem));
    var exact := IsZero(rem);
    x := OrLow(q, !exact);
    n := Product(ha, Pow2(115));
    QuotientJammed(n, hb, Nat128(q), r, Nat128(x));
    QuotientSize(ha, hb, Nat128(q), r);
    EvenP114(Nat128(q));
  }

  lemma HalfSize(a: U128, h: nat)
    requires Nat128(a) == 2 * h >= P127
    ensures 0 < P127 / 2 <= h < P127 && P127 <= 2 * (P127 / 2)
  {}

  lemma EvenP114(q: nat)
    requires q >= P114
    ensures q - q % 2 >= P114
  {}

  /** At most 13 zeros come in from the right. */
  lemma QuotientReady(x: nat, k: nat, z: nat, e: int, n: nat, d: nat)
    requires d > 0 && x >= P114 && z == x * Pow2(k) && z < 2 * P127 && Holds(x, e - 16, n, d)
    ensures Holds(Jam(z, 13), e - k - 3, n, d)
  {
    if k > 13 { TooSmall(x, k); }
    hide *;
    JamShiftedIn(x, k, 13);
    HoldsShift(x, e - 16, n, d, 13 - k);
  }

  /** Everything after the special cases of __divtf3. */
  method DivFinite(sgn: bit, aExp: int, a: U128, bExp: int, b: U128,
                   ghost ua: nat, ghost ub: nat, ghost n: nat, ghost k: nat)
    returns (r: U128)
    requires 0 < Nat128(a) < 2 * P112 && 0 < Nat128(b) < 2 * P112 && aExp >= 1 && bExp >= 1
    requires k == 16494 && n == ua * Pow2(k) && ub > 0
    requires ua == Nat128(a) * Pow2(aExp - 1) && ub == Nat128(b) * Pow2(bExp - 1)
    ensures Sign(r) == sgn && NearestEven(Binary128, n, ub, Mag(r))
  {
    hide *;
    var ea, x := F3Normalise(aExp, a);
    var eb, y := F3Normalise(bExp, b);
    var z, i, j, n0, hb := Divide(aExp - ea, a, x, bExp - eb, b, y);
    MulPow2(Nat128(a), aExp - 1, k);
    QuotientHolds(Nat128(z), Nat128(a), i, n0, Nat128(b), j, hb, aExp - 1 + k, n, bExp - 1, ub, ea - eb + 16379);
    var e, w := F3Normalise(ea - eb + 16395, z);
    NatBelow(w);
    QuotientReady(Nat128(z), ea - eb + 16395 - e, Nat128(w), ea - eb + 16395, n, ub);
    r := F3Round(sgn, e, w, n, ub);
  }

  lemma NatBelow(x: U128)
    ensures Nat128(x) < 2 * P127 && P114 > 0
  {}

  method Divide(sa: nat, a: U128, x: U128, sb: nat, b: U128, y: U128)
    returns (z: U128, ghost i: nat, ghost j: nat, ghost n: nat, ghost d: nat)
    requires 0 < Nat128(a) < 2 * P112 && 0 < Nat128(b) < 2 * P112
    requires Nat128(x) == Nat128(a) * Pow2(sa) >= P127 && Nat128(y) == Nat128(b) * Pow2(sb) >= P127
    ensures i == sa + 114 && j == sb - 1 && d > 0 && n == Nat128(a) * Pow2(i) && d == Nat128(b) * Pow2(j)
    ensures Jammed(Nat128(z), n, d) && Nat128(z) >= P114
  {
    assert P127 > 2 * P112 && P127 > 0;
    hide *;
    var ha := HalfMantissa(Nat128(a), sa, Nat128(x));
    var hb := HalfMantissa(Nat128(b), sb, Nat128(y));
    z, n := DivMantissas(x, ha, y, hb);
    i, j, d := sa + 114, sb - 1, hb;
    MulPow2(Nat128(a), sa - 1, 115);
  }

  lemma HalfMantissa(m: nat, s: nat, x: nat) returns (h: nat)
    requires m < P127 && x == m * Pow2(s) >= P127
    ensures s > 0 && x == 2 * h && h > 0 && h == m * Pow2(s - 1)
  {
    if s == 0 { MulOne(m, Pow2(0)); }
    h := Product(m, Pow2(s - 1));
    DoubleMul(m, Pow2(s - 1), Pow2(s));
  }

  /** __divtf3 on finite operands with a non-zero divisor. */
  method DivNumbers(fa: U128, aExp: int, a: U128, fb: U128, bExp: int, b: U128) returns (r: U128)
    requires aExp >= 1 && bExp >= 1 && Nat128(a) < 2 * P112 && 0 < Nat128(b) < 2 * P112
    requires Units(112, Mag(fa)) == Nat128(a) * Pow2(aExp - 1) && Units(112, Mag(fb)) == Nat128(b) * Pow2(bExp - 1)
    ensures Sign(r) == Xor1(Sign(fa), Sign(fb)) && RoundedQuotient(Mag(fa), Mag(fb), Mag(r))
  {
    hide *;
    MulPositive(Nat128(b), Pow2(bExp - 1));
    var aZero := IsZero(a);
    if aZero {
      r := F3Zero(Xor1(Sign(fa), Sign(fb)));
      ZeroQuotient(Mag(fa), Nat128(a), Pow2(aExp - 1), Mag(fb));
    } else {
      r := DivNonzero(fa, aExp, a, fb, bExp, b);
    }
  }

  method DivNonzero(fa: U128, aExp: int, a: U128, fb: U128, bExp: int, b: U128) returns (r: U128)
    requires aExp >= 1 && bExp >= 1 && 0 < Nat128(a) < 2 * P112 && 0 < Nat128(b) < 2 * P112
    requires Units(112, Mag(fa)) == Nat128(a) * Pow2(aExp - 1) && Units(112, Mag(fb)) == Nat128(b) * Pow2(bExp - 1)
    requires Units(112, Mag(fb)) > 0
    ensures Sign(r) == Xor1(Sign(fa), Sign(fb)) && RoundedQuotient(Mag(fa), Mag(fb), Mag(r))
  {
    assert UnitExp() == 16494;
    hide *;
    ghost var ua, ub, k := Units(112, Mag(fa)), Units(112, Mag(fb)), UnitExp();
    ghost var n := Product(ua, Pow2(k));
    r := DivFinite(Xor1(Sign(fa), Sign(fb)), aExp, a, bExp, b, ua, ub, n, k);
    QuotientRounded(Mag(fa), Mag(fb), Mag(r), n);
  }

  lemma QuotientRounded(a: nat, b: nat, r: nat, n: nat)
    requires n == Units(112, a) * Pow2(UnitExp()) && NearestEven(Binary128, n, Units(112, b), r)
    ensures RoundedQuotient(a, b, r)
  {
    hide NearestEven, Units, Pow2;
  }

  lemma ZeroQuotient(fa: nat, a: nat, p: nat, fb: nat)
    requires Units(112, fa) == a * p && a == 0 && Units(112, fb) > 0
    ensures RoundedQuotient(fa, fb, 0)
  {
    hide NearestEven, Pow2, Units;
    var n := Product(Units(112, fa), Pow2(UnitExp()));
    ZeroNearest(n, Units(112, fb));
    QuotientRounded(fa, fb, 0, n);
  }

  method DivTf3(fa: U128, fb: U128) returns (r: U128)
    ensures IsQuotient(fa, fb, r)
  {
    var aSgn, aExp, a := F3Unpack(fa);
    var bSgn, bExp, b := F3Unpack(fb);
    Classify(fa, aExp, a);
    Classify(fb, bExp, b);
    var found, nan := F3DetectNaNs(aSgn, aExp, a, bSgn, bExp, b, fa, fb);
    if found { return nan; }
    hide Units, RoundedQuotient;
    var aZero := IsZero(a);
    var bZero := IsZero(b);
    if (aExp == 32767 && bExp == 32767) || (aZero && bZero) {
      r := F3NaN();
    } else if aExp == 32767 || bZero {
      r := F3Infinity(Xor1(aSgn, bSgn));
    } else if bExp == 32767 {
      r := F3Zero(Xor1(aSgn, bSgn));
    } else {
      r := DivNumbers(fa, aExp, a, fb, bExp, b);
    }
  }
}
