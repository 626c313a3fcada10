/** __addtf3 and __subtf3 (lib/lib-arm64.c): the sum is correctly rounded. */
module AddTf3 {
  import opened Words
  import opened IeeeFormat
  import opened Sticky
  import opened Quad

  // Specification.

  /** The value of a datum, sign included, in units of 2^-16494. */
  ghost function SignedValue(f: U128): int { Value(Sign(f), f) }

  /** r is the integer s rounded: to nearest even, with the sign of s. */
  ghost predicate IsRounded(s: int, r: U128)
    requires s != 0
  {
    NearestEven(Binary128, Abs(s), 1, Mag(r)) && (Sign(r) == 1 <==> s < 0)
  }

  /** r = a + b in the sense of section 5.4.1 of IEEE 754-2019 under the default rounding. */
  ghost predicate IsSum(a: U128, b: U128, r: U128)
  {
    if IsNaN(a) || IsNaN(b) then Quiets(Propagated(a, b), r)
    else if IsInf(a) && IsInf(b) && Sign(a) != Sign(b) then r == DefaultNaN
    else if IsInf(a) then r == a
    else if IsInf(b) then r == b
    else if SignedValue(a) + SignedValue(b) == 0 then Mag(r) == 0 && (Sign(r) == 1 <==> Sign(a) == 1 && Sign(b) == 1)
    else IsRounded(SignedValue(a) + SignedValue(b), r)
  }

  /** r = a - b, likewise. */
  ghost predicate IsDifference(a: U128, b: U128, r: U128)
  {
    if IsNaN(a) || IsNaN(b) then Quiets(Propagated(a, b), r)
    else if IsInf(a) && IsInf(b) && Sign(a) == Sign(b) then r == DefaultNaN
    else if IsInf(a) then r == a
    else if IsInf(b) then IsInf(r) && Sign(r) != Sign(b)
    else if SignedValue(a) == SignedValue(b) then Mag(r) == 0 && (Sign(r) == 1 <==> Sign(a) == 1 && Sign(b) == 0)
    else IsRounded(SignedValue(a) - SignedValue(b), r)
  }

  /** Both, as f3_add has them: the sign of b turned by neg. */
  ghost predicate IsAdded(a: U128, b: U128, neg: bit, r: U128)
  {
    var bs := Xor1(Sign(b), neg);
    var s := Value(Sign(a), a) + Value(bs, b);
    if IsNaN(a) || IsNaN(b) then Quiets(Propagated(a, b), r)
    else if IsInf(a) && IsInf(b) && Sign(a) != bs then r == DefaultNaN
    else if IsInf(a) then IsInf(r) && Sign(r) == Sign(a)
    else if IsInf(b) then IsInf(r) && Sign(r) == bs
    else if s == 0 then Mag(r) == 0 && Sign(r) == (if Sign(a) == 1 && bs == 1 then 1 else 0)
    else NearestEven(Binary128, Abs(s), 1, Mag(r)) && Sign(r) == (if s < 0 then 1 else 0)
  }

  lemma SameInfinity(f: U128, g: U128)
    ensures IsInf(f) && IsInf(g) && Sign(f) == Sign(g) ==> f == g
  {}

  lemma AddedIs(a: U128, b: U128, r: U128)
    ensures IsAdded(a, b, 0, r) ==> IsSum(a, b, r)
    ensures IsAdded(a, b, 1, r) ==> IsDifference(a, b, r)
  {
    hide NearestEven, Units, Propagated, Quiets, Sign, Mag, IsInf, IsNaN;
    SameInfinity(r, a);
    SameInfinity(r, b);
    TurnedSign(b);
  }

  lemma TurnedSign(b: U128)
    ensures Value(Xor1(Sign(b), 0), b) == SignedValue(b) && Value(Xor1(Sign(b), 1), b) == -SignedValue(b)
  {
    hide Units, Mag, Sign;
  }

  // Sticky operands added and subtracted.

  lemma ScaleSum(n: nat, m: nat, e: int)
    ensures ScaleN(n + m, e) == ScaleN(n, e) + ScaleN(m, e)
  {
    if e < 0 { Distrib(n, m, Pow2(-e)); }
  }

  lemma ScaleOrder(n: nat, m: nat, e: int)
    ensures ScaleN(n, e) <= ScaleN(m, e) <==> n <= m
  {
    if e < 0 { MulCancel(n, m, Pow2(-e)); }
  }

  lemma JammedAdd(x: nat, y: nat, n: nat, m: nat, d: nat)
    requires Jammed(x, n, d) && y * d == m && y % 2 == 0
    ensures Jammed(x + y, n + m, d)
    ensures x * d == n ==> (x + y) * d == n + m
  {
    Distrib(x, y, d);
    Distrib(x - 1, y, d);
    Distrib(x + 1, y, d);
  }

  lemma JammedSub(x: nat, y: nat, n: nat, m: nat, d: nat)
    requires Jammed(x, n, d) && y * d == m && y % 2 == 0 && x >= y && n >= m
    ensures Jammed(x - y, n - m, d)
    ensures x * d == n ==> (x - y) * d == n - m
  {
    Distrib(x, 0 - y, d);
    Distrib(x - 1, 0 - y, d);
    Distrib(x + 1, 0 - y, d);
  }

  lemma JammedRevSub(x: nat, y: nat, n: nat, m: nat, d: nat)
    requires Jammed(x, n, d) && y * d == m && y % 2 == 0 && y >= x && m >= n
    ensures Jammed(y - x, m - n, d)
    ensures x * d == n ==> (y - x) * d == m - n
  {
    Distrib(y, 0 - x, d);
    Distrib(y, 1 - x, d);
    Distrib(y, -1 - x, d);
  }

  /** The sign of the difference of the words is the sign of the exact difference. */
  lemma JammedOrder(x: nat, y: nat, n: nat, m: nat, d: nat)
    requires d > 0 && Jammed(x, n, d) && y * d == m && y % 2 == 0
    ensures x >= y ==> n >= m
    ensures x <= y ==> n <= m
    ensures x == y <==> n == m
  {
    if x % 2 == 0 {
      MulCancel(x, y, d);
    } else {
      MulCancel(x - 1, y, d);
      MulCancel(y, x + 1, d);
    }
  }

  lemma HoldsAdd(x: nat, y: nat, e: int, n: nat, m: nat)
    requires Holds(x, e, n, 1) && Exact(y, e, m, 1) && y % 2 == 0
    ensures Holds(x + y, e, n + m, 1)
    ensures Exact(x, e, n, 1) ==> Exact(x + y, e, n + m, 1)
  {
    ScaleSum(n, m, e);
    JammedAdd(x, y, ScaleN(n, e), ScaleN(m, e), ScaleD(1, e));
  }

  lemma HoldsOrder(x: nat, y: nat, e: int, n: nat, m: nat)
    requires Holds(x, e, n, 1) && Exact(y, e, m, 1) && y % 2 == 0
    ensures x >= y ==> n >= m
    ensures x <= y ==> n <= m
    ensures x == y <==> n == m
  {
    ScalePositive(1, e);
    JammedOrder(x, y, ScaleN(n, e), ScaleN(m, e), ScaleD(1, e));
    ScaleOrder(n, m, e);
    ScaleOrder(m, n, e);
  }

  lemma HoldsSub(x: nat, y: nat, e: int, n: nat, m: nat)
    requires Holds(x, e, n, 1) && Exact(y, e, m, 1) && y % 2 == 0 && x >= y
    ensures n >= m && Holds(x - y, e, n - m, 1)
    ensures Exact(x, e, n, 1) ==> Exact(x - y, e, n - m, 1)
  {
    HoldsOrder(x, y, e, n, m);
    ScaleSum(n - m, m, e);
    JammedSub(x, y, ScaleN(n, e), ScaleN(m, e), ScaleD(1, e));
  }

  lemma HoldsRevSub(x: nat, y: nat, e: int, n: nat, m: nat)
    requires Holds(x, e, n, 1) && Exact(y, e, m, 1) && y % 2 == 0 && x <= y
    ensures n <= m && Holds(y - x, e, m - n, 1)
    ensures Exact(x, e, n, 1) ==> Exact(y - x, e, m - n, 1)
  {
    HoldsOrder(x, y, e, n, m);
    ScaleSum(m - n, n, e);
    JammedRevSub(x, y, ScaleN(n, e), ScaleN(m, e), ScaleD(1, e));
  }

  // Alignment.

  const P115: nat := 0x8_0000_0000_0000_0000_0000_0000_0000
  const P116: nat := 0x10_0000_0000_0000_0000_0000_0000_0000

  /** x (shifted right, perhaps inexactly) and y (exact) stand for n and m at exponent e;
      an inexact x is too small to cancel more than one bit of y. */
  ghost predicate Aligned(x: nat, y: nat, e: int, n: nat, m: nat)
  {
    && Holds(x, e, n, 1) && Exact(y, e, m, 1) && y % 2 == 0 && x < P116 && y < P116
    && (Exact(x, e, n, 1) || (x < P112 && y >= P115))
  }

  lemma Scaled3(mant: nat, exp: int)
    requires exp >= 1
    ensures mant * Pow2(exp - 1) >= 0 && Exact(8 * mant, exp - 4, mant * Pow2(exp - 1), 1)
  {
    MulNat(mant, Pow2(exp - 1));
    var n := mant * Pow2(exp - 1);
    assert Exact(mant, exp - 1, n, 1) by { MulEq(mant, Pow2(exp - 1) * 1, Pow2(exp - 1)); }
    ExactStep(mant, exp - 2, n, 1);
    ExactStep(2 * mant, exp - 3, n, 1);
    ExactStep(4 * mant, exp - 4, n, 1);
  }

  lemma JamEight(m: nat)
    ensures Jam(8 * m, 0) == 8 * m && Jam(8 * m, 1) == 4 * m
    ensures Jam(8 * m, 2) == 2 * m && Jam(8 * m, 3) == m
  {
    assert Jam(8 * m, 1) == Jam1(8 * m);
    assert Jam(8 * m, 2) == Jam1(4 * m);
    assert Jam(8 * m, 3) == Jam1(2 * m);
  }

  lemma AlignNear(ma: nat, e: int, n: nat, d: nat)
    requires d <= 3 && ma < 2 * P112 && Exact(8 * ma, e, n, 1)
    ensures Exact(Jam(8 * ma, d), e + d, n, 1) && Jam(8 * ma, d) < P116
  {
    hide Exact;
    JamEight(ma);
    ExactStep(4 * ma, e, n, 1);
    ExactStep(2 * ma, e + 1, n, 1);
    ExactStep(ma, e + 2, n, 1);
  }

  lemma AlignFar(ma: nat, d: nat)
    requires d >= 4 && ma < 2 * P112
    ensures Jam(8 * ma, d) < P112
  {
    assert Pow2(4) == 16;
    Pow2Mono(4, d);
    MulMono(16, Pow2(d), P112);
    JamBounds(8 * ma, d, 0, P112);
  }

  lemma AlignShift(ma: nat, ea: int, mb: nat, eb: int, n: nat, m: nat)
    requires 1 <= ea <= eb && ma < 2 * P112 && mb < 2 * P112 && (eb > 1 ==> mb >= P112)
    requires n == ma * Pow2(ea - 1) && m == mb * Pow2(eb - 1)
    ensures Aligned(Jam(8 * ma, eb - ea), 8 * mb, eb - 4, n, m)
  {
    Scaled3(ma, ea);
    Scaled3(mb, eb);
    ExactHolds(8 * ma, ea - 4, n, 1);
    HoldsShift(8 * ma, ea - 4, n, 1, eb - ea);
    if eb - ea <= 3 {
      AlignNear(ma, ea - 4, n, eb - ea);
    } else {
      AlignFar(ma, eb - ea);
    }
  }

  /** Normalisation by k bits leaves f3_round what it needs: either nothing was lost, or
      at most 13 zeros were shifted in. */
  lemma NormalisedReady(x: nat, z: nat, e: int, n: nat, k: nat)
    requires Holds(x, e - 4, n, 1) && (Exact(x, e - 4, n, 1) || x >= P114)
    requires z == x * Pow2(k) && z < 2 * P127
    ensures Holds(Jam(z, 13), e - k + 9, n, 1)
  {
    hide Exact, Holds, Jam, Pow2;
    if k <= 13 {
      JamShiftedIn(x, k, 13);
      HoldsShift(x, e - 4, n, 1, 13 - k);
    } else {
      TooSmall(x, k);
      ExactShift(x, e - 4 - k, n, 1, k);
      ExactHolds(z, e - 4 - k, n, 1);
      HoldsShift(z, e - 4 - k, n, 1, 13);
    }
  }

  // Pairs.

  method AddPair(a: U128, b: U128) returns (x: U128)
    requires Nat128(a) + Nat128(b) < 2 * P127
    ensures Nat128(x) == Nat128(a) + Nat128(b)
  {
    var x0 := Add64(a.x0, b.x0);
    var x1 := Add64(Add64(a.x1, b.x1), Truth(x0 < a.x0));
    x := U128(x0, x1);
  }

  /** a - b, negated when its top bit comes out set. */
  method SubPair(a: U128, b: U128) returns (flip: bool, x: U128)
    requires Nat128(a) < P127 && Nat128(b) < P127
    ensures flip <==> Nat128(a) < Nat128(b)
    ensures Nat128(x) == if flip then Nat128(b) - Nat128(a) else Nat128(a) - Nat128(b)
  {
    var x0 := Sub64(a.x0, b.x0);
    var x1 := Sub64(Sub64(a.x1, b.x1), Truth(x0 > a.x0));
    flip := x1 >= 0x8000_0000_0000_0000;
    if flip {
      x0 := Sub64(0, x0);
      x1 := Sub64(Sub64(0, x1), Truth(x0 != 0));
    }
    x := U128(x0, x1);
  }

  // The aligned operation.

  lemma SumReady(x: nat, y: nat, e: int, n: nat, m: nat)
    requires Aligned(x, y, e, n, m)
    ensures Holds(x + y, e, n + m, 1) && (Exact(x + y, e, n + m, 1) || x + y >= P114)
  {
    HoldsAdd(x, y, e, n, m);
  }

  ghost function Diff(n: nat, m: nat): nat { if n >= m then n - m else m - n }

  lemma DiffReady(x: nat, y: nat, e: int, n: nat, m: nat)
    requires Aligned(x, y, e, n, m)
    ensures Holds(Diff(x, y), e, Diff(n, m), 1) && (Exact(Diff(x, y), e, Diff(n, m), 1) || Diff(x, y) >= P114)
    ensures (x < y ==> n < m) && (x > y ==> n > m) && (x == y ==> n == m)
  {
    HoldsOrder(x, y, e, n, m);
    if x >= y { HoldsSub(x, y, e, n, m); }
    if x <= y { HoldsRevSub(x, y, e, n, m); }
  }

  /** The sum or difference of the aligned magnitudes: its sign and its sticky image. */
  method Combine(aSgn: bit, bSgn: bit, a: U128, b: U128, ghost e: int, ghost n: nat, ghost m: nat)
    returns (xSgn: bit, x: U128)
    requires Aligned(Nat128(a), Nat128(b), e, n, m) || Aligned(Nat128(b), Nat128(a), e, m, n)
    ensures var v := if aSgn == bSgn then n + m else Diff(n, m);
      && Holds(Nat128(x), e, v, 1) && (Exact(Nat128(x), e, v, 1) || Nat128(x) >= P114)
    ensures aSgn == bSgn ==> xSgn == aSgn && Nat128(x) == Nat128(a) + Nat128(b)
    ensures aSgn != bSgn ==> (n >= m ==> n == m || xSgn == aSgn) && (n < m ==> xSgn == bSgn)
    ensures aSgn != bSgn ==> (Nat128(x) == 0 <==> n == m)
  {
    xSgn := aSgn;
    if aSgn == bSgn {
      x := AddPair(a, b);
      if Aligned(Nat128(a), Nat128(b), e, n, m) {
        SumReady(Nat128(a), Nat128(b), e, n, m);
      } else {
        SumReady(Nat128(b), Nat128(a), e, m, n);
      }
    } else {
      var flip;
      flip, x := SubPair(a, b);
      if flip { xSgn := Xor1(xSgn, 1); }
      if Aligned(Nat128(a), Nat128(b), e, n, m) {
        DiffReady(Nat128(a), Nat128(b), e, n, m);
      } else {
        DiffReady(Nat128(b), Nat128(a), e, m, n);
      }
    }
  }

  /** r is the correctly rounded sum of two finite values given by sign and magnitude,
      +0 when they cancel. */
  ghost predicate RoundedSum(aSgn: bit, n: nat, bSgn: bit, m: nat, r: U128)
  {
    if aSgn == bSgn then n + m > 0 && Sign(r) == aSgn && NearestEven(Binary128, n + m, 1, Mag(r))
    else if n == m then Sign(r) == 0 && Mag(r) == 0
    else Sign(r) == (if n > m then aSgn else bSgn) && NearestEven(Binary128, Diff(n, m), 1, Mag(r))
  }

  /** Normalise and round; an exact zero is +0. */
  method Finish(xSgn: bit, e: int, x: U128, ghost v: nat) returns (r: U128)
    requires Holds(Nat128(x), e - 4, v, 1) && (Exact(Nat128(x), e - 4, v, 1) || Nat128(x) >= P114)
    ensures Nat128(x) == 0 ==> Sign(r) == 0 && Mag(r) == 0
    ensures Nat128(x) > 0 ==> Sign(r) == xSgn && NearestEven(Binary128, v, 1, Mag(r))
  {
    hide *;
    var zero := IsZero(x);
    if zero {
      r := F3Zero(0);
    } else {
      var k, z := NormaliseSum(e, x, v);
      r := F3Round(xSgn, k + 12, z, v, 1);
    }
  }

  method NormaliseSum(e: int, x: U128, ghost v: nat) returns (k: int, z: U128)
    requires Holds(Nat128(x), e - 4, v, 1) && (Exact(Nat128(x), e - 4, v, 1) || Nat128(x) >= P114)
    requires Nat128(x) > 0
    ensures Nat128(z) >= P127 && Holds(Jam(Nat128(z), 13), k + 9, v, 1)
  {
    k, z := F3Normalise(e, x);
    NormalisedReady(Nat128(x), Nat128(z), e, v, e - k);
  }

  method ShiftLeft3(a: U128) returns (x: U128)
    requires Nat128(a) < 2 * P112
    ensures Nat128(x) == 8 * Nat128(a)
  {
    assert Pow2(3) == 8;
    assert Pow2(61) == 0x2000_0000_0000_0000 by { Pow2Values(); assert Pow2(63) == 4 * Pow2(61); }
    x := ShiftLeft(a, 3);
  }

  lemma {:induction false} JamPositive(x: nat, k: nat)
    requires x > 0
    ensures Jam(x, k) > 0
  {
    if k > 0 { JamPositive(x, k - 1); }
  }

  ghost predicate Unpacked(exp: int, mant: nat, n: nat)
  {
    1 <= exp && mant < 2 * P112 && (exp > 1 ==> mant >= P112) && n == mant * Pow2(exp - 1)
  }

  lemma AlignStep(ea: int, ma: nat, eb: int, mb: nat, n: nat, m: nat)
    requires ea <= eb && Unpacked(ea, ma, n) && Unpacked(eb, mb, m)
    ensures Aligned(Jam(8 * ma, eb - ea), 8 * mb, eb - 4, n, m)
    ensures ma > 0 || mb > 0 ==> Jam(8 * ma, eb - ea) + 8 * mb > 0
  {
    AlignShift(ma, ea, mb, eb, n, m);
    if ma > 0 { JamPositive(8 * ma, eb - ea); }
  }

  /** Both mantissas shifted left by three, the one with the smaller exponent then
      shifted right to the larger exponent. */
  method Align(aExp: int, a: U128, bExp: int, b: U128, ghost n: nat, ghost m: nat)
    returns (x: U128, y: U128, e: int)
    requires Unpacked(aExp, Nat128(a), n) && Unpacked(bExp, Nat128(b), m)
    ensures Aligned(Nat128(x), Nat128(y), e - 4, n, m) || Aligned(Nat128(y), Nat128(x), e - 4, m, n)
    ensures Nat128(a) > 0 || Nat128(b) > 0 ==> Nat128(x) + Nat128(y) > 0
  {
    x := ShiftLeft3(a);
    y := ShiftLeft3(b);
    if aExp <= bExp {
      AlignStep(aExp, Nat128(a), bExp, Nat128(b), n, m);
      x := F3StickyShift(bExp - aExp, x);
      e := bExp;
    } else {
      AlignStep(bExp, Nat128(b), aExp, Nat128(a), m, n);
      y := F3StickyShift(aExp - bExp, y);
      e := aExp;
    }
  }

  /** Everything after the special cases of f3_add. */
  method AddFinite(aSgn: bit, aExp: int, a: U128, bSgn: bit, bExp: int, b: U128, ghost n: nat, ghost m: nat)
    returns (r: U128)
    requires Unpacked(aExp, Nat128(a), n) && Unpacked(bExp, Nat128(b), m)
    requires Nat128(a) > 0 || Nat128(b) > 0
    ensures RoundedSum(aSgn, n, bSgn, m, r)
  {
    var x, y, e := Align(aExp, a, bExp, b, n, m);
    var xSgn;
    xSgn, x := Combine(aSgn, bSgn, x, y, e - 4, n, m);
    ghost var v := if aSgn == bSgn then n + m else Diff(n, m);
    r := Finish(xSgn, e, x, v);
    SomePositive(aExp, Nat128(a), n, bExp, Nat128(b), m);
  }

  lemma SomePositive(ea: int, ma: nat, n: nat, eb: int, mb: nat, m: nat)
    requires Unpacked(ea, ma, n) && Unpacked(eb, mb, m) && (ma > 0 || mb > 0)
    ensures n + m > 0
  {
    if ma > 0 { MulPositive(ma, Pow2(ea - 1)); }
    if mb > 0 { MulPositive(mb, Pow2(eb - 1)); }
  }

  /** What f3_add returns for two finite operands that are not both zero is the sum. */
  lemma FiniteSum(fa: U128, fb: U128, neg: bit, r: U128)
    requires Mag(fa) < InfMag && Mag(fb) < InfMag
    requires RoundedSum(Sign(fa), Units(112, Mag(fa)), Xor1(Sign(fb), neg), Units(112, Mag(fb)), r)
    ensures IsAdded(fa, fb, neg, r)
  {
    hide NearestEven;
  }

  /** f3_add */
  method F3Add(fa: U128, fb: U128, neg: bit) returns (r: U128)
    ensures if neg == 0 then IsSum(fa, fb, r) else IsDifference(fa, fb, r)
  {
    r := Add(fa, fb, neg);
    hide IsAdded, IsSum, IsDifference;
    AddedIs(fa, fb, r);
  }

  method Add(fa: U128, fb: U128, neg: bit) returns (r: U128)
    ensures IsAdded(fa, fb, neg, r)
  {
    var aSgn, aExp, a := F3Unpack(fa);
    var bSgn, bExp, b := F3Unpack(fb);
    Classify(fa, aExp, a);
    Classify(fb, bExp, b);
    var found, nan := F3DetectNaNs(aSgn, aExp, a, bSgn, bExp, b, fa, fb);
    if found { return nan; }
    bSgn := Xor1(bSgn, neg);
    if aExp == 32767 && bExp == 32767 && aSgn != bSgn {
      r := F3NaN();
    } else if aExp == 32767 {
      r := F3Infinity(aSgn);
    } else if bExp == 32767 {
      r := F3Infinity(bSgn);
    } else {
      r := AddNumbers(fa, aExp, a, fb, bExp, b, neg);
    }
  }

  /** f3_add on finite operands: both zero, or not. */
  method AddNumbers(fa: U128, aExp: int, a: U128, fb: U128, bExp: int, b: U128, neg: bit) returns (r: U128)
    requires Mag(fa) < InfMag && Mag(fb) < InfMag
    requires Unpacked(aExp, Nat128(a), Units(112, Mag(fa))) && Unpacked(bExp, Nat128(b), Units(112, Mag(fb)))
    ensures IsAdded(fa, fb, neg, r)
  {
    var aSgn, bSgn := Sign(fa), Xor1(Sign(fb), neg);
    var aZero := IsZero(a);
    var bZero := IsZero(b);
    if aZero && bZero {
      r := F3Zero(if aSgn == 1 && bSgn == 1 then 1 else 0);
    } else {
      r := AddFinite(aSgn, aExp, a, bSgn, bExp, b, Units(112, Mag(fa)), Units(112, Mag(fb)));
      FiniteSum(fa, fb, neg, r);
    }
  }

  method AddTf3(a: U128, b: U128) returns (r: U128)
    ensures IsSum(a, b, r)
  {
    r := F3Add(a, b, 0);
  }

  method SubTf3(a: U128, b: U128) returns (r: U128)
    ensures IsDifference(a, b, r)
  {
    r := F3Add(a, b, 1);
  }
}
