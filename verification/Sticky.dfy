/** Sticky (jamming) right shifts: what a discarded tail leaves behind in the low bit,
    and why two such guard bits are enough to round correctly. */
module Sticky {
  import opened Words
  import opened IeeeFormat

  /** One sticky shift: x / 2, with its low bit set when a one was shifted out. */
  function Jam1(x: nat): nat
  {
    if x % 2 == 0 then x / 2 else x / 4 * 2 + 1
  }

  /** k sticky shifts. */
  function Jam(x: nat, k: nat): nat
  {
    if k == 0 then x else Jam1(Jam(x, k - 1))
  }

  /** `x` is the sticky image of n/d: even means exact, odd means strictly between
      the two neighbouring even integers. */
  ghost predicate Jammed(x: nat, n: nat, d: nat)
  {
    if x % 2 == 0 then x * d == n else (x - 1) * d < n < (x + 1) * d
  }

  lemma {:induction false} JamCompose(x: nat, j: nat, k: nat)
    ensures Jam(x, j + k) == Jam(Jam(x, j), k)
    decreases k
  {
    if k > 0 { JamCompose(x, j, k - 1); }
  }

  /** A quotient, its low bit set when the remainder is not zero. */
  function Jamming(q: nat, r: nat): nat { if r == 0 then q else q - q % 2 + 1 }

  /** The closed form: the quotient by 2^k, jammed. */
  lemma {:induction false} JamIs(x: nat, q: nat, r: nat, k: nat)
    requires x == q * Pow2(k) + r && r < Pow2(k)
    ensures Jam(x, k) == Jamming(q, r)
    decreases k
  {
    if k > 0 {
      var p, y := Pow2(k - 1), Jam(x, k - 1);
      assert Pow2(k) == 2 * p && Jam(x, k) == Jam1(y);
      hide *;
      var b, s := NextBit(x, q, r, p, Pow2(k));
      JamIs(x, 2 * q + b, s, k - 1);
      JamFold(q, b, s, r);
    }
  }

  lemma NextBit(x: nat, q: nat, r: nat, p: nat, p2: nat) returns (b: bit, s: nat)
    requires p2 == 2 * p && x == q * p2 + r && r < p2
    ensures x == (2 * q + b) * p + s && s < p && (r == 0 <==> b == 0 && s == 0)
  {
    MulEq(q, p2, 2 * p);
    Distrib(2 * q, 1, p);
    b, s := if r < p then 0 else 1, if r < p then r else r - p;
  }

  lemma JamFold(q: nat, b: bit, s: nat, r: nat)
    requires r == 0 <==> b == 0 && s == 0
    ensures Jam1(Jamming(2 * q + b, s)) == Jamming(q, r)
  {}

  /** Zeros shifted in on the right are shifted out again. */
  lemma JamShiftedIn(x: nat, k: nat, s: nat)
    requires k <= s
    ensures x * Pow2(k) >= 0 && Jam(x * Pow2(k), s) == Jam(x, s - k)
  {
    MulNat(x, Pow2(k));
    JamIs(x * Pow2(k), x, 0, k);
    JamCompose(x * Pow2(k), k, s - k);
  }

  lemma JamBounds(x: nat, k: nat, lo: nat, hi: nat)
    requires lo * Pow2(k) <= x < hi * Pow2(k) && lo % 2 == 0 && hi % 2 == 0
    ensures lo <= Jam(x, k) < hi
  {
    hide Pow2, Jam;
    var q, r := Quotient(x, Pow2(k), lo, hi);
    JamIs(x, q, r, k);
  }

  lemma Quotient(x: nat, p: nat, lo: nat, hi: nat) returns (q: nat, r: nat)
    requires p > 0 && lo * p <= x < hi * p
    ensures x == q * p + r && r < p && lo <= q < hi
  {
    DivMod(x, p);
    DivNat(x, p);
    q, r := x / p, x % p;
    Distrib(q, 1, p);
    MulCancel(lo, q + 1, p);
    MulCancel(q, hi, p);
  }

  lemma Jam1Jammed(x: nat, n: nat, d: nat)
    requires d > 0 && Jammed(x, n, d)
    ensures Jammed(Jam1(x), n, 2 * d)
  {
    var a, r := x / 4, x % 4;
    Multiples(a, d);
    EvenMultiples(a, d);
    if r == 0 {
      assert x == 4 * a && Jam1(x) == 2 * a;
    } else if r == 1 {
      assert x - 1 == 4 * a && x + 1 == 4 * a + 2 && Jam1(x) == 2 * a + 1;
    } else if r == 2 {
      assert x == 4 * a + 2 && Jam1(x) == 2 * a + 1;
    } else {
      assert x - 1 == 4 * a + 2 && x + 1 == 4 * a + 4 && Jam1(x) == 2 * a + 1;
    }
  }

  lemma EvenMultiples(m: nat, d: nat)
    ensures (2 * m) * (2 * d) == m * (4 * d)
    ensures (2 * m + 2) * (2 * d) == m * (4 * d) + 4 * d
  {}

  // Scaled form: x * 2^e against n/d, with e of either sign.

  ghost function ScaleN(n: nat, e: int): (r: nat)
  {
    if e >= 0 then n else MulNat(n, Pow2(-e)); n * Pow2(-e)
  }

  ghost function ScaleD(d: nat, e: int): (r: nat)
  {
    if e >= 0 then MulNat(Pow2(e), d); Pow2(e) * d else d
  }

  /** x * 2^e is the sticky image of n/d. */
  ghost predicate Holds(x: nat, e: int, n: nat, d: nat)
  {
    Jammed(x, ScaleN(n, e), ScaleD(d, e))
  }

  /** x * 2^e equals n/d. */
  ghost predicate Exact(x: nat, e: int, n: nat, d: nat)
  {
    x * ScaleD(d, e) == ScaleN(n, e)
  }

  lemma ScaleStep(n: nat, d: nat, e: int)
    ensures e >= 0 ==> ScaleN(n, e + 1) == ScaleN(n, e) && ScaleD(d, e + 1) == 2 * ScaleD(d, e)
    ensures e < 0 ==> ScaleN(n, e) == 2 * ScaleN(n, e + 1) && ScaleD(d, e + 1) == ScaleD(d, e)
  {
    if e >= 0 {
      MulEq(d, Pow2(e + 1), 2 * Pow2(e));
    } else {
      MulEq(n, Pow2(-e), 2 * Pow2(-e - 1));
      if e == -1 {
        MulOne(d, Pow2(0));
        MulOne(n, Pow2(0));
      }
    }
  }

  lemma {:induction false} ScalePositive(d: nat, e: int)
    requires d > 0
    ensures ScaleD(d, e) > 0
  {
    if e >= 0 { MulPositive(Pow2(e), d); }
  }

  lemma HoldsStep(x: nat, e: int, n: nat, d: nat)
    requires d > 0 && Holds(x, e, n, d)
    ensures Holds(Jam1(x), e + 1, n, d)
  {
    ScaleStep(n, d, e);
    ScalePositive(d, e);
    Jam1Jammed(x, ScaleN(n, e), ScaleD(d, e));
    JammedHalve(Jam1(x), ScaleN(n, e), ScaleD(d, e), ScaleN(n, e + 1), ScaleD(d, e + 1));
  }

  lemma JammedHalve(x: nat, n: nat, d: nat, n1: nat, d1: nat)
    requires Jammed(x, n, 2 * d)
    requires (n1 == n && d1 == 2 * d) || (n == 2 * n1 && d1 == d)
    ensures Jammed(x, n1, d1)
  {
    if n == 2 * n1 && d1 == d {
      MulEq(x, 2 * d, 2 * d1);
      MulEq(x - 1, 2 * d, 2 * d1);
      MulEq(x + 1, 2 * d, 2 * d1);
    } else {
      MulEq(x, 2 * d, d1);
      MulEq(x - 1, 2 * d, d1);
      MulEq(x + 1, 2 * d, d1);
    }
  }

  lemma {:induction false} HoldsShift(x: nat, e: int, n: nat, d: nat, k: nat)
    requires d > 0 && Holds(x, e, n, d)
    ensures Holds(Jam(x, k), e + k, n, d)
    decreases k
  {
    if k > 0 {
      HoldsShift(x, e, n, d, k - 1);
      HoldsStep(Jam(x, k - 1), e + k - 1, n, d);
    }
  }

  lemma ExactHolds(x: nat, e: int, n: nat, d: nat)
    requires d > 0 && Exact(x, e, n, d)
    ensures Holds(x, e, n, d)
  {
    ScalePositive(d, e);
    var s := ScaleD(d, e);
    Distrib(x, 1, s);
    Distrib(x, -1, s);
  }

  lemma ExactStep(x: nat, e: int, n: nat, d: nat)
    ensures Exact(2 * x, e, n, d) <==> Exact(x, e + 1, n, d)
  {
    ScaleStep(n, d, e);
    var s, t := ScaleD(d, e), ScaleD(d, e + 1);
    if e >= 0 { MulEq(x, t, 2 * s); } else { MulEq(x, t, s); }
    assert (2 * x) * s == 2 * (x * s);
  }

  /** Exactness is preserved by trading a factor 2^k between mantissa and exponent. */
  lemma {:induction false} ExactShift(x: nat, e: int, n: nat, d: nat, k: nat)
    ensures x * Pow2(k) >= 0 && (Exact(x * Pow2(k), e, n, d) <==> Exact(x, e + k, n, d))
    decreases k
  {
    MulNat(x, Pow2(k));
    if k == 0 {
      MulOne(x, Pow2(0));
    } else {
      MulNat(x, Pow2(k - 1));
      MulEq(x, Pow2(k), 2 * Pow2(k - 1));
      ExactStep(x * Pow2(k - 1), e, n, d);
      ExactShift(x, e + 1, n, d, k - 1);
    }
  }

  lemma ExactRatio(m: nat, t: nat, k: nat, n: nat)
    requires n == m * Pow2(t)
    ensures Exact(m, t - k, n, Pow2(k))
  {
    var e := t - k;
    if e >= 0 {
      assert ScaleN(n, e) == n && ScaleD(Pow2(k), e) == Pow2(e) * Pow2(k);
      Pow2Add(e, k);
    } else {
      assert ScaleN(n, e) == n * Pow2(-e) && ScaleD(Pow2(k), e) == Pow2(k);
      MulPow2(m, t, -e);
      MulEq(Pow2(-e), n, m * Pow2(t));
    }
    hide Pow2, ScaleN, ScaleD;
  }

  // Rounding away the last two bits.

  function RoundQuarter(y: nat): nat
  {
    y / 4 + if y % 4 == 3 || (y % 4 == 2 && y / 4 % 2 == 1) then 1 else 0
  }

  lemma RoundQuarterNearest(y: nat, n: nat, d: nat)
    requires d > 0 && Jammed(y, n, d)
    ensures IntNearestEven(n, 4 * d, RoundQuarter(y))
  {
    var m, r := y / 4, y % 4;
    Multiples(m, d);
    if r == 0 {
      assert y == 4 * m;
    } else if r == 1 {
      assert y - 1 == 4 * m && y + 1 == 4 * m + 2;
    } else if r == 2 {
      assert y == 4 * m + 2;
    } else {
      assert y - 1 == 4 * m + 2 && y + 1 == 4 * m + 4;
    }
  }

  /** The multiples of d around 4 * m * d. */
  lemma Multiples(m: nat, d: nat)
    ensures (4 * m) * d == m * (4 * d)
    ensures (4 * m + 2) * d == m * (4 * d) + 2 * d
    ensures (4 * m + 4) * d == (m + 1) * (4 * d) == m * (4 * d) + 4 * d
  {}

  /** Bringing n/d to the scale of two guard bits multiplies both sides by 1, 2 or 4. */
  lemma GuardScale(n: nat, d: nat, e: nat) returns (c: nat)
    ensures c in {1, 2, 4} && Pow2(e) * d >= 0
    ensures ScaleN(n, e - 2) == c * n && 4 * ScaleD(d, e - 2) == c * (Pow2(e) * d)
  {
    MulNat(Pow2(e), d);
    if e >= 2 {
      c := 1;
      MulEq(d, Pow2(e), 4 * Pow2(e - 2));
    } else if e == 1 {
      c := 2;
      assert Pow2(1) == 2;
    } else {
      c := 4;
      assert Pow2(0) == 1 && Pow2(2) == 4;
    }
  }

  lemma IntNearestScale(n: nat, d: nat, k: nat, c: nat)
    requires c in {1, 2, 4} && IntNearestEven(c * n, c * d, k)
    ensures IntNearestEven(n, d, k)
  {
    if c == 1 {
    } else if c == 2 {
      assert k * (2 * d) == 2 * (k * d);
    } else {
      assert k * (4 * d) == 4 * (k * d);
    }
  }

  /** Two guard bits with a sticky low bit decide the rounding of the exact value. */
  lemma RoundHolds(y: nat, e: nat, n: nat, d: nat)
    requires d > 0 && Holds(y, e - 2, n, d)
    ensures Pow2(e) * d >= 0 && IntNearestEven(n, Pow2(e) * d, RoundQuarter(y))
  {
    var c := GuardScale(n, d, e);
    ScalePositive(d, e - 2);
    RoundQuarterNearest(y, ScaleN(n, e - 2), ScaleD(d, e - 2));
    IntNearestScale(n, Pow2(e) * d, RoundQuarter(y), c);
  }

  lemma JammedLower(y: nat, n: nat, d: nat, p: nat)
    requires Jammed(y, n, d) && y >= 4 * p
    ensures p * (4 * d) <= n
  {
    MulMono(4 * p, y - y % 2, d);
    MulAssoc(p, 4, d);
  }

  lemma HoldsLower(y: nat, e: nat, n: nat, d: nat, p: nat)
    requires Holds(y, e - 2, n, d) && y >= 4 * p
    ensures Pow2(e) * d >= 0 && p * (Pow2(e) * d) <= n
  {
    var c := GuardScale(n, d, e);
    JammedLower(y, ScaleN(n, e - 2), ScaleD(d, e - 2), p);
    MulEq(p, 4 * ScaleD(d, e - 2), c * (Pow2(e) * d));
    ScaleCancel(p, Pow2(e) * d, n, c);
  }

  lemma ScaleCancel(p: nat, g: nat, n: nat, c: nat)
    requires c in {1, 2, 4} && p * (c * g) <= c * n
    ensures p * g <= n
  {
    assert p * (2 * g) == 2 * (p * g) && p * (4 * g) == 4 * (p * g);
  }

  /** The rounding step shared by every routine: a working value with two sticky guard
      bits, rounded and encoded by plain addition, is the correctly rounded encoding. */
  lemma RoundCorrect(f: Format, y: nat, e: nat, n: nat, d: nat)
    requires Proper(f) && d > 0 && Holds(y, e - 2, n, d)
    requires y < 8 * Pow2(f.frac)
    requires e > 0 ==> y >= 4 * Pow2(f.frac)
    ensures NearestEven(f, n, d, Min(Encoded(f.frac, RoundQuarter(y), e), Inf(f)))
  {
    RoundHolds(y, e, n, d);
    if e > 0 { HoldsLower(y, e, n, d, Pow2(f.frac)); }
    NearestOnGrid(f, n, d, RoundQuarter(y), e);
  }
}
