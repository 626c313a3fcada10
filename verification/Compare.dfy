/** f3_cmp and the comparison entry points built on it (lib/lib-arm64.c). */
module Compare {
  import opened Words
  import opened IeeeFormat
  import opened Quad

  /** !(x0 | x1 << 1) */
  predicate ZeroBits(a: U128) { Or(a.x0, Shl(64, a.x1, 1)) == 0 }

  /** x1 << 1 >> 49 == 0x7fff && (x0 | x1 << 16) */
  predicate NaNBits(a: U128) { Shr(Shl(64, a.x1, 1), 49) == 0x7fff && Or(a.x0, Shl(64, a.x1, 16)) != 0 }

  /** f3_cmp: negative, zero or positive; 2 when an operand is a NaN. */
  function F3Cmp(a: U128, b: U128): int
  {
    var sa, sb := Shr(a.x1, 63), Shr(b.x1, 63);
    if ZeroBits(a) && ZeroBits(b) then 0
    else if NaNBits(a) || NaNBits(b) then 2
    else if sa != sb then sb - sa
    else if a.x1 < b.x1 then 2 * sa - 1
    else if a.x1 > b.x1 then 1 - 2 * sa
    else if a.x0 < b.x0 then 2 * sa - 1
    else if b.x0 < a.x0 then 1 - 2 * sa
    else 0
  }

  function LtTf2(a: U128, b: U128): int { F3Cmp(a, b) }

  function GtTf2(a: U128, b: U128): int { -F3Cmp(b, a) }

  function EqTf2(a: U128, b: U128): bool { F3Cmp(a, b) != 0 }

  lemma ZeroBitsIs(a: U128)
    ensures ZeroBits(a) <==> Mag(a) == 0
  {
    assert Pow2(63) == 0x8000_0000_0000_0000 && Pow2(64) == 0x1_0000_0000_0000_0000 && Pow2(1) == 2 by { Pow2Values(); }
    hide Pow2, Shl, Or, Mag;
    var hi, lo := ShlParts(64, a.x1, 1);
    OrIsZero(a.x0, Shl(64, a.x1, 1));
    ZeroFields(a, hi, lo);
  }

  lemma ZeroFields(a: U128, hi: nat, lo: nat)
    requires a.x1 == hi * 0x8000_0000_0000_0000 + lo && lo < 0x8000_0000_0000_0000
    ensures Mag(a) == 0 <==> a.x0 == 0 && lo == 0
  {}

  lemma SignIs(a: U128)
    ensures Shr(a.x1, 63) == Sign(a)
  {
    assert Pow2(63) == 0x8000_0000_0000_0000 by { Pow2Values(); }
    hide Pow2, Shr;
    ShrIs(a.x1, 63);
  }

  lemma NaNBitsIs(a: U128)
    ensures NaNBits(a) <==> IsNaN(a)
  {
    ExponentIs(a.x1);
    assert Pow2(48) == 0x1_0000_0000_0000 && Pow2(64) == 0x1_0000_0000_0000_0000 && Pow2(16) == 0x1_0000 by { Pow2Values(); }
    hide Pow2, Shl, Shr, Or;
    var hi, lo := ShlParts(64, a.x1, 16);
    OrIsZero(a.x0, Shl(64, a.x1, 16));
    NaNFields(a, hi, lo);
  }

  lemma ExponentIs(x: u64)
    ensures Shr(Shl(64, x, 1), 49) == x % 0x8000_0000_0000_0000 / 0x1_0000_0000_0000
  {
    assert Pow2(63) == 0x8000_0000_0000_0000 && Pow2(64) == 0x1_0000_0000_0000_0000 && Pow2(1) == 2 by { Pow2Values(); }
    assert Pow2(49) == 0x2_0000_0000_0000 by { Pow2Values(); assert Pow2(49) == 2 * Pow2(48); }
    hide Pow2, Shl, Shr;
    var hi, lo := ShlParts(64, x, 1);
    DivUnique(x, 0x8000_0000_0000_0000, hi, lo);
    ShrIs(Shl(64, x, 1), 49);
    var q := Shr(Shl(64, x, 1), 49);
    DivUnique(lo, 0x1_0000_0000_0000, q, lo - q * 0x1_0000_0000_0000);
  }

  lemma NaNFields(a: U128, hi: nat, lo: nat)
    requires a.x1 == hi * 0x1_0000_0000_0000 + lo && lo < 0x1_0000_0000_0000
    ensures IsNaN(a) <==> a.x1 % 0x8000_0000_0000_0000 / 0x1_0000_0000_0000 == 0x7fff && !(a.x0 == 0 && lo == 0)
  {
    var e := a.x1 % 0x8000_0000_0000_0000 / 0x1_0000_0000_0000;
    assert a.x1 == Sign(a) * 0x8000_0000_0000_0000 + e * 0x1_0000_0000_0000 + lo by {
      DivMod(a.x1, 0x8000_0000_0000_0000);
      DivMod(a.x1 % 0x8000_0000_0000_0000, 0x1_0000_0000_0000);
      Euclid(0x1_0000_0000_0000, hi, lo, a.x1 / 0x8000_0000_0000_0000 * 0x8000 + e,
             a.x1 % 0x8000_0000_0000_0000 % 0x1_0000_0000_0000);
    }
  }

  /** The words of two data of the same sign compare as their magnitudes do. */
  lemma WordOrder(a: U128, b: U128)
    requires Sign(a) == Sign(b)
    ensures a.x1 < b.x1 || (a.x1 == b.x1 && a.x0 < b.x0) <==> Mag(a) < Mag(b)
    ensures a.x1 == b.x1 && a.x0 == b.x0 <==> Mag(a) == Mag(b)
  {}

  lemma UnitsOrder(a: nat, b: nat)
    ensures Units(112, a) < Units(112, b) <==> a < b
    ensures Units(112, a) == 0 <==> a == 0
  {
    if a < b { UnitsMono(112, a, b); }
    if b < a { UnitsMono(112, b, a); }
    assert Units(112, 0) == 0;
    if 0 < a { UnitsMono(112, 0, a); }
  }

  ghost function Compared(x: int, y: int): int { if x < y then -1 else if x > y then 1 else 0 }

  /** f3_cmp orders all non-NaN data by value: the two zeros are equal, infinities are the ends. */
  lemma CmpOrders(a: U128, b: U128)
    ensures F3Cmp(a, b) == if IsNaN(a) || IsNaN(b) then 2 else Compared(Value(Sign(a), a), Value(Sign(b), b))
  {
    ZeroBitsIs(a);
    ZeroBitsIs(b);
    NaNBitsIs(a);
    NaNBitsIs(b);
    SignIs(a);
    SignIs(b);
    UnitsOrder(Mag(a), Mag(b));
    UnitsOrder(Mag(b), Mag(a));
    if Sign(a) == Sign(b) {
      WordOrder(a, b);
      WordOrder(b, a);
    }
    hide Units, ZeroBits, NaNBits, Shr, Mag;
  }

  /** What the entry points promise: a C comparison against zero has IEEE 754's answer, NaNs included. */
  lemma EntryPoints(a: U128, b: U128)
    ensures var ordered, x, y := !IsNaN(a) && !IsNaN(b), Value(Sign(a), a), Value(Sign(b), b);
      && (LtTf2(a, b) < 0 <==> ordered && x < y) && (LtTf2(a, b) <= 0 <==> ordered && x <= y)
      && (GtTf2(a, b) > 0 <==> ordered && x > y) && (GtTf2(a, b) >= 0 <==> ordered && x >= y)
      && (!EqTf2(a, b) <==> ordered && x == y)
  {
    CmpOrders(a, b);
    CmpOrders(b, a);
    hide F3Cmp, Value, IsNaN, Sign;
  }
}
