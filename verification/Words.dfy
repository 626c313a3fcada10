/** Machine words as bounded natural numbers.

    C's unsigned operators are defined on numbers: shifts one bit at a time, `Or` and
    `And` bit by bit, sums and differences wrapping.  The methods at the end are the
    operators as the code uses them, with contracts in plain arithmetic. */
module Words {

  const W32: nat := 0x1_0000_0000
  const W64: nat := 0x1_0000_0000_0000_0000

  type u32 = x: int | 0 <= x < 0x1_0000_0000
  type u64 = x: int | 0 <= x < 0x1_0000_0000_0000_0000
  type bit = x: int | 0 <= x < 2
  type Byte = b: nat | b < 256

  function Pow2(n: nat): (p: nat)
    ensures p > 0
  {
    if n == 0 then 1 else 2 * Pow2(n - 1)
  }

  lemma {:induction false} Pow2Add(a: nat, b: nat)
    ensures Pow2(a + b) == Pow2(a) * Pow2(b)
  {
    if a > 0 {
      Pow2Add(a - 1, b);
      assert Pow2(a + b) == 2 * Pow2(a - 1 + b);
      MulAssoc(2, Pow2(a - 1), Pow2(b));
    }
  }

  lemma {:induction false} Pow2Mono(a: nat, b: nat)
    requires a <= b
    ensures Pow2(a) <= Pow2(b)
    ensures a < b ==> 2 * Pow2(a) <= Pow2(b)
    decreases b
  {
    if a < b { Pow2Mono(a, b - 1); }
  }

  /** The powers of two that occur as word sizes and mantissa bounds. */
  lemma Pow2Values()
    ensures Pow2(0) == 1 && Pow2(1) == 2 && Pow2(2) == 4 && Pow2(3) == 8 && Pow2(4) == 16
    ensures Pow2(13) == 0x2000 && Pow2(14) == 0x4000 && Pow2(15) == 0x8000 && Pow2(16) == 0x1_0000
    ensures Pow2(30) == 0x4000_0000 && Pow2(31) == 0x8000_0000 && Pow2(32) == W32
    ensures Pow2(48) == 0x1_0000_0000_0000 && Pow2(63) == 0x8000_0000_0000_0000
    ensures Pow2(64) == W64
  {
    assert Pow2(4) == 16;
    assert Pow2(8) == 0x100 by { Pow2Add(4, 4); }
    assert Pow2(12) == 0x1000 by { Pow2Add(8, 4); }
    assert Pow2(16) == 0x1_0000 by { Pow2Add(8, 8); }
    assert Pow2(28) == 0x1000_0000 by { Pow2Add(16, 12); }
    assert Pow2(32) == W32 by { Pow2Add(16, 16); }
    assert Pow2(48) == 0x1_0000_0000_0000 by { Pow2Add(32, 16); }
    assert Pow2(60) == 0x1000_0000_0000_0000 by { Pow2Add(48, 12); }
    assert Pow2(64) == W64 by { Pow2Add(32, 32); }
    assert Pow2(16) == 2 * Pow2(15) && Pow2(15) == 2 * Pow2(14) && Pow2(14) == 2 * Pow2(13);
    assert Pow2(32) == 2 * Pow2(31) && Pow2(31) == 2 * Pow2(30);
    assert Pow2(64) == 2 * Pow2(63);
  }

  lemma Pow2Middle()
    ensures Pow2(4) == 16 && Pow2(6) == 64
    ensures Pow2(26) == 0x400_0000 && Pow2(28) == 0x1000_0000
    ensures Pow2(34) == 0x4_0000_0000 && Pow2(36) == 0x10_0000_0000 && Pow2(38) == 0x40_0000_0000
    ensures Pow2(60) == 0x1000_0000_0000_0000 && Pow2(62) == 0x4000_0000_0000_0000
    ensures Pow2(116) == 0x10_0000_0000_0000_0000_0000_0000_0000
  {
    hide Pow2;
    Pow2Values();
    assert Pow2(6) == 64 by { Pow2Add(3, 3); }
    assert Pow2(28) == 0x1000_0000 by { Pow2Add(14, 14); }
    assert Pow2(26) == 0x400_0000 by { Pow2Add(13, 13); }
    assert Pow2(34) == 0x4_0000_0000 by { Pow2Add(32, 2); }
    assert Pow2(36) == 0x10_0000_0000 by { Pow2Add(32, 4); }
    assert Pow2(38) == 0x40_0000_0000 by { Pow2Add(32, 6); }
    assert Pow2(60) == 0x1000_0000_0000_0000 by { Pow2Add(30, 30); }
    assert Pow2(62) == 0x4000_0000_0000_0000 by { Pow2Add(60, 2); }
    assert Pow2(52) == 0x10_0000_0000_0000 by { Pow2Add(48, 4); }
    assert Pow2(116) == 0x10_0000_0000_0000_0000_0000_0000_0000 by { Pow2Add(64, 52); }
  }

  // Multiplication and division, stated once so that callers stay linear.

  lemma MulAssoc(a: int, b: int, c: int)
    ensures (a * b) * c == a * (b * c)
  {}

  lemma MulCommute(a: int, b: int, d: int)
    ensures (a * b) * d == (a * d) * b
  {
    MulAssoc(a, b, d);
    MulAssoc(a, d, b);
  }

  /** Equal factors give equal products (products of different terms are unrelated to
      the solver until told so). */
  lemma MulEq(a: int, b: int, c: int)
    requires b == c
    ensures a * b == a * c && b * a == c * a
  {}

  lemma MulOne(a: int, b: int)
    requires b == 1
    ensures a * b == a
  {}

  lemma MulNat(a: nat, b: nat)
    ensures a * b >= 0
  {}

  ghost function Product(a: nat, b: nat): (r: nat)
    ensures r == a * b
  {
    MulNat(a, b);
    a * b
  }

  lemma MulPositive(a: nat, b: nat)
    requires a > 0 && b > 0
    ensures a * b > 0
  {}

  lemma Distrib(a: int, b: int, c: int)
    ensures (a + b) * c == a * c + b * c
  {}

  lemma MulMono(a: int, b: int, c: nat)
    requires a <= b
    ensures a * c <= b * c
  {}

  lemma MulMonoStrict(a: int, b: int, c: nat)
    requires a < b && c > 0
    ensures a * c < b * c
  {}

  lemma MulCancel(a: int, b: int, c: nat)
    requires c > 0
    ensures a * c < b * c <==> a < b
    ensures a * c == b * c <==> a == b
    ensures a * c <= b * c <==> a <= b
  {
    if a < b { MulMonoStrict(a, b, c); }
    if b < a { MulMonoStrict(b, a, c); }
  }

  lemma MulPow2(m: nat, a: nat, b: nat)
    ensures (m * Pow2(a)) * Pow2(b) == m * Pow2(a + b)
  {
    Pow2Add(a, b);
    MulAssoc(m, Pow2(a), Pow2(b));
  }

  lemma MulPowers(x: nat, s: nat, u: nat, y: nat, t: nat, v: nat, m: nat, w: nat)
    requires u == x * Pow2(s) && v == y * Pow2(t) && m == x * y && w == u * v
    ensures w == m * Pow2(s + t)
  {
    hide Pow2;
    var p, q := Pow2(s), Pow2(t);
    assert u * v == (x * p) * v;
    MulAssoc(x, p, v);
    assert p * v == p * (y * q);
    MulAssoc(p, y, q);
    MulAssoc(y, p, q);
    assert p * v == y * (p * q);
    MulAssoc(x, y, p * q);
    Pow2Add(s, t);
  }

  /** m * 2^k as k doublings. */
  ghost function Doubled(m: nat, k: nat): nat
  {
    if k == 0 then m else 2 * Doubled(m, k - 1)
  }

  lemma {:induction false} DoubledIs(m: nat, k: nat)
    ensures Doubled(m, k) == m * Pow2(k)
  {
    if k > 0 {
      DoubledIs(m, k - 1);
      MulEq(m, Pow2(k), 2 * Pow2(k - 1));
    }
  }

  lemma {:induction false} DoubledAdd(m: nat, a: nat, b: nat)
    ensures Doubled(Doubled(m, a), b) == Doubled(m, a + b)
  {
    if b > 0 { DoubledAdd(m, a, b - 1); }
  }

  lemma DivNat(n: nat, d: nat)
    requires d > 0
    ensures n / d >= 0 && 0 <= n % d < d
  {}

  lemma DivMod(n: int, d: nat)
    requires d > 0
    ensures n == n / d * d + n % d
    ensures 0 <= n % d < d
  {}

  /** Quotient and remainder are determined by their defining equation. */
  lemma Euclid(d: nat, q: int, r: int, p: int, s: int)
    requires 0 <= r < d && 0 <= s < d
    requires q * d + r == p * d + s
    ensures q == p && r == s
  {
    Distrib(p, 1, d);
    Distrib(q, 1, d);
    if p < q { MulMono(p + 1, q, d); }
    if q < p { MulMono(q + 1, p, d); }
  }

  lemma DivUnique(n: int, d: nat, q: int, r: int)
    requires d > 0 && 0 <= r < d
    requires n == q * d + r
    ensures n / d == q && n % d == r
  {
    DivMod(n, d);
    Euclid(d, q, r, n / d, n % d);
  }

  lemma DivDiv(n: nat, a: nat, b: nat)
    requires a > 0 && b > 0
    ensures a * b > 0
    ensures n / (a * b) == n / a / b
    ensures n % (a * b) == n / a % b * a + n % a
  {
    var q := n / a;
    var p, s := q / b, q % b;
    DivMod(n, a);
    DivMod(q, b);
    MulPositive(a, b);
    MulMono(s, b - 1, a);
    Distrib(b, -1, a);
    Distrib(p * b, s, a);
    MulAssoc(p, b, a);
    DivUnique(n, a * b, p, s * a + n % a);
  }

  // C operators.

  /** x >> k, one bit at a time. */
  function Shr(x: nat, k: nat): nat
  {
    if k == 0 then x else Shr(x, k - 1) / 2
  }

  /** x << k on words of w bits, one bit at a time. */
  function Shl(w: nat, x: nat, k: nat): nat
  {
    if k == 0 then x else DivNat(Shl(w, x, k - 1) * 2, Pow2(w)); Shl(w, x, k - 1) * 2 % Pow2(w)
  }

  function Or(a: nat, b: nat): nat
  {
    if a == 0 && b == 0 then 0
    else (if a % 2 == 1 || b % 2 == 1 then 1 else 0) + 2 * Or(a / 2, b / 2)
  }

  function And(a: nat, b: nat): nat
  {
    if a == 0 || b == 0 then 0
    else (if a % 2 == 1 && b % 2 == 1 then 1 else 0) + 2 * And(a / 2, b / 2)
  }

  function Abs(v: int): nat { if v < 0 then -v else v }

  function Truth(b: bool): (r: bit)
  {
    if b then 1 else 0
  }

  function Xor1(a: bit, b: bit): (r: bit)
  {
    if a == b then 0 else 1
  }

  function Add64(a: u64, b: u64): u64
  {
    if a + b >= 0x1_0000_0000_0000_0000 then a + b - 0x1_0000_0000_0000_0000 else a + b
  }

  function Sub64(a: u64, b: u64): u64
  {
    if a >= b then a - b else a - b + 0x1_0000_0000_0000_0000
  }

  function Add32(a: u32, b: u32): u32
  {
    if a + b >= 0x1_0000_0000 then a + b - 0x1_0000_0000 else a + b
  }

  function Sub32(a: u32, b: u32): u32
  {
    if a >= b then a - b else a - b + 0x1_0000_0000
  }

  lemma {:induction false} OrZero(a: nat)
    ensures Or(a, 0) == a && Or(0, a) == a
  {
    if a > 0 { OrZero(a / 2); }
  }

  /** Or of a multiple of 2^k and something below 2^k is addition. */
  lemma {:induction false} OrDisjoint(q: nat, b: nat, k: nat)
    requires b < Pow2(k)
    ensures q * Pow2(k) >= 0
    ensures Or(q * Pow2(k), b) == q * Pow2(k) + b && Or(b, q * Pow2(k)) == q * Pow2(k) + b
    decreases k
  {
    if k == 0 {
      OrZero(q);
    } else {
      MulNat(q, Pow2(k - 1));
      MulCommute(q, 2, Pow2(k - 1));
      MulAssoc(q, 2, Pow2(k - 1));
      OrDisjoint(q, b / 2, k - 1);
    }
  }

  /** Or works on the high and the low parts separately. */
  lemma {:induction false} OrSplit(a: nat, ha: nat, la: nat, b: nat, hb: nat, lb: nat, k: nat)
    requires a == ha * Pow2(k) + la && la < Pow2(k)
    requires b == hb * Pow2(k) + lb && lb < Pow2(k)
    ensures Or(a, b) == Or(ha, hb) * Pow2(k) + Or(la, lb)
    decreases k
  {
    if k == 0 {
      assert la == 0 && lb == 0 && Or(la, lb) == 0;
    } else {
      var p := Pow2(k - 1);
      assert Pow2(k) == 2 * p;
      OrUnfold(a, b);
      OrUnfold(la, lb);
      hide *;
      HalfPart(ha, la, p, a, Pow2(k));
      HalfPart(hb, lb, p, b, Pow2(k));
      OrSplit(a / 2, ha, la / 2, b / 2, hb, lb / 2, k - 1);
      DoubleMul(Or(ha, hb), p, Pow2(k));
    }
  }

  lemma DoubleMul(h: nat, p: nat, p2: nat)
    requires p2 == 2 * p
    ensures h * p2 == 2 * (h * p)
  {}

  lemma HalfPart(h: nat, l: nat, p: nat, a: nat, p2: nat)
    requires p2 == 2 * p && a == h * p2 + l && l < p2
    ensures a / 2 == h * p + l / 2 && a % 2 == l % 2 && l / 2 < p
  {
    MulEq(h, p2, 2 * p);
  }

  lemma OrUnfold(a: nat, b: nat)
    ensures Or(a, b) == (if a % 2 == 1 || b % 2 == 1 then 1 else 0) + 2 * Or(a / 2, b / 2)
  {}

  lemma {:induction false} OrIsZero(a: nat, b: nat)
    ensures Or(a, b) == 0 <==> a == 0 && b == 0
  {
    if a != 0 || b != 0 { OrIsZero(a / 2, b / 2); }
  }

  lemma OrOne(a: nat)
    ensures Or(a, 1) == a - a % 2 + 1
  {
    OrZero(a / 2);
  }

  lemma {:induction false} OrBound(a: nat, b: nat, k: nat)
    requires a < Pow2(k) && b < Pow2(k)
    ensures Or(a, b) < Pow2(k)
    decreases k
  {
    if k > 0 && !(a == 0 && b == 0) { OrBound(a / 2, b / 2, k - 1); }
  }

  /** Masking with 2^k - 1 keeps the low k bits. */
  lemma {:induction false} AndMask(q: nat, r: nat, k: nat)
    requires r < Pow2(k)
    ensures q * Pow2(k) >= 0 && And(q * Pow2(k) + r, Pow2(k) - 1) == r
    decreases k
  {
    MulNat(q, Pow2(k));
    if k > 0 {
      var p := Pow2(k - 1);
      MulNat(q, p);
      MulCommute(q, 2, p);
      MulAssoc(q, 2, p);
      assert (2 * p - 1) / 2 == p - 1 && (2 * p - 1) % 2 == 1;
      assert (q * Pow2(k) + r) / 2 == q * p + r / 2;
      AndMask(q, r / 2, k - 1);
    }
  }

  lemma {:induction false} ShrIs(x: nat, k: nat)
    ensures Shr(x, k) * Pow2(k) <= x < (Shr(x, k) + 1) * Pow2(k)
  {
    if k > 0 {
      ShrIs(x, k - 1);
      var y, p := Shr(x, k - 1), Pow2(k - 1);
      MulAssoc(y / 2, 2, p);
      MulAssoc(y / 2 + 1, 2, p);
      MulMono(y / 2 * 2, y, p);
      MulMono(y + 1, (y / 2 + 1) * 2, p);
    }
  }

  /** A left shift keeps the low w - k bits and loses the others. */
  lemma {:induction false} ShlIs(w: nat, x: nat, hi: nat, lo: nat, k: nat)
    requires x < Pow2(w) && k <= w && lo < Pow2(w - k) && x == hi * Pow2(w - k) + lo
    ensures Shl(w, x, k) == lo * Pow2(k)
    decreases k
  {
    if k == 0 {
      if hi > 0 { MulMono(1, hi, Pow2(w)); }
      MulOne(lo, Pow2(0));
    } else {
      var y := Shl(w, x, k - 1);
      assert Shl(w, x, k) == y * 2 % Pow2(w) && Pow2(k) == 2 * Pow2(k - 1) && Pow2(w - k + 1) == 2 * Pow2(w - k);
      hide *;
      var l := SplitBit(x, hi, lo, Pow2(w - k));
      ShlIs(w, x, hi / 2, l, k - 1);
      Pow2Add(w - k, k);
      ShlStep(hi % 2, lo, l, Pow2(w - k), Pow2(k - 1), Pow2(k), y, Pow2(w));
    }
  }

  lemma {:induction false} ShlCompose(w: nat, x: nat, j: nat, k: nat)
    ensures Shl(w, Shl(w, x, j), k) == Shl(w, x, j + k)
    decreases k
  {
    if k > 0 { ShlCompose(w, x, j, k - 1); }
  }

  lemma SplitBit(x: nat, hi: nat, lo: nat, s: nat) returns (l: nat)
    requires x == hi * s + lo && lo < s
    ensures l == hi % 2 * s + lo < 2 * s && x == hi / 2 * (2 * s) + l
  {
    Distrib(hi / 2 * 2, hi % 2, s);
    MulAssoc(hi / 2, 2, s);
    MulEq(s, hi, hi / 2 * 2 + hi % 2);
    l := hi % 2 * s + lo;
  }

  lemma ShlStep(b: nat, lo: nat, l: nat, s: nat, q: nat, q2: nat, y: nat, m: nat)
    requires b < 2 && l == b * s + lo && lo < s && q > 0 && q2 == 2 * q && s * q2 == m && y == l * q
    ensures m > 0 && y * 2 % m == lo * q2
  {
    MulPositive(s, q2);
    MulNat(lo, q2);
    MulMonoStrict(lo, s, q2);
    DoubleMul(l, q, q2);
    Distrib(b * s, lo, q2);
    MulAssoc(b, s, q2);
    DivUnique(y * 2, m, b, lo * q2);
  }

  /** The parts of a word that a left shift by k separates. */
  lemma ShlParts(w: nat, x: nat, k: nat) returns (hi: nat, lo: nat)
    requires x < Pow2(w) && k <= w
    ensures x == hi * Pow2(w - k) + lo && lo < Pow2(w - k) && hi < Pow2(k)
    ensures Shl(w, x, k) == lo * Pow2(k) < Pow2(w)
  {
    var s, p := Pow2(w - k), Pow2(k);
    hide *;
    DivMod(x, s);
    DivNat(x, s);
    hi, lo := x / s, x % s;
    ShlIs(w, x, hi, lo, k);
    Pow2Add(k, w - k);
    if hi >= p { MulMono(p, hi, s); }
    MulMonoStrict(lo, s, p);
  }

  function Or64(a: u64, b: u64): u64 { Pow2Values(); OrBound(a, b, 64); Or(a, b) }

  function Or32(a: u32, b: u32): u32 { Pow2Values(); OrBound(a, b, 32); Or(a, b) }

  // The operators as statements.  Ghost arguments name the powers of two involved;
  // ghost results name the parts of a word that a shift separates.

  /** x << k: x == hi * s + lo and the result is lo * p. */
  method Left64(x: u64, k: nat, ghost s: nat, ghost p: nat) returns (r: u64, ghost hi: nat, ghost lo: nat)
    requires k <= 64 && s == Pow2(64 - k) && p == Pow2(k)
    ensures x == hi * s + lo && lo < s && hi < p
    ensures r == lo * p && r == Shl(64, x, k)
  {
    assert Pow2(64) == W64 by { Pow2Values(); }
    hide *;
    hi, lo := ShlParts(64, x, k);
    MulNat(lo, p);
    r := Shl(64, x, k);
  }

  /** x << k when nothing is shifted out. */
  method Scale64(x: u64, k: nat, ghost p: nat) returns (r: u64)
    requires k < 64 && p == Pow2(k) && x * p < 0x1_0000_0000_0000_0000
    ensures r == x * p
  {
    ghost var s := Pow2(64 - k);
    assert x < s by { Pow2Values(); Pow2Add(64 - k, k); MulCancel(x, s, p); }
    hide *;
    ghost var hi, lo;
    r, hi, lo := Left64(x, k, s, p);
    assert lo == x by { Euclid(s, hi, lo, 0, x); }
  }

  /** x >> k */
  method Right64(x: u64, k: nat, ghost p: nat) returns (r: u64, ghost lo: nat)
    requires k < 64 && p == Pow2(k)
    ensures x == r * p + lo && lo < p
  {
    ShrIs(x, k);
    var y := Shr(x, k);
    lo := x - y * p;
    Distrib(y, 1, p);
    MulMono(1, p, y);
    r := y;
  }

  /** a | b where a == q * 2^k and b is below 2^k. */
  method Join64(a: u64, b: u64, ghost k: nat, ghost p: nat, ghost q: nat) returns (r: u64)
    requires p == Pow2(k) && a == q * p && b < p
    ensures r == a + b
  {
    OrDisjoint(q, b, k);
    r := Or64(a, b);
  }

  /** a | !!c */
  method SetLow64(a: u64, c: bool) returns (r: u64)
    ensures r == if c then a - a % 2 + 1 else a
  {
    OrOne(a);
    OrZero(a);
    r := Or64(a, Truth(c));
  }

  /** !(a | b) */
  method BothZero(a: u64, b: u64) returns (r: bool)
    ensures r <==> a == 0 && b == 0
  {
    OrIsZero(a, b);
    r := Or64(a, b) == 0;
  }

  /** x & (2^k - 1) */
  method Mask64(x: u64, k: nat, ghost p: nat) returns (r: u64, ghost hi: nat)
    requires p == Pow2(k)
    ensures x == hi * p + r && r < p
  {
    DivMod(x, p);
    DivNat(x, p);
    hi := x / p;
    AndMask(hi, x % p, k);
    MulNat(hi, p);
    r := And(x, Pow2(k) - 1);
  }

  // The same on 32-bit words.

  method Left32(x: u32, k: nat, ghost s: nat, ghost p: nat) returns (r: u32, ghost hi: nat, ghost lo: nat)
    requires k <= 32 && s == Pow2(32 - k) && p == Pow2(k)
    ensures x == hi * s + lo && lo < s && hi < p
    ensures r == lo * p
  {
    assert Pow2(32) == W32 by { Pow2Values(); }
    hide *;
    hi, lo := ShlParts(32, x, k);
    MulNat(lo, p);
    r := Shl(32, x, k);
  }

  method Right32(x: u32, k: nat, ghost p: nat) returns (r: u32, ghost lo: nat)
    requires k < 64 && p == Pow2(k)
    ensures x == r * p + lo && lo < p
  {
    var y;
    y, lo := Right64(x, k, p);
    MulMono(1, p, y);
    r := y;
  }

  method Join32(a: u32, b: u32, ghost k: nat, ghost p: nat, ghost q: nat) returns (r: u32)
    requires p == Pow2(k) && a == q * p && b < p
    ensures r == a + b
  {
    OrDisjoint(q, b, k);
    r := Or32(a, b);
  }
}
