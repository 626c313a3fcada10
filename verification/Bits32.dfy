/** Finding the leading one of a word by masks and shifts (lib/armeabi.c). */
module Bits32 {
  import opened Words

  lemma {:induction false} AndSplit(a: nat, ha: nat, la: nat, b: nat, hb: nat, lb: nat, k: nat)
    requires a == ha * Pow2(k) + la && la < Pow2(k)
    requires b == hb * Pow2(k) + lb && lb < Pow2(k)
    ensures And(a, b) == And(ha, hb) * Pow2(k) + And(la, lb)
    decreases k
  {
    if k == 0 {
      assert la == 0 && lb == 0 && And(la, lb) == 0;
    } else {
      var p := Pow2(k - 1);
      assert Pow2(k) == 2 * p;
      AndUnfold(a, b);
      AndUnfold(la, lb);
      hide *;
      HalfPart(ha, la, p, a, Pow2(k));
      HalfPart(hb, lb, p, b, Pow2(k));
      AndSplit(a / 2, ha, la / 2, b / 2, hb, lb / 2, k - 1);
      DoubleMul(And(ha, hb), p, Pow2(k));
    }
  }

  lemma {:induction false} AndUnfold(a: nat, b: nat)
    ensures And(a, b) == (if a % 2 == 1 && b % 2 == 1 then 1 else 0) + 2 * And(a / 2, b / 2)
  {}

  /** A mask of the top bits tells whether they are all clear. */
  lemma HighMask(x: nat, w: nat, k: nat, mask: nat)
    requires x < Pow2(w + k) && mask == (Pow2(k) - 1) * Pow2(w)
    ensures And(x, mask) == 0 <==> x < Pow2(w)
  {
    hide *;
    DivMod(x, Pow2(w));
    DivNat(x, Pow2(w));
    var h, l := x / Pow2(w), x % Pow2(w);
    AndSplit(x, h, l, mask, Pow2(k) - 1, 0, w);
    assert And(l, 0) == 0 by { AndZero(l); }
    Pow2Add(k, w);
    if h >= Pow2(k) { MulMono(Pow2(k), h, Pow2(w)); }
    AndMask(0, h, k);
    MulOne(h, 1);
    if h > 0 { MulMono(1, h, Pow2(w)); }
  }

  lemma AndZero(l: nat)
    ensures And(l, 0) == 0
  {}

  /** (x & mask) == 0 */
  method TopClear(x: u32, mask: u32, ghost w: nat) returns (r: bool)
    requires w < 32 && mask == 0x1_0000_0000 - Pow2(w)
    ensures r <==> x < Pow2(w)
  {
    assert Pow2(32) == 0x1_0000_0000 by { Pow2Values(); }
    hide *;
    Pow2Add(32 - w, w);
    Distrib(Pow2(32 - w), -1, Pow2(w));
    HighMask(x, w, 32 - w, mask);
    r := And(x, mask) == 0;
  }

  /** One step: if the top k bits are clear, shift them out. */
  method Step(v: u32, s: nat, k: nat, mask: u32, ghost x: nat) returns (w: u32, t: nat)
    requires 0 < k <= 16 && mask == 0x1_0000_0000 - Pow2(32 - k)
    requires v == Doubled(x, s) && v >= Pow2(32 - 2 * k)
    ensures w == Doubled(x, t) && w >= Pow2(32 - k) && s <= t <= s + k
  {
    hide *;
    w, t := v, s;
    var clear := TopClear(v, mask, 32 - k);
    if clear {
      t := t + k;
      w := Up(v, k, x, s);
    }
  }

  /** v <<= k when nothing is lost. */
  method Up(v: u32, k: nat, ghost x: nat, ghost s: nat) returns (w: u32)
    requires 0 < k <= 16 && Pow2(32 - 2 * k) <= v < Pow2(32 - k) && v == Doubled(x, s)
    ensures w == Doubled(x, s + k) && w >= Pow2(32 - k)
  {
    hide *;
    ghost var hi, lo;
    w, hi, lo := Left32(v, k, Pow2(32 - k), Pow2(k));
    Euclid(Pow2(32 - k), hi, lo, 0, v);
    Pow2Add(32 - 2 * k, k);
    MulMono(Pow2(32 - 2 * k), v, Pow2(k));
    DoubledIs(v, k);
    DoubledAdd(x, s, k);
  }

  /** The five masked shifts: s leading zeros, and x with its leading one at the top. */
  method Normalise32(x: u32) returns (v: u32, s: nat)
    requires x > 0
    ensures s < 32 && v == x * Pow2(s) && v >= 0x8000_0000
  {
    assert Pow2(0) == 1 && Pow2(31) == 0x8000_0000 && Pow2(30) == 0xc000_0000 - 0x8000_0000 by { Pow2Values(); }
    assert Pow2(28) == 0x1000_0000 by { Pow2Middle(); }
    assert Pow2(24) == 0x100_0000 by { Pow2Middle(); assert Pow2(26) == 4 * Pow2(24); }
    assert Pow2(16) == 0x1_0000 by { Pow2Values(); }
    assert Doubled(x, 0) == x;
    hide *;
    v, s := x, 0;
    v, s := Step(v, s, 16, 0xffff_0000, x);
    v, s := Step(v, s, 8, 0xff00_0000, x);
    v, s := Step(v, s, 4, 0xf000_0000, x);
    v, s := Step(v, s, 2, 0xc000_0000, x);
    v, s := Step(v, s, 1, 0x8000_0000, x);
    DoubledIs(x, s);
  }

  /** armeabi_clz32 */
  method Clz32(x: u32) returns (n: nat)
    ensures x == 0 ==> n == 32
    ensures x > 0 ==> n < 32 && Pow2(31 - n) <= x < 2 * Pow2(31 - n)
  {
    if x == 0 { return 32; }
    assert Pow2(31) == 0x8000_0000 by { Pow2Values(); }
    hide *;
    var v;
    v, n := Normalise32(x);
    LeadingOne(x, n, v, 31);
  }

  lemma LeadingOne(x: nat, n: nat, v: nat, top: nat)
    requires n <= top && v == x * Pow2(n) && Pow2(top) <= v < 2 * Pow2(top)
    ensures Pow2(top - n) <= x < 2 * Pow2(top - n)
  {
    hide *;
    Pow2Add(top - n, n);
    MulAssoc(2, Pow2(top - n), Pow2(n));
    MulCancel(Pow2(top - n), x, Pow2(n));
    MulCancel(x, 2 * Pow2(top - n), Pow2(n));
  }

  /** armeabi_msb64 */
  method Msb64(a: u64) returns (msb: nat)
    requires a > 0
    ensures msb < 64 && Pow2(msb) <= a < 2 * Pow2(msb)
  {
    assert Pow2(32) == 0x1_0000_0000 by { Pow2Values(); }
    hide *;
    var h, lo := Right64(a, 32, 0x1_0000_0000);
    if h != 0 {
      var n := Clz32(h);
      msb := 63 - n;
      HighLeading(a, h, lo, 31 - n);
    } else {
      var n := Clz32(a);
      msb := 31 - n;
    }
  }

  lemma HighLeading(a: nat, h: nat, lo: nat, k: nat)
    requires a == h * 0x1_0000_0000 + lo && lo < 0x1_0000_0000 && Pow2(k) <= h < 2 * Pow2(k)
    ensures Pow2(32 + k) <= a < 2 * Pow2(32 + k)
  {
    assert Pow2(32) == 0x1_0000_0000 by { Pow2Values(); }
    hide *;
    Pow2Add(32, k);
  }
}
