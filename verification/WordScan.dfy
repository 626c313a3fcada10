/** The zero-byte test on whole words (lib/builtin.c). */
module WordScan {
  import opened Words
  import opened Bits32

  /** A word of |bs| bytes on a little-endian host. */
  function Load(bs: seq<Byte>): nat
  {
    if bs == [] then 0 else Load(bs[1..]) * 256 + bs[0]
  }

  /** 256^k */
  function Span(k: nat): (p: nat)
    ensures p > 0
  {
    if k == 0 then 1 else Span(k - 1) * 256
  }

  /** (unsigned long)-1 / 0xFF and that << 7, for words of k bytes. */
  function Ones(k: nat): nat { if k == 0 then 0 else Ones(k - 1) * 256 + 1 }

  function Highs(k: nat): nat { if k == 0 then 0 else Highs(k - 1) * 256 + 128 }

  /** __TCC_HAS_NULL_BYTE */
  function HasNull(k: nat, w: nat): nat
    requires w < Span(k)
  {
    And(And((w - Ones(k)) % Span(k), Span(k) - 1 - w), Highs(k))
  }

  lemma {:induction false} LoadBound(bs: seq<Byte>)
    ensures Load(bs) < Span(|bs|)
  {
    if bs != [] { LoadBound(bs[1..]); }
  }

  lemma {:induction false} AndLe(a: nat, b: nat)
    ensures And(a, b) <= a && And(a, b) <= b
  {
    if a != 0 && b != 0 { AndLe(a / 2, b / 2); }
  }

  lemma AndBytes(ha: nat, la: Byte, hb: nat, lb: Byte)
    ensures And(ha * 256 + la, hb * 256 + lb) == And(ha, hb) * 256 + And(la, lb)
  {
    assert Pow2(8) == 256;
    hide Pow2, And;
    AndSplit(ha * 256 + la, ha, la, hb * 256 + lb, hb, lb, 8);
  }

  /** Bit 7 alone. */
  lemma HighBit(z: Byte)
    ensures And(z, 128) == if z >= 128 then 128 else 0
  {
    assert Pow2(7) == 128;
    hide Pow2;
    AndSplit(z, z / 128, z % 128, 128, 1, 0, 7);
    assert And(0, 1) == 0 && And(1, 1) == 1 && And(z % 128, 0) == 0;
  }

  /** The test on a single byte, with no borrow from below. */
  lemma LowByte(b: Byte)
    requires b > 0
    ensures And(And(b - 1, 255 - b), 128) == 0
  {
    AndLe(b - 1, 255 - b);
    HighBit(And(b - 1, 255 - b));
  }

  lemma ModBytes(x: int, r: Byte, p: nat)
    requires p > 0
    ensures (x * 256 + r) % (p * 256) == x % p * 256 + r
  {
    DivMod(x, p);
    MulCommute(x / p, p, 256);
    MulAssoc(x / p, p, 256);
    Distrib(x / p * p, x % p, 256);
    DivUnique(x * 256 + r, p * 256, x / p, x % p * 256 + r);
  }

  lemma ZeroLow(q: nat, c: nat, hs: nat)
    ensures And(And(q * 256 + 255, c * 256 + 255), hs * 256 + 128) == And(And(q, c), hs) * 256 + 128
  {
    AndMask255();
    hide And;
    AndBytes(q, 255, c, 255);
    AndBytes(And(q, c), 255, hs, 128);
  }

  lemma NonzeroLow(q: nat, c: nat, hs: nat, b: Byte)
    requires b > 0
    ensures And(And(q * 256 + (b - 1), c * 256 + (255 - b)), hs * 256 + 128) == And(And(q, c), hs) * 256
  {
    AndLe(b - 1, 255 - b);
    LowByte(b);
    hide And;
    AndBytes(q, b - 1, c, 255 - b);
    AndBytes(And(q, c), And(b - 1, 255 - b), hs, 128);
  }

  /** x - ones, borrow and all, and the complement, by bytes. */
  lemma SubBytes(h: nat, b: Byte, o: nat, p: nat, x: int, y: int)
    requires h < p && x == (h * 256 + b - (o * 256 + 1)) % (p * 256) && y == p * 256 - 1 - (h * 256 + b)
    ensures b == 0 ==> x == (h - o - 1) % p * 256 + 255
    ensures b > 0 ==> x == (h - o) % p * 256 + (b - 1)
    ensures y == (p - 1 - h) * 256 + (255 - b)
  {
    if b == 0 {
      assert h * 256 + b - (o * 256 + 1) == (h - o - 1) * 256 + 255;
      ModBytes(h - o - 1, 255, p);
    } else {
      assert h * 256 + b - (o * 256 + 1) == (h - o) * 256 + (b - 1);
      ModBytes(h - o, b - 1, p);
    }
  }

  ghost function Tested(x: nat, y: nat, hs: nat): nat { And(And(x, y), hs) }

  /** The word test, one byte at a time. */
  lemma HasNullStep(k: nat, h: nat, b: Byte)
    requires h < Span(k)
    ensures h * 256 + b < Span(k + 1)
    ensures b == 0 ==> HasNull(k + 1, h * 256 + b) != 0
    ensures b > 0 ==> HasNull(k + 1, h * 256 + b) == HasNull(k, h) * 256
  {
    var p, o, hs := Span(k), Ones(k), Highs(k);
    assert Span(k + 1) == p * 256 && Ones(k + 1) == o * 256 + 1 && Highs(k + 1) == hs * 256 + 128;
    var x, y := (h * 256 + b - (o * 256 + 1)) % (p * 256), p * 256 - 1 - (h * 256 + b);
    assert HasNull(k + 1, h * 256 + b) == Tested(x, y, hs * 256 + 128);
    assert HasNull(k, h) == Tested((h - o) % p, p - 1 - h, hs);
    hide HasNull, Span, Ones, Highs, Tested;
    SubBytes(h, b, o, p, x, y);
    if b == 0 {
      TestedZero((h - o - 1) % p, p - 1 - h, hs);
    } else {
      TestedNonzero((h - o) % p, p - 1 - h, hs, b);
    }
  }

  lemma TestedZero(q: nat, c: nat, hs: nat)
    ensures Tested(q * 256 + 255, c * 256 + 255, hs * 256 + 128) != 0
  {
    ZeroLow(q, c, hs);
    MulNat(And(And(q, c), hs), 256);
  }

  lemma TestedNonzero(q: nat, c: nat, hs: nat, b: Byte)
    requires b > 0
    ensures Tested(q * 256 + (b - 1), c * 256 + (255 - b), hs * 256 + 128) == Tested(q, c, hs) * 256
  {
    NonzeroLow(q, c, hs, b);
  }

  lemma AndMask255()
    ensures And(255, 255) == 255 && And(255, 128) == 128
  {
    assert Pow2(8) == 256;
    AndMask(0, 255, 8);
    HighBit(255);
  }

  /** The bit trick is exact: it fires exactly when some byte of the word is zero. */
  lemma {:induction false} HasNullIff(bs: seq<Byte>)
    ensures Load(bs) < Span(|bs|)
    ensures HasNull(|bs|, Load(bs)) != 0 <==> 0 in bs
  {
    LoadBound(bs);
    if bs != [] {
      var h := Load(bs[1..]);
      LoadBound(bs[1..]);
      HasNullIff(bs[1..]);
      HasNullStep(|bs| - 1, h, bs[0]);
      assert bs == [bs[0]] + bs[1..];
    }
  }

  /** The two constants as the macros compute them. */
  lemma {:induction false} MagicWords(k: nat)
    ensures Span(k) - 1 == 255 * Ones(k) && Highs(k) == 128 * Ones(k)
  {
    if k > 0 { MagicWords(k - 1); }
  }

  /** Equal words have equal bytes. */
  lemma {:induction false} LoadInjective(bs: seq<Byte>, cs: seq<Byte>)
    requires |bs| == |cs|
    ensures Load(bs) == Load(cs) <==> bs == cs
  {
    if bs != [] {
      LoadInjective(bs[1..], cs[1..]);
      assert bs == [bs[0]] + bs[1..] && cs == [cs[0]] + cs[1..];
    }
  }
}
