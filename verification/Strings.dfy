/** String and memory routines that work on words where they can (lib/builtin.c, lib/armeabi.c), against the byte-wise
    reading of them.  Addresses are positions in `m`; `w` is the size of a word. */
module Strings {
  import opened Words
  import opened WordScan

  // Reading.

  /** The string at s ends at z. */
  ghost predicate EndsAt(m: seq<Byte>, s: nat, z: nat)
  {
    s <= z < |m| && m[z] == 0 && forall i :: s <= i < z ==> m[i] != 0
  }

  /** The word test, by positions: no zero before q, and q itself in the word or not. */
  lemma NullInWord(m: seq<Byte>, p: nat, w: nat, q: nat)
    requires p + w <= |m| && p <= q < |m| && m[q] == 0 && forall i :: p <= i < q && i < p + w ==> m[i] != 0
    ensures Load(m[p..p + w]) < Span(w)
    ensures HasNull(w, Load(m[p..p + w])) != 0 <==> q < p + w
  {
    hide HasNull, Load;
    var bs := m[p..p + w];
    HasNullIff(bs);
    if q < p + w {
      assert bs[q - p] == 0;
    } else {
      assert forall i :: 0 <= i < w ==> bs[i] == m[p + i];
    }
  }

  ghost function Max(a: nat, b: nat): nat { if a < b then b else a }

  // The string routines look at memory through these two; `top` is one past the highest address read so far.

  method ReadByte(m: seq<Byte>, p: nat, ghost top: nat) returns (b: Byte, ghost top': nat)
    requires p < |m|
    ensures b == m[p] && top' == Max(top, p + 1)
  {
    b, top' := m[p], Max(top, p + 1);
  }

  method ReadWord(m: seq<Byte>, p: nat, w: nat, ghost top: nat) returns (x: nat, ghost top': nat)
    requires p + w <= |m|
    ensures x == Load(m[p..p + w]) && x < Span(w) && top' == Max(top, p + w)
  {
    LoadBound(m[p..p + w]);
    x, top' := Load(m[p..p + w]), Max(top, p + w);
  }

  function AlignUp(s: nat): nat { (s + 3) / 4 * 4 }

  /** Where the reads stop for a string from s whose last byte of interest is z: single bytes up to an address that is
      a multiple of 4, then words of w bytes up to the one that holds z. */
  ghost function ReadEnd(s: nat, z: nat, w: nat): int
    requires w > 0
  {
    if z < AlignUp(s) then z + 1 else z - (z - AlignUp(s)) % w + w
  }

  ghost predicate OnGrid(s: nat, w: nat, p: nat)
    requires w > 0
  {
    AlignUp(s) <= p && (p - AlignUp(s)) % w == 0
  }

  lemma GridRead(s: nat, z: nat, w: nat, p: nat)
    requires w > 0 && OnGrid(s, w, p) && p <= z
    ensures p + w <= ReadEnd(s, z, w) && OnGrid(s, w, p + w)
  {
    hide AlignUp;
    var x, y := p - AlignUp(s), z - p;
    DivMod(x, w);
    DivMod(y, w);
    DivNat(y, w);
    Distrib(x / w, y / w, w);
    Distrib(x / w, 1, w);
    MulNat(y / w, w);
    DivUnique(x + y, w, x / w + y / w, y % w);
    DivUnique(x + w, w, x / w + 1, 0);
  }

  /** The word that holds z is the last one. */
  lemma GridLast(s: nat, z: nat, w: nat, p: nat)
    requires w > 0 && OnGrid(s, w, p) && p <= z < p + w
    ensures ReadEnd(s, z, w) == p + w
  {
    hide AlignUp;
    var x := p - AlignUp(s);
    DivMod(x, w);
    DivUnique(z - AlignUp(s), w, x / w, z - p);
  }

  lemma AlignUpAbove(s: nat)
    ensures s <= AlignUp(s)
  {}

  lemma GridStart(s: nat, w: nat, p: nat)
    requires w > 0 && s <= p <= AlignUp(s)
    ensures p % 4 == 0 <==> p == AlignUp(s)
    ensures p % 4 == 0 ==> OnGrid(s, w, p)
  {}

  /** The reads stay within the aligned word that holds z exactly when the first word read is itself aligned, or the
      last one starts in the word before. */
  lemma ReadsWithinWord(s: nat, z: nat, w: nat)
    requires w > 0
    ensures ReadEnd(s, z, w) <= z / w * w + w <==>
      z < AlignUp(s) || AlignUp(s) % w == 0 || z % w < AlignUp(s) % w
  {
    hide AlignUp;
    var x := AlignUp(s);
    DivMod(z, w);
    DivMod(x, w);
    if x <= z {
      var q, r := z / w - x / w, z % w - x % w;
      Distrib(z / w, -(x / w), w);
      Distrib(q, -1, w);
      if r >= 0 { DivUnique(z - x, w, q, r); } else { DivUnique(z - x, w, q - 1, r + w); }
    }
  }

  /** Word sizes that divide 4: no read leaves the aligned word that holds z, so memory of whole words is enough. */
  lemma WordsFit(s: nat, z: nat, w: nat, size: nat)
    requires w == 1 || w == 2 || w == 4
    requires z < size && size % w == 0
    ensures ReadEnd(s, z, w) <= z / w * w + w <= size
  {
    assert AlignUp(s) % w == 0 by { Quarters(AlignUp(s) / 4, w); }
    ReadsWithinWord(s, z, w);
    hide AlignUp, ReadEnd;
    if w == 1 { } else if w == 2 { } else { }
  }

  lemma Quarters(q: nat, w: nat)
    requires w == 1 || w == 2 || w == 4
    ensures q * 4 % w == 0
  {
    if w == 1 { } else if w == 2 { } else { }
  }

  /** __tcc_strlen, and the end of its reads. */
  method StrLen(m: seq<Byte>, s: nat, w: nat, ghost z: nat) returns (n: nat, ghost top: nat)
    requires w > 0 && EndsAt(m, s, z) && ReadEnd(s, z, w) <= |m|
    ensures n == z - s && top == ReadEnd(s, z, w)
  {
    hide OnGrid;
    var p := s;
    top := s;
    AlignUpAbove(s);
    while p % 4 != 0
      invariant s <= p <= z && p <= AlignUp(s) && top == p
      decreases z - p
    {
      GridStart(s, w, p);
      var c;
      c, top := ReadByte(m, p, top);
      if c == 0 { return p - s, top; }
      p := p + 1;
    }
    GridStart(s, w, p);
    p, top := ScanWords(m, s, w, p, z, top);
    p, top := ScanBytes(m, p, z, top);
    n := p - s;
  }

  /** Words up to one that holds a zero byte. */
  method ScanWords(m: seq<Byte>, s: nat, w: nat, p0: nat, ghost z: nat, ghost top0: nat) returns (p: nat, ghost top: nat)
    requires w > 0 && EndsAt(m, s, z) && ReadEnd(s, z, w) <= |m| && s <= p0 <= z && OnGrid(s, w, p0) && top0 <= p0
    ensures p0 <= p <= z < top == ReadEnd(s, z, w)
  {
    hide HasNull, Load, OnGrid, ReadEnd;
    p, top := p0, top0;
    while true
      invariant p0 <= p <= z && OnGrid(s, w, p) && top <= p
      decreases z - p
    {
      GridRead(s, z, w, p);
      NullInWord(m, p, w, z);
      var x;
      x, top := ReadWord(m, p, w, top);
      if HasNull(w, x) != 0 { break; }
      p := p + w;
    }
    GridLast(s, z, w, p);
  }

  method ScanBytes(m: seq<Byte>, p0: nat, ghost z: nat, ghost top0: nat) returns (p: nat, ghost top: nat)
    requires EndsAt(m, p0, z) && p0 <= top0
    ensures p == z && top == Max(top0, z + 1)
  {
    p, top := p0, top0;
    while true
      invariant p0 <= p <= z && top == Max(top0, p)
      decreases z - p
    {
      var c;
      c, top := ReadByte(m, p, top);
      if c == 0 { break; }
      p := p + 1;
    }
  }

  /** Words of 8 bytes: the alignment is still to 4.  The first 8 bytes hold the whole string, and 12 are read. */
  method EightOverruns(m: seq<Byte>) returns (n: nat, ghost top: nat)
    requires |m| >= 12 && m[4] == 0
    ensures EndsAt(m[..8], 4, 4) && n == 0 && top == 12
  {
    assert AlignUp(4) == 4 && ReadEnd(4, 4, 8) == 12;
    n, top := StrLen(m, 4, 8, 4);
  }

  /** The strings at s and t first differ, or end, k bytes on. */
  ghost predicate PartAt(m: seq<Byte>, s: nat, t: nat, k: nat)
  {
    && s + k < |m| && t + k < |m| && (m[s + k] != m[t + k] || m[s + k] == 0)
    && m[s..s + k] == m[t..t + k] && 0 !in m[s..s + k]
  }

  /** Before that point the bytes are equal and not zero. */
  lemma NotYet(m: seq<Byte>, s: nat, t: nat, k: nat, i: nat)
    requires PartAt(m, s, t, k) && i <= k
    ensures s + k < |m| && t + k < |m|
    ensures i < k <==> m[s + i] == m[t + i] && m[s + i] != 0
  {
    if i < k {
      assert m[s..s + k][i] == m[s + i] && m[t..t + k][i] == m[t + i];
      assert m[s + i] in m[s..s + k];
    }
  }

  /** Equal words without a zero byte: the strings part further on. */
  lemma SameWord(m: seq<Byte>, s: nat, t: nat, k: nat, i: nat, w: nat)
    requires PartAt(m, s, t, k) && i <= k && s + i + w <= |m| && t + i + w <= |m|
    ensures Load(m[s + i..s + i + w]) < Span(w)
    ensures Load(m[s + i..s + i + w]) == Load(m[t + i..t + i + w]) && HasNull(w, Load(m[s + i..s + i + w])) == 0 <==>
      i + w <= k
  {
    hide HasNull, Load;
    var a, b := m[s + i..s + i + w], m[t + i..t + i + w];
    HasNullIff(a);
    LoadInjective(a, b);
    if k < i + w {
      assert a[k - i] == m[s + k] && b[k - i] == m[t + k];
    } else {
      forall j | 0 <= j < w
        ensures a[j] == b[j] && a[j] != 0
      {
        NotYet(m, s, t, k, i + j);
      }
    }
  }

  /** Where the reads from s stop: words are read only when both strings have the same alignment, and not for the first
      byte. */
  ghost function CmpEnd(s: nat, t: nat, w: nat, k: nat): int
    requires w > 0
  {
    if s % 4 == t % 4 then ReadEnd(s + 1, s + k, w) else s + k + 1
  }

  ghost predicate CmpFits(s: nat, t: nat, w: nat, k: nat, size: nat)
    requires w > 0
  {
    CmpEnd(s, t, w, k) <= size && CmpEnd(t, s, w, k) <= size
  }

  lemma CmpWordsFit(s: nat, t: nat, w: nat, k: nat, size: nat)
    requires w == 1 || w == 2 || w == 4
    requires s + k < size && t + k < size && size % w == 0
    ensures CmpFits(s, t, w, k, size)
  {
    WordsFit(s + 1, s + k, w, size);
    WordsFit(t + 1, t + k, w, size);
  }

  lemma SameStart(s: nat, t: nat)
    requires (s + 1) % 4 == (t + 1) % 4
    ensures s % 4 == t % 4 && AlignUp(s + 1) - s == AlignUp(t + 1) - t && s < AlignUp(s + 1)
  {}

  /** Single bytes only. */
  lemma CmpEndEarly(s: nat, t: nat, w: nat, k: nat)
    requires w > 0 && (s % 4 == t % 4 ==> s + k < AlignUp(s + 1))
    ensures CmpEnd(s, t, w, k) == s + k + 1
  {}

  /** __tcc_strcmp, and the ends of its reads from s and t. */
  method StrCmp(m: seq<Byte>, s: nat, t: nat, w: nat, ghost k: nat) returns (r: int, ghost ts: nat, ghost tt: nat)
    requires w > 0 && PartAt(m, s, t, k) && CmpFits(s, t, w, k, |m|)
    ensures r == m[s + k] as int - m[t + k] as int
    ensures ts == CmpEnd(s, t, w, k) && tt == CmpEnd(t, s, w, k)
  {
    hide AlignUp, OnGrid, CmpFits, CmpEnd, PartAt;
    var a, b;
    NotYet(m, s, t, k, 0);
    FirstByte(s, t, w, k);
    a, ts := ReadByte(m, s, s);
    b, tt := ReadByte(m, t, t);
    if a != b || a == 0 { return a as int - b as int, ts, tt; }
    var i := 1;
    if (s + i) % 4 == (t + i) % 4 {
      SameStart(s, t);
      var done;
      i, r, done, ts, tt := CmpHead(m, s, t, w, k, ts, tt);
      if done { return; }
      i, ts, tt := CmpWords(m, s, t, w, i, k, ts, tt);
    } else {
      CmpEndUnaligned(s, t, w, k);
    }
    r, ts, tt := CmpTail(m, s, t, i, k, ts, tt);
  }

  lemma FirstByte(s: nat, t: nat, w: nat, k: nat)
    requires w > 0
    ensures k == 0 ==> CmpEnd(s, t, w, k) == s + 1 && CmpEnd(t, s, w, k) == t + 1
  {}

  lemma CmpEndUnaligned(s: nat, t: nat, w: nat, k: nat)
    requires w > 0 && (s + 1) % 4 != (t + 1) % 4
    ensures CmpEnd(s, t, w, k) == s + k + 1 && CmpEnd(t, s, w, k) == t + k + 1
  {}

  /** Bytes up to the alignment, or to where the strings part. */
  method CmpHead(m: seq<Byte>, s: nat, t: nat, w: nat, ghost k: nat, ghost ts0: nat, ghost tt0: nat)
    returns (i: nat, r: int, done: bool, ghost ts: nat, ghost tt: nat)
    requires w > 0 && PartAt(m, s, t, k) && k >= 1 && ts0 == s + 1 && tt0 == t + 1
    requires s % 4 == t % 4 && AlignUp(s + 1) - s == AlignUp(t + 1) - t && s < AlignUp(s + 1)
    ensures done ==> r == m[s + k] as int - m[t + k] as int && ts == CmpEnd(s, t, w, k) && tt == CmpEnd(t, s, w, k)
    ensures !done ==> 1 <= i <= k && OnGrid(s + 1, w, s + i) && OnGrid(t + 1, w, t + i) && ts == s + i && tt == t + i
  {
    hide AlignUp, OnGrid, CmpEnd, PartAt;
    i, r, done, ts, tt := 1, 0, false, ts0, tt0;
    while (s + i) % 4 != 0
      invariant 1 <= i <= k && s + i <= AlignUp(s + 1) && ts == s + i && tt == t + i
      decreases k - i
    {
      NotYet(m, s, t, k, i);
      GridStart(s + 1, w, s + i);
      var a, b;
      a, ts := ReadByte(m, s + i, ts);
      b, tt := ReadByte(m, t + i, tt);
      if a != b || a == 0 {
        CmpEndEarly(s, t, w, k);
        CmpEndEarly(t, s, w, k);
        return i, a as int - b as int, true, ts, tt;
      }
      i := i + 1;
    }
    GridStart(s + 1, w, s + i);
    GridStart(t + 1, w, t + i);
  }

  /** Bytes to where the strings part. */
  method CmpTail(m: seq<Byte>, s: nat, t: nat, i0: nat, ghost k: nat, ghost ts0: nat, ghost tt0: nat)
    returns (r: int, ghost ts: nat, ghost tt: nat)
    requires PartAt(m, s, t, k) && i0 <= k && s + i0 <= ts0 && t + i0 <= tt0
    ensures r == m[s + k] as int - m[t + k] as int
    ensures ts == Max(ts0, s + k + 1) && tt == Max(tt0, t + k + 1)
  {
    hide PartAt;
    var i := i0;
    ts, tt := ts0, tt0;
    while true
      invariant i0 <= i <= k && ts == Max(ts0, s + i) && tt == Max(tt0, t + i)
      decreases k - i
    {
      NotYet(m, s, t, k, i);
      var a, b;
      a, ts := ReadByte(m, s + i, ts);
      b, tt := ReadByte(m, t + i, tt);
      if a == 0 || a != b { return a as int - b as int, ts, tt; }
      i := i + 1;
    }
  }

  /** The words at i can be read. */
  lemma PairRead(s: nat, t: nat, w: nat, i: nat, k: nat, size: nat)
    requires w > 0 && s % 4 == t % 4 && CmpFits(s, t, w, k, size)
    requires i <= k && OnGrid(s + 1, w, s + i) && OnGrid(t + 1, w, t + i)
    ensures s + i + w <= size && t + i + w <= size && OnGrid(s + 1, w, s + (i + w)) && OnGrid(t + 1, w, t + (i + w))
  {
    hide OnGrid, ReadEnd;
    GridRead(s + 1, s + k, w, s + i);
    GridRead(t + 1, t + k, w, t + i);
    assert s + i + w == s + (i + w) && t + i + w == t + (i + w);
  }

  lemma PairLast(s: nat, t: nat, w: nat, i: nat, k: nat)
    requires w > 0 && s % 4 == t % 4 && i <= k < i + w && OnGrid(s + 1, w, s + i) && OnGrid(t + 1, w, t + i)
    ensures CmpEnd(s, t, w, k) == s + i + w && CmpEnd(t, s, w, k) == t + i + w
  {
    hide OnGrid, ReadEnd;
    GridLast(s + 1, s + k, w, s + i);
    GridLast(t + 1, t + k, w, t + i);
  }

  /** Two words a round, up to one that differs or holds a zero byte. */
  method CmpWords(m: seq<Byte>, s: nat, t: nat, w: nat, i0: nat, ghost k: nat, ghost ts0: nat, ghost tt0: nat)
    returns (i: nat, ghost ts: nat, ghost tt: nat)
    requires w > 0 && PartAt(m, s, t, k) && s % 4 == t % 4 && CmpFits(s, t, w, k, |m|) && i0 <= k
    requires OnGrid(s + 1, w, s + i0) && OnGrid(t + 1, w, t + i0) && ts0 <= s + i0 && tt0 <= t + i0
    ensures i0 <= i <= k && s + k < ts == CmpEnd(s, t, w, k) && t + k < tt == CmpEnd(t, s, w, k)
  {
    hide PartAt, HasNull, Load, CmpFits, OnGrid, CmpEnd;
    i, ts, tt := i0, ts0, tt0;
    var a, b;
    while true
      invariant i0 <= i <= k && OnGrid(s + 1, w, s + i) && OnGrid(t + 1, w, t + i) && ts <= s + i && tt <= t + i
      decreases k - i
    {
      PairRead(s, t, w, i, k, |m|);
      SameWord(m, s, t, k, i, w);
      a, ts := ReadWord(m, s + i, w, ts);
      b, tt := ReadWord(m, t + i, w, tt);
      if a != b || HasNull(w, a) != 0 { break; }
      i := i + w;
      PairRead(s, t, w, i, k, |m|);
      SameWord(m, s, t, k, i, w);
      a, ts := ReadWord(m, s + i, w, ts);
      b, tt := ReadWord(m, t + i, w, tt);
      if a != b || HasNull(w, a) != 0 { break; }
      i := i + w;
    }
    PairLast(s, t, w, i, k);
  }

  /** Blocks of n bytes first differ k bytes on. */
  ghost predicate DifferAt(m: seq<Byte>, s: nat, t: nat, n: nat, k: nat)
  {
    k < n && s + n <= |m| && t + n <= |m| && m[s..s + k] == m[t..t + k] && m[s + k] != m[t + k]
  }

  lemma DifferOnce(m: seq<Byte>, s: nat, t: nat, n: nat, k: nat, i: nat)
    requires DifferAt(m, s, t, n, k) && i <= n && m[s..s + i] == m[t..t + i]
    ensures i <= k && m[s..s + n] != m[t..t + n]
  {
    assert m[s..s + n][k] == m[s + k] && m[t..t + n][k] == m[t + k];
  }

  lemma Extend(m: seq<Byte>, s: nat, t: nat, i: nat, w: nat)
    requires s + i + w <= |m| && t + i + w <= |m| && m[s..s + i] == m[t..t + i] && m[s + i..s + i + w] == m[t + i..t + i + w]
    ensures m[s..s + i + w] == m[t..t + i + w]
  {
    assert m[s..s + i + w] == m[s..s + i] + m[s + i..s + i + w];
    assert m[t..t + i + w] == m[t..t + i] + m[t + i..t + i + w];
  }

  /** Words while they are equal. */
  method SkipWords(m: seq<Byte>, s: nat, t: nat, n: nat) returns (i: nat)
    requires s + n <= |m| && t + n <= |m|
    ensures i <= n && m[s..s + i] == m[t..t + i]
  {
    hide Load;
    i := 0;
    while n - i >= 4 && Load(m[s + i..s + i + 4]) == Load(m[t + i..t + i + 4])
      invariant 0 <= i <= n && m[s..s + i] == m[t..t + i]
    {
      LoadInjective(m[s + i..s + i + 4], m[t + i..t + i + 4]);
      Extend(m, s, t, i, 4);
      i := i + 4;
    }
  }

  /** The answer, once the first difference is known (k == n when there is none). */
  lemma FirstDifference(m: seq<Byte>, s: nat, t: nat, n: nat, k: nat)
    requires s + n <= |m| && t + n <= |m| && k <= n && m[s..s + k] == m[t..t + k] && (k < n ==> m[s + k] != m[t + k])
    ensures m[s..s + n] == m[t..t + n] <==> k == n
    ensures forall i: nat | DifferAt(m, s, t, n, i) :: i == k
  {
    if k < n {
      assert DifferAt(m, s, t, n, k);
      DifferOnce(m, s, t, n, k, k);
    }
    forall i: nat | DifferAt(m, s, t, n, i)
      ensures i == k
    {
      DifferOnce(m, s, t, n, i, k);
      if k < n { DifferOnce(m, s, t, n, k, i); }
    }
  }

  /** __tcc_memcmp: the difference at the first byte where the blocks differ, else 0. */
  method MemCmp(m: seq<Byte>, s: nat, t: nat, n: nat) returns (r: int)
    requires s + n <= |m| && t + n <= |m|
    ensures m[s..s + n] == m[t..t + n] ==> r == 0
    ensures forall k: nat | DifferAt(m, s, t, n, k) :: r == m[s + k] as int - m[t + k] as int
  {
    var i := 0;
    if s % 4 == 0 && t % 4 == 0 { i := SkipWords(m, s, t, n); }
    while i < n && m[s + i] == m[t + i]
      invariant 0 <= i <= n && m[s..s + i] == m[t..t + i]
    {
      assert m[s + i..s + i + 1] == [m[s + i]] && m[t + i..t + i + 1] == [m[t + i]];
      Extend(m, s, t, i, 1);
      i := i + 1;
    }
    FirstDifference(m, s, t, n, i);
    r := if i < n then m[s + i] as int - m[t + i] as int else 0;
  }

  // Writing.

  /** Memory with n bytes of s copied to d. */
  ghost function Copied(m: seq<Byte>, d: nat, s: nat, n: nat): (r: seq<Byte>)
    requires d + n <= |m| && s + n <= |m|
    ensures |r| == |m|
  {
    m[..d] + m[s..s + n] + m[d + n..]
  }

  /** Byte by byte: the destination has the source's bytes, and nothing else changed. */
  lemma CopiedAt(m: seq<Byte>, d: nat, s: nat, n: nat, p: nat)
    requires d + n <= |m| && s + n <= |m| && p < |m|
    ensures Copied(m, d, s, n)[p] == if d <= p < d + n then m[s + (p - d)] else m[p]
  {}

  /** Memory with the bytes u at d. */
  ghost function Put(m: seq<Byte>, d: nat, u: seq<Byte>): seq<Byte>
    requires d + |u| <= |m|
  {
    m[..d] + u + m[d + |u|..]
  }

  /** A copy from the front never reads what it has written. */
  ghost predicate ForwardSafe(d: nat, s: nat, n: nat) { d <= s || s + n <= d }

  /** The next bytes of the source are still the original ones. */
  lemma Ahead(m: seq<Byte>, d: nat, s: nat, n: nat, i: nat, w: nat)
    requires d + n <= |m| && s + n <= |m| && ForwardSafe(d, s, n) && i + w <= n
    ensures Copied(m, d, s, i)[s + i..s + i + w] == m[s + i..s + i + w]
  {
    var c := Copied(m, d, s, i);
    forall j | s + i <= j < s + i + w
      ensures c[j] == m[j]
    {
      if j < d { assert c[j] == m[j]; }
    }
  }

  lemma CopiedFurther(m: seq<Byte>, d: nat, s: nat, n: nat, i: nat, w: nat)
    requires d + n <= |m| && s + n <= |m| && ForwardSafe(d, s, n) && i + w <= n
    ensures var c := Copied(m, d, s, i);
      Put(c, d + i, c[s + i..s + i + w]) == Copied(m, d, s, i + w)
  {
    var c := Copied(m, d, s, i);
    Ahead(m, d, s, n, i, w);
    assert c[..d + i] == m[..d] + m[s..s + i];
    assert c[d + i + w..] == m[d + i + w..];
    assert m[s..s + (i + w)] == m[s..s + i] + m[s + i..s + i + w];
  }

  /** One unit of w bytes, read whole before it is written. */
  method CopyUnit(a: array<Byte>, d: nat, s: nat, w: nat)
    requires d + w <= a.Length && s + w <= a.Length
    modifies a
    ensures a[..] == Put(old(a[..]), d, old(a[..])[s..s + w])
  {
    ghost var m := a[..];
    var unit := a[s..s + w];
    for j := 0 to w
      invariant forall p :: 0 <= p < a.Length ==> a[p] == if d <= p < d + j then unit[p - d] else m[p]
    {
      a[d + j] := unit[j];
    }
    Pieces(a[..], m, d, unit);
  }

  lemma Pieces(r: seq<Byte>, m: seq<Byte>, d: nat, u: seq<Byte>)
    requires |r| == |m| && d + |u| <= |m|
    requires forall p :: 0 <= p < |m| ==> r[p] == if d <= p < d + |u| then u[p - d] else m[p]
    ensures r == Put(m, d, u)
  {}

  method CopyStep(a: array<Byte>, d: nat, s: nat, i: nat, w: nat, ghost m: seq<Byte>, ghost n: nat)
    requires |m| == a.Length && d + n <= |m| && s + n <= |m| && ForwardSafe(d, s, n) && i + w <= n
    requires a[..] == Copied(m, d, s, i)
    modifies a
    ensures a[..] == Copied(m, d, s, i + w)
  {
    hide Copied, Put, ForwardSafe;
    CopiedFurther(m, d, s, n, i, w);
    ghost var c := a[..];
    CopyUnit(a, d + i, s + i, w);
    assert a[..] == Put(c, d + i, c[s + i..s + i + w]);
  }

  lemma NothingCopied(m: seq<Byte>, d: nat, s: nat, n: nat)
    requires d + n <= |m| && s + n <= |m|
    ensures Copied(m, d, s, 0) == m
    ensures d == s ==> Copied(m, d, s, n) == m
  {}

  predicate Aligned(p: nat, w: nat)
    requires w > 0
  {
    p % w == 0
  }

  lemma AlignedIs(p: nat, w: nat)
    requires w > 0
    ensures Aligned(p, w) <==> p % w == 0
  {}

  lemma NextAligned(p: nat, w: nat)
    requires w > 0 && p % w == 0
    ensures (p + w) % w == 0
  {
    DivMod(p, w);
    Distrib(p / w, 1, w);
    DivUnique(p + w, w, p / w + 1, 0);
  }

  /** A word is moved only between aligned addresses. */
  method AlignedStep(a: array<Byte>, d: nat, s: nat, i: nat, w: nat, ghost m: seq<Byte>, ghost n: nat)
    requires w > 0 && (d + i) % w == 0 && (s + i) % w == 0
    requires |m| == a.Length && d + n <= |m| && s + n <= |m| && ForwardSafe(d, s, n) && i + w <= n
    requires a[..] == Copied(m, d, s, i)
    modifies a
    ensures a[..] == Copied(m, d, s, i + w)
  {
    hide Copied, ForwardSafe;
    CopyStep(a, d, s, i, w, m, n);
  }

  /** aeabi_memcpy_impl: words of w bytes when both ends are aligned, then bytes. */
  method MemCpy(a: array<Byte>, d: nat, s: nat, n: nat, w: nat)
    requires w > 0 && d + n <= a.Length && s + n <= a.Length && ForwardSafe(d, s, n)
    modifies a
    ensures a[..] == Copied(old(a[..]), d, s, n)
  {
    hide Copied, Aligned;
    ghost var m := a[..];
    NothingCopied(m, d, s, n);
    if n == 0 || d == s { return; }
    var i := 0;
    if Aligned(d, w) && Aligned(s, w) {
      AlignedIs(d, w);
      AlignedIs(s, w);
      while n - i >= w
        invariant 0 <= i <= n && a[..] == Copied(m, d, s, i) && (d + i) % w == 0 && (s + i) % w == 0
      {
        NextAligned(d + i, w);
        NextAligned(s + i, w);
        AlignedStep(a, d, s, i, w, m, n);
        i := i + w;
      }
    }
    while i < n
      invariant 0 <= i <= n && a[..] == Copied(m, d, s, i)
    {
      CopyStep(a, d, s, i, 1, m, n);
      i := i + 1;
    }
  }

  /** Memory with the last n - i of n bytes copied. */
  ghost function CopiedBack(m: seq<Byte>, d: nat, s: nat, n: nat, i: nat): (r: seq<Byte>)
    requires d + n <= |m| && s + n <= |m| && i <= n
    ensures |r| == |m|
  {
    m[..d + i] + m[s + i..s + n] + m[d + n..]
  }

  /** aeabi_memmove_impl: every byte gets the source's original value, however the blocks overlap. */
  method MemMove(a: array<Byte>, d: nat, s: nat, n: nat, w: nat)
    requires w > 0 && d + n <= a.Length && s + n <= a.Length
    modifies a
    ensures a[..] == Copied(old(a[..]), d, s, n)
  {
    ghost var m := a[..];
    NothingCopied(m, d, s, n);
    if n == 0 || d == s { return; }
    if d < s || d >= s + n {
      MemCpy(a, d, s, n, w);
      return;
    }
    var i := n;
    BackEnds(m, d, s, n);
    hide Copied, CopiedBack;
    while i > 0
      invariant 0 <= i <= n && a[..] == CopiedBack(m, d, s, n, i)
    {
      i := i - 1;
      StepBack(m, d, s, n, i);
      ghost var c := a[..];
      a[d + i] := a[s + i];
      assert a[..] == c[d + i := c[s + i]];
    }
  }

  lemma BackEnds(m: seq<Byte>, d: nat, s: nat, n: nat)
    requires d + n <= |m| && s + n <= |m|
    ensures CopiedBack(m, d, s, n, n) == m && CopiedBack(m, d, s, n, 0) == Copied(m, d, s, n)
  {}

  lemma StepBack(m: seq<Byte>, d: nat, s: nat, n: nat, i: nat)
    requires d + n <= |m| && s + n <= |m| && i < n && s < d
    ensures var c := CopiedBack(m, d, s, n, i + 1); c[d + i := c[s + i]] == CopiedBack(m, d, s, n, i)
  {
    var c := CopiedBack(m, d, s, n, i + 1);
    assert c[s + i] == m[s + i];
    assert m[s + i..s + n] == [m[s + i]] + m[s + i + 1..s + n];
  }

  /** The string of n bytes, terminator included, and its copy do not meet. */
  ghost predicate Separate(m: seq<Byte>, d: nat, s: nat, n: nat)
  {
    n > 0 && d + n <= |m| && s + n <= |m| && EndsAt(m, s, s + n - 1) && (d + n <= s || s + n <= d)
  }

  lemma StillThere(m: seq<Byte>, d: nat, s: nat, n: nat, i: nat, j: nat)
    requires Separate(m, d, s, n) && i <= j < n
    ensures Copied(m, d, s, i)[s + j] == m[s + j] && (m[s + j] == 0 <==> j == n - 1)
  {}

  /** A word of the string is free of zero bytes exactly when the string goes on after it. */
  lemma WordEnds(m: seq<Byte>, d: nat, s: nat, n: nat, i: nat, j: nat, w: nat)
    requires Separate(m, d, s, n) && i <= j < n && s + j + w <= |m|
    ensures var c := Copied(m, d, s, i);
      Load(c[s + j..s + j + w]) < Span(w) && (HasNull(w, Load(c[s + j..s + j + w])) == 0 <==> j + w < n)
  {
    hide HasNull, Load, Copied;
    var c := Copied(m, d, s, i);
    forall p | s + j <= p < s + n
      ensures c[p] == 0 <==> p == s + n - 1
    {
      StillThere(m, d, s, n, i, p - s);
    }
    NullInWord(c, s + j, w, s + n - 1);
  }

  /** Two words a round, each stored once it is known to hold no terminator. */
  method CopyWords(a: array<Byte>, d: nat, s: nat, i0: nat, w: nat, ghost m: seq<Byte>, ghost n: nat, ghost top0: nat)
    returns (i: nat, ghost top: nat)
    requires w > 0 && |m| == a.Length && Separate(m, d, s, n) && ReadEnd(s, s + n - 1, w) <= |m| && i0 < n
    requires OnGrid(s, w, s + i0) && top0 <= s + i0
    requires a[..] == Copied(m, d, s, i0)
    modifies a
    ensures i0 <= i < n && a[..] == Copied(m, d, s, i) && s + n <= top == ReadEnd(s, s + n - 1, w)
  {
    hide HasNull, Load, Copied, OnGrid, ReadEnd;
    i, top := i0, top0;
    var w0, w1;
    while true
      invariant i0 <= i < n && a[..] == Copied(m, d, s, i) && OnGrid(s, w, s + i) && top <= s + i
      decreases n - i
    {
      GridRead(s, s + n - 1, w, s + i);
      WordEnds(m, d, s, n, i, i, w);
      w0, top := ReadWord(a[..], s + i, w, top);
      if HasNull(w, w0) != 0 { break; }
      GridRead(s, s + n - 1, w, s + i + w);
      WordEnds(m, d, s, n, i, i + w, w);
      w1, top := ReadWord(a[..], s + i + w, w, top);
      CopyStep(a, d, s, i, w, m, n);
      i := i + w;
      if HasNull(w, w1) != 0 { break; }
      CopyStep(a, d, s, i, w, m, n);
      i := i + w;
      assert s + i == s + (i - w) + w;
    }
    GridLast(s, s + n - 1, w, s + i);
  }

  /** One byte; the last one is the terminator. */
  method CopyByte(a: array<Byte>, d: nat, s: nat, i: nat, ghost m: seq<Byte>, ghost n: nat, ghost top0: nat)
    returns (c: Byte, ghost top: nat)
    requires |m| == a.Length && Separate(m, d, s, n) && i < n && a[..] == Copied(m, d, s, i)
    modifies a
    ensures a[..] == Copied(m, d, s, i + 1) && (c == 0 <==> i + 1 == n) && top == Max(top0, s + i + 1)
  {
    hide Copied, EndsAt;
    StillThere(m, d, s, n, i, i);
    c, top := ReadByte(a[..], s + i, top0);
    CopyStep(a, d, s, i, 1, m, n);
  }

  lemma SameOffset(d: nat, s: nat, i: nat)
    requires d % 4 == s % 4
    ensures (d + i) % 4 == (s + i) % 4
  {}

  /** Bytes up to the alignment, or the whole string. */
  method CopyHead(a: array<Byte>, d: nat, s: nat, w: nat, ghost m: seq<Byte>, ghost n: nat)
    returns (i: nat, done: bool, ghost top: nat)
    requires w > 0 && |m| == a.Length && Separate(m, d, s, n) && a[..] == Copied(m, d, s, 0) && d % 4 == s % 4
    modifies a
    ensures i <= n && a[..] == Copied(m, d, s, i)
    ensures if done then i == n && top == ReadEnd(s, s + n - 1, w) else i < n && OnGrid(s, w, s + i) && top == s + i
  {
    hide Copied, EndsAt, AlignUp, OnGrid;
    AlignUpAbove(s);
    i, top := 0, s;
    SameOffset(d, s, i);
    while (d + i) % 4 != 0
      invariant 0 <= i < n && (d + i) % 4 == (s + i) % 4 && a[..] == Copied(m, d, s, i)
      invariant s + i <= AlignUp(s) && top == s + i
      decreases n - i
    {
      GridStart(s, w, s + i);
      var c;
      c, top := CopyByte(a, d, s, i, m, n, top);
      i := i + 1;
      SameOffset(d, s, i);
      if c == 0 { return i, true, top; }
    }
    GridStart(s, w, s + i);
    done := false;
  }

  /** Bytes up to the terminator. */
  method CopyTail(a: array<Byte>, d: nat, s: nat, i0: nat, ghost m: seq<Byte>, ghost n: nat, ghost top0: nat)
    returns (ghost top: nat)
    requires |m| == a.Length && Separate(m, d, s, n) && i0 < n && a[..] == Copied(m, d, s, i0) && s + i0 <= top0
    modifies a
    ensures a[..] == Copied(m, d, s, n) && top == Max(top0, s + n)
  {
    hide Copied, EndsAt;
    var i := i0;
    top := top0;
    var c: Byte := 1;
    while c != 0
      invariant 0 <= i <= n && a[..] == Copied(m, d, s, i) && (c == 0 <==> i == n) && top == Max(top0, s + i)
      decreases n - i
    {
      c, top := CopyByte(a, d, s, i, m, n, top);
      i := i + 1;
    }
  }

  /** Where the reads of a copy stop: words are read only when both ends have the same alignment. */
  ghost function CopyEnd(d: nat, s: nat, z: nat, w: nat): int
    requires w > 0
  {
    if d % 4 == s % 4 then ReadEnd(s, z, w) else z + 1
  }

  /** __tcc_strcpy, with the string ending at z and its copy apart from it: the copy and nothing past its terminator, and
      the end of the reads. */
  method StrCpy(a: array<Byte>, d: nat, s: nat, w: nat, ghost z: nat) returns (ghost top: nat)
    requires w > 0 && EndsAt(a[..], s, z) && d + (z - s) < a.Length && CopyEnd(d, s, z, w) <= a.Length
    requires d + (z - s) < s || z < d
    modifies a
    ensures a[..] == Copied(old(a[..]), d, s, z - s + 1) && top == CopyEnd(d, s, z, w)
  {
    hide Copied, AlignUp, OnGrid, ReadEnd;
    ghost var m, n := a[..], z - s + 1;
    var i := 0;
    top := s;
    NothingCopied(m, d, s, n);
    assert Separate(m, d, s, n);
    if d % 4 == s % 4 {
      var done;
      i, done, top := CopyHead(a, d, s, w, m, n);
      if done { return; }
      i, top := CopyWords(a, d, s, i, w, m, n, top);
    }
    top := CopyTail(a, d, s, i, m, n, top);
  }
}
