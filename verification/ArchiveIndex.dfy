/** The linker's side of an archive's symbol index (source/obj/tccelf_load.c): what the writer put there is found. */
module ArchiveIndex {
  import opened Words
  import opened Archive
  import HashIndex

  // Strings that end in NUL, one after another.

  ghost predicate HasStrings(b: seq<Byte>, n: nat)
    decreases n
  {
    n == 0 || (|UpToNul(b)| < |b| && HasStrings(b[|UpToNul(b)| + 1..], n - 1))
  }

  ghost function StringsIn(b: seq<Byte>, n: nat): (ss: seq<seq<Byte>>)
    requires HasStrings(b, n)
    ensures |ss| == n
    decreases n
  {
    if n == 0 then [] else [UpToNul(b)] + StringsIn(b[|UpToNul(b)| + 1..], n - 1)
  }

  ghost predicate NulFree(ss: seq<seq<Byte>>) { forall i :: 0 <= i < |ss| ==> 0 !in ss[i] }

  lemma {:induction false} UpToNulIs(s: seq<Byte>, t: seq<Byte>)
    requires 0 !in s
    ensures UpToNul(s + [0] + t) == s
  {
    if s == [] {
      assert (s + [0] + t)[0] == 0;
    } else {
      UpToNulIs(s[1..], t);
      assert (s + [0] + t)[0] == s[0] && (s + [0] + t)[1..] == s[1..] + [0] + t;
      assert s[0] in s;
    }
  }

  lemma {:induction false} NamesFront(ss: seq<seq<Byte>>)
    requires ss != []
    ensures Names(ss) == ss[0] + [0] + Names(ss[1..])
  {
    var k := |ss| - 1;
    if k == 0 {
      assert ss[..0] == [] && ss[1..] == [];
    } else {
      NamesFront(ss[..k]);
      assert ss[..k][1..] == ss[1..][..k - 1] && ss[1..][k - 1] == ss[k];
      var a, b, c := ss[0] + [0], Names(ss[1..][..k - 1]), ss[k];
      assert a + b + c + [0] == a + (b + c + [0]);
    }
  }

  /** The names come back from their table, whatever follows it. */
  lemma {:induction false} NamesRead(ss: seq<seq<Byte>>, t: seq<Byte>)
    requires NulFree(ss)
    ensures HasStrings(Names(ss) + t, |ss|) && StringsIn(Names(ss) + t, |ss|) == ss
  {
    if ss != [] {
      var s, rest := ss[0], ss[1..];
      NamesFront(ss);
      var b := Names(ss) + t;
      assert b == s + [0] + (Names(rest) + t);
      UpToNulIs(s, Names(rest) + t);
      assert b[|s| + 1..] == Names(rest) + t;
      NamesRead(rest, t);
    }
  }

  // The index of an archive.

  /** n entries of four bytes after the count, then n strings. */
  ghost predicate IsIndexOf(data: seq<Byte>, names: seq<seq<Byte>>, offsets: seq<nat>)
  {
    var n := |names|;
    && |offsets| == n && 4 + 4 * n <= |data| && FromBe32(data[..4]) == n
    && (forall i :: 0 <= i < n ==> FromBe32(data[4 + 4 * i..4 + 4 * i + 4]) == offsets[i])
    && HasStrings(data[4 + 4 * n..], n) && StringsIn(data[4 + 4 * n..], n) == names
  }

  /** What stands in the file from byte 68 on is the index of the members' symbols and of their offsets. */
  lemma IndexReadsBack(ms: seq<Member>)
    requires Representable(ms) && Symbols(ms) != [] && NulFree(Symbols(ms))
    ensures 68 + IndexSize(ms) <= |Archived(ms)|
    ensures IsIndexOf(Archived(ms)[68..68 + IndexSize(ms)], Symbols(ms), Offsets(ms))
  {
    hide Archived, IndexSize, Offsets, Symbols, Representable, IsIndexOf;
    PayloadAt(ms);
    PayloadIs(ms);
  }

  lemma PayloadAt(ms: seq<Member>)
    requires Representable(ms) && Symbols(ms) != []
    ensures 68 + IndexSize(ms) <= |Archived(ms)| && Archived(ms)[68..68 + IndexSize(ms)] == IndexPayload(ms)
  {
    hide Body, Symbols, Header, IndexSize, IndexPayload, Positions, Start;
    Sizes(ms);
    var g, h, p, b := ARMAG, Header(INDEX_NAME, [ZERO], IndexSize(ms)), IndexPayload(ms), Body(ms);
    assert g + (h + p) + b == (g + h) + (p + b);
    assert ((g + h) + (p + b))[68..68 + |p|] == p;
  }

  lemma PayloadIs(ms: seq<Member>)
    requires Representable(ms) && NulFree(Symbols(ms))
    ensures IsIndexOf(IndexPayload(ms), Symbols(ms), Offsets(ms))
  {
    hide Body, Symbols, Names, Offsets, IndexSize, BeWords, Be32, FromBe32, Representable, HasStrings, StringsIn;
    Sizes(ms);
    var ss, qs := Symbols(ms), Offsets(ms);
    var c, ws, t := Be32(|ss|), BeWords(qs), Names(ss) + Pad(|Names(ss)|);
    var p := c + ws + t;
    assert p[..4] == c && p[4 + 4 * |ss|..] == t;
    Be32Inverse(|ss|);
    NamesRead(ss, Pad(|Names(ss)|));
    forall i | 0 <= i < |ss|
      ensures FromBe32(p[4 + 4 * i..4 + 4 * i + 4]) == qs[i]
    {
      WordAt(qs, i);
      Be32Inverse(qs[i]);
      assert p[4 + 4 * i..4 + 4 * i + 4] == ws[4 * i..4 * i + 4];
    }
  }

  // Loading and looking up.

  /** get_be */
  method GetBe(b: seq<Byte>) returns (r: nat)
    requires |b| == 4
    ensures r == FromBe32(b)
  {
    r := 0;
    var n := 4;
    ghost var x: nat, y: nat, z: nat := b[0], b[1], b[2];
    ghost var rs := [0, x, x * 256 + y, (x * 256 + y) * 256 + z, FromBe32(b)];
    while n > 0
      invariant 0 <= n <= 4 && r == rs[4 - n]
    {
      r := r * 256 + b[4 - n];
      n := n - 1;
    }
  }

  /** strlen on a string that ends */
  method Length(b: seq<Byte>, p: nat) returns (n: nat)
    requires p <= |b| && |UpToNul(b[p..])| < |b[p..]|
    ensures n == |UpToNul(b[p..])| && b[p..p + n] == UpToNul(b[p..]) && p + n < |b|
  {
    n := 0;
    UpToNulPrefix(b[p..]);
    ghost var u := UpToNul(b[p..]);
    while b[p + n] != 0
      invariant n <= |u|
      decreases |u| - n
    {
      assert b[p..][|u|] == b[p + |u|];
      n := n + 1;
    }
    LengthIs(b[p..], n);
    assert b[p..p + n] == b[p..][..n];
  }

  lemma LengthIs(b: seq<Byte>, n: nat)
    requires n <= |UpToNul(b)| && n < |b| && b[n] == 0
    ensures n == |UpToNul(b)|
  {
    UpToNulPrefix(b);
  }

  lemma {:induction false} UpToNulPrefix(b: seq<Byte>)
    ensures UpToNul(b) <= b && 0 !in UpToNul(b) && (|UpToNul(b)| < |b| ==> b[|UpToNul(b)|] == 0)
  {
    if b != [] && b[0] != 0 {
      UpToNulPrefix(b[1..]);
      assert b == [b[0]] + b[1..];
    }
  }

  /** The strings of an index and the chains over them; a bucket is the hash modulo a power of two. */
  method LoadIndex(data: seq<Byte>, hash: seq<Byte> -> nat, ghost names: seq<seq<Byte>>, ghost offsets: seq<nat>)
    returns (ns: seq<seq<Byte>>, head: array<nat>, next: array<nat>, ghost bs: seq<nat>)
    requires IsIndexOf(data, names, offsets)
    ensures ns == names && fresh(head) && fresh(next) && head.Length > 0 && next.Length == |ns| == |bs|
    ensures (exists k: nat :: head.Length == Pow2(k)) && forall i :: 0 <= i < |ns| ==> bs[i] == hash(ns[i]) % head.Length
    ensures HashIndex.Indexes(head[..], next[..], bs, |ns|)
  {
    hide HasStrings, StringsIn, FromBe32;
    var nsyms := GetBe(data[..4]);
    var size := 1;
    ghost var k := 0;
    while size < nsyms * 2
      invariant size == Pow2(k)
    {
      size, k := size * 2, k + 1;
    }
    bs := seq(|names|, i requires 0 <= i < |names| => hash(names[i]) % size);
    ns, head, next := ReadNames(data, 4 + 4 * nsyms, nsyms, size, hash, names, bs, k);
  }

  lemma NextString(b: seq<Byte>, n: nat)
    requires HasStrings(b, n) && n > 0
    ensures |UpToNul(b)| < |b| && HasStrings(b[|UpToNul(b)| + 1..], n - 1)
    ensures StringsIn(b, n) == [UpToNul(b)] + StringsIn(b[|UpToNul(b)| + 1..], n - 1)
  {}

  method ReadNames(data: seq<Byte>, start: nat, nsyms: nat, size: nat, hash: seq<Byte> -> nat,
                   ghost names: seq<seq<Byte>>, ghost bs: seq<nat>, ghost k: nat)
    returns (ns: seq<seq<Byte>>, head: array<nat>, next: array<nat>)
    requires start <= |data| && HasStrings(data[start..], nsyms) && names == StringsIn(data[start..], nsyms)
    requires size == Pow2(k)
    requires |bs| == nsyms && forall i :: 0 <= i < nsyms ==> bs[i] == hash(names[i]) % size
    ensures ns == names && fresh(head) && fresh(next) && head.Length == size && next.Length == nsyms
    ensures HashIndex.Indexes(head[..], next[..], bs, nsyms)
  {
    hide Unread, Pow2, And, HashIndex.Indexes;
    ns := [];
    head, next := Empty(size, nsyms, bs);
    var p: nat := start;
    assert Unread(data, p, nsyms, names, ns) by { AllUnread(data, p, nsyms); }
    for i := 0 to nsyms
      invariant head.Length == size && next.Length == nsyms && fresh(head) && fresh(next) && |ns| == i
      invariant Unread(data, p, nsyms - i, names, ns)
      invariant HashIndex.Indexes(head[..], next[..], bs, i)
    {
      var s;
      s, p := ReadName(data, p, nsyms - i, names, ns);
      ns := ns + [s];
      Masked(hash(s), size, k);
      Chain(head, next, bs, i, And(hash(s), size - 1));
    }
    NothingUnread(data, p, names, ns);
  }

  /** The n strings from p on are the names not yet in ns. */
  ghost predicate Unread(data: seq<Byte>, p: nat, n: nat, names: seq<seq<Byte>>, ns: seq<seq<Byte>>)
  {
    p <= |data| && HasStrings(data[p..], n) && names == ns + StringsIn(data[p..], n)
  }

  lemma AllUnread(data: seq<Byte>, p: nat, n: nat)
    requires p <= |data| && HasStrings(data[p..], n)
    ensures Unread(data, p, n, StringsIn(data[p..], n), [])
  {}

  lemma NothingUnread(data: seq<Byte>, p: nat, names: seq<seq<Byte>>, ns: seq<seq<Byte>>)
    requires Unread(data, p, 0, names, ns)
    ensures ns == names
  {}

  method ReadName(data: seq<Byte>, p: nat, n: nat, ghost names: seq<seq<Byte>>, ghost ns: seq<seq<Byte>>)
    returns (s: seq<Byte>, p': nat)
    requires n > 0 && Unread(data, p, n, names, ns)
    ensures Unread(data, p', n - 1, names, ns + [s]) && |ns| < |names| && names[|ns|] == s
  {
    hide HasStrings, StringsIn, UpToNul;
    NextString(data[p..], n);
    var len := Length(data, p);
    s, p' := data[p..p + len], p + len + 1;
    assert data[p..][len + 1..] == data[p'..];
    Onward(ns, s, StringsIn(data[p'..], n - 1));
  }

  method Empty(size: nat, n: nat, ghost bs: seq<nat>) returns (head: array<nat>, next: array<nat>)
    ensures fresh(head) && fresh(next) && head != next && head.Length == size && next.Length == n
    ensures HashIndex.Indexes(head[..], next[..], bs, 0)
  {
    head := new nat[size](i => 0);
    next := new nat[n](i => 0);
    assert forall b :: 0 <= b < size ==> head[..][b] == 0;
  }

  /** h & mask */
  lemma Masked(h: nat, size: nat, k: nat)
    requires size == Pow2(k)
    ensures And(h, size - 1) == h % size
  {
    hide And, Pow2;
    DivMod(h, size);
    DivNat(h, size);
    AndMask(h / size, h % size, k);
  }

  lemma Onward(a: seq<seq<Byte>>, x: seq<Byte>, b: seq<seq<Byte>>)
    ensures a + ([x] + b) == a + [x] + b
  {}

  /** Entry i goes to the head of its bucket's chain. */
  method Chain(head: array<nat>, next: array<nat>, ghost bs: seq<nat>, i: nat, bucket: nat)
    requires head != next && i < next.Length && i < |bs| && bs[i] == bucket < head.Length
    requires HashIndex.Indexes(head[..], next[..], bs, i)
    modifies head, next
    ensures HashIndex.Indexes(head[..], next[..], bs, i + 1)
  {
    HashIndex.IndexesStep(head[..], next[..], bs, i);
    ghost var h: seq<nat>, x: seq<nat> := head[..], next[..];
    next[i] := head[bucket];
    head[bucket] := i + 1;
    assert head[..] == h[bucket := i + 1] && next[..] == x[i := h[bucket]];
  }

  /** tcc_load_alacarte for one symbol: the offset of the last entry of that name. */
  method Resolve(data: seq<Byte>, name: seq<Byte>, hash: seq<Byte> -> nat,
                 ghost names: seq<seq<Byte>>, ghost offsets: seq<nat>)
    returns (found: bool, k: nat, off: nat)
    requires IsIndexOf(data, names, offsets)
    ensures found <==> name in names
    ensures found ==> k < |names| && names[k] == name && off == offsets[k]
    ensures found ==> forall j :: k < j < |names| ==> names[j] != name
  {
    var ns, head, next, bs := LoadIndex(data, hash, names, offsets);
    hide HashIndex.Walk, HashIndex.Newest, HasStrings, StringsIn, And, Pow2;
    ghost var e: nat :| head.Length == Pow2(e);
    Masked(hash(name), head.Length, e);
    var b := And(hash(name), head.Length - 1);
    found, k := HashIndex.Scan(head[b], next, ns, name, b, bs);
    off := 0;
    if found { off := GetBe(data[4 + 4 * k..4 + 4 * k + 4]); }
  }

  // From the writer to the linker.

  /** The member that entry i of the index is about. */
  lemma {:induction false} MemberOfEntry(ms: seq<Member>, i: nat) returns (k: nat, j: nat)
    requires i < |Symbols(ms)|
    ensures k < |ms| && j < |ms[k].symbols| && i == |Symbols(ms[..k])| + j && ms[k].symbols[j] == Symbols(ms)[i]
  {
    var l := |ms| - 1;
    var t := ms[..l];
    if i < |Symbols(t)| {
      k, j := MemberOfEntry(t, i);
      assert t[..k] == ms[..k];
    } else {
      k, j := l, i - |Symbols(t)|;
    }
  }

  lemma {:induction false} EntryOfMember(ms: seq<Member>, k: nat, name: seq<Byte>) returns (i: nat)
    requires k < |ms| && name in ms[k].symbols
    ensures |Symbols(ms[..k])| <= i < |Symbols(ms)| && Symbols(ms)[i] == name
  {
    var l := |ms| - 1;
    if k < l {
      assert ms[..l][..k] == ms[..k];
      i := EntryOfMember(ms[..l], k, name);
    } else {
      var j :| 0 <= j < |ms[k].symbols| && ms[k].symbols[j] == name;
      i := |Symbols(ms[..k])| + j;
    }
  }

  lemma {:induction false} SymbolsGrow(ms: seq<Member>, k: nat, l: nat)
    requires k <= l <= |ms|
    ensures |Symbols(ms[..k])| <= |Symbols(ms[..l])|
    ensures k < l ==> |Symbols(ms[..k])| + |ms[k].symbols| <= |Symbols(ms[..l])|
    decreases l
  {
    if k < l {
      assert ms[..l][..l - 1] == ms[..l - 1];
      SymbolsGrow(ms, k, l - 1);
    }
  }

  /** Member k is the last that defines the name. */
  ghost predicate LastDefines(ms: seq<Member>, k: nat, name: seq<Byte>)
  {
    k < |ms| && name in ms[k].symbols && forall l :: k < l < |ms| ==> name !in ms[l].symbols
  }

  lemma LastEntry(ms: seq<Member>, i: nat) returns (k: nat, j: nat)
    requires i < |Symbols(ms)| && forall j :: i < j < |Symbols(ms)| ==> Symbols(ms)[j] != Symbols(ms)[i]
    ensures k < |ms| && j < |ms[k].symbols| && i == |Symbols(ms[..k])| + j && LastDefines(ms, k, Symbols(ms)[i])
  {
    k, j := MemberOfEntry(ms, i);
    hide Symbols;
    forall l | k < l < |ms|
      ensures Symbols(ms)[i] !in ms[l].symbols
    {
      if Symbols(ms)[i] in ms[l].symbols {
        var e := EntryOfMember(ms, l, Symbols(ms)[i]);
        SymbolsGrow(ms, k, l);
      }
    }
  }

  /** The name "/", of an index with entries of four bytes. */
  predicate IsPlainIndex(field: seq<Byte>) { UpToNul(Strip(field)) == [47] }

  /** tcc_archive_index_load, then the lookup: the index is the first member, named "/". */
  method Find(file: seq<Byte>, name: seq<Byte>, hash: seq<Byte> -> nat, ghost ms: seq<Member>)
    returns (found: bool, off: nat, ghost i: nat)
    requires Representable(ms) && file == Archived(ms) && IndexSize(ms) < 1_000_000_000
    requires NulFree(Symbols(ms)) && FileNames(ms) && AllNamed(ms)
    ensures found <==> name in Symbols(ms)
    ensures found ==> i < |Symbols(ms)| && Symbols(ms)[i] == name && off == Offsets(ms)[i]
    ensures found ==> forall j :: i < j < |Symbols(ms)| ==> Symbols(ms)[j] != name
  {
    hide Archived, Representable, IndexSize, Symbols, Offsets, IsIndexOf, FileNames, AllNamed, Atoi, IsPlainIndex, NulFree;
    found, off, i := false, 0, 0;
    FirstHeader(ms);
    if |file| >= 8 + HEADER_SIZE && file[..8] == ARMAG && IsPlainIndex(file[8..24]) {
      var size := Atoi(file[56..65]);
      IndexReadsBack(ms);
      var data := file[68..68 + size];
      found, i, off := Resolve(data, name, hash, Symbols(ms), Offsets(ms));
    }
  }

  /** An index is there exactly when there are symbols. */
  lemma FirstHeader(ms: seq<Member>)
    requires Representable(ms) && IndexSize(ms) < 1_000_000_000 && FileNames(ms) && AllNamed(ms)
    ensures var f := Archived(ms);
      && |f| >= 8 && f[..8] == ARMAG
      && (Symbols(ms) == [] && |f| >= 68 ==> !IsPlainIndex(f[8..24]))
      && (Symbols(ms) != [] ==> |f| >= 68 && IsPlainIndex(f[8..24]) && Atoi(f[56..65]) == IndexSize(ms))
  {
    hide IndexPayload, Symbols, IsPlainIndex, Atoi, Header, MemberBytes, IndexSize, Positions, Start;
    var b := Body(ms);
    AfterMagic(IndexBytes(ms), b);
    if Symbols(ms) != [] {
      Sizes(ms);
      var h, p := Header(INDEX_NAME, [ZERO], IndexSize(ms)), IndexPayload(ms);
      HeaderBytes(h, p + b);
      assert ARMAG + (h + p) + b == ARMAG + (h + (p + b));
      PlainIndex();
      SizeRead(IndexSize(ms));
    } else if ms != [] {
      NamedHeader(ms[0], Body(ms[1..]));
      assert ARMAG + [] + b == ARMAG + b;
    }
  }

  lemma PlainIndex()
    ensures |INDEX_NAME| == NAME_SIZE && IsPlainIndex(INDEX_NAME)
  {
    StripSpaces([SLASH], 15);
    NoNul([SLASH]);
  }

  lemma HeaderBytes(h: seq<Byte>, t: seq<Byte>)
    requires |h| == HEADER_SIZE
    ensures var f := ARMAG + (h + t); |f| >= 68 && f[8..24] == h[..16] && f[56..65] == h[48..58][..9]
  {}

  lemma NamedHeader(m: Member, t: seq<Byte>)
    requires Acceptable(m) && FileName(m.item.name) && m.item.name != []
    ensures |MemberBytes(m)| >= HEADER_SIZE && !IsPlainIndex((ARMAG + (MemberBytes(m) + t))[8..24])
  {
    FieldRead(m.item.name);
    hide NameField, Header, Strip, UpToNul;
    var d := m.item.data;
    var h := Header(NameField(m.item.name), MODE, |d|);
    assert MemberBytes(m) + t == h + (d + Pad(|d|) + t);
    HeaderBytes(h, d + Pad(|d|) + t);
  }

  /** Create an archive, then link against it: a symbol is found exactly when some member defines it, and what is at the
      offset found is the last member that does. */
  method CreateAndLink(ins: seq<Input>, name: seq<Byte>, hash: seq<Byte> -> nat)
    returns (ok: bool, found: bool, off: nat, ghost k: nat)
    requires Fits(Members(ins)) ==> Representable(Members(ins))
    requires forall i :: 0 <= i < |ins| ==> 0 !in ins[i].path
    requires AllNamed(Members(ins)) && NulFree(Symbols(Members(ins))) && IndexSize(Members(ins)) < 1_000_000_000
    ensures ok <==> Fits(Members(ins))
    ensures ok ==> (found <==> exists l :: 0 <= l < |ins| && name in ins[l].symbols)
    ensures ok && found ==> LastDefines(Members(ins), k, name) && StandsAt(Archived(Members(ins)), off, Members(ins)[k])
  {
    hide *;
    ghost var ms := Members(ins);
    var file;
    ok, file := WriteArchive(ins);
    found, off, k := false, 0, 0;
    if ok {
      NoneDefined(ins, name);
      NamesOf(ins);
      ghost var i;
      found, off, i := Find(file, name, hash, ms);
      if found { k := Loaded(ms, i, name, off); }
    }
  }

  ghost predicate StandsAt(file: seq<Byte>, off: nat, m: Member)
  {
    Acceptable(m) && off + |MemberBytes(m)| <= |file| && file[off..off + |MemberBytes(m)|] == MemberBytes(m)
  }

  lemma Loaded(ms: seq<Member>, i: nat, name: seq<Byte>, off: nat) returns (k: nat)
    requires Representable(ms) && i < |Symbols(ms)| && Symbols(ms)[i] == name && off == Offsets(ms)[i]
    requires forall j :: i < j < |Symbols(ms)| ==> Symbols(ms)[j] != name
    ensures LastDefines(ms, k, name) && StandsAt(Archived(ms), off, ms[k])
  {
    hide Symbols, Archived, Offsets, Body, Start, Positions, MemberBytes;
    var j;
    k, j := LastEntry(ms, i);
    PositionOf(ms, k, j);
    MemberAt(ms, k);
    OffsetIs(ms, i);
  }

  lemma NoneDefined(ins: seq<Input>, name: seq<Byte>)
    ensures (exists l :: 0 <= l < |ins| && name in ins[l].symbols) <==> name in Symbols(Members(ins))
  {
    var ms := Members(ins);
    if l :| 0 <= l < |ins| && name in ins[l].symbols {
      var i := EntryOfMember(ms, l, name);
    }
    if name in Symbols(ms) {
      var i :| 0 <= i < |Symbols(ms)| && Symbols(ms)[i] == name;
      var k, j := MemberOfEntry(ms, i);
      assert ins[k].symbols[j] == name;
    }
  }
}
