/** The archive writer and reader of tcc -ar (source/driver/tcctools.c), over byte sequences. */
module Archive {
  import opened Words

  const SPACE: Byte := 32
  const SLASH: Byte := 47
  const ZERO: Byte := 48

  function Spaces(n: nat): (s: seq<Byte>)
    ensures |s| == n && forall i :: 0 <= i < n ==> s[i] == SPACE
  {
    seq(n, i => SPACE)
  }

  // Decimal fields.

  function Digits(n: nat): (s: seq<Byte>)
    ensures |s| > 0 && forall i :: 0 <= i < |s| ==> ZERO <= s[i] < ZERO + 10
    decreases n
  {
    if n < 10 then [ZERO + n] else Digits(n / 10) + [ZERO + n % 10]
  }

  /** The value of leading digits. */
  function Leading(s: seq<Byte>): nat
  {
    if s == [] || !(ZERO <= s[0] < ZERO + 10) then 0 else Prefix(s, 1, s[0] - ZERO)
  }

  function Prefix(s: seq<Byte>, i: nat, v: nat): nat
    requires i <= |s|
    decreases |s| - i
  {
    if i < |s| && ZERO <= s[i] < ZERO + 10 then Prefix(s, i + 1, 10 * v + s[i] - ZERO) else v
  }

  /** atoi: blanks, a sign, digits. */
  function Atoi(s: seq<Byte>): int
    decreases |s|
  {
    if s == [] then 0
    else if s[0] == SPACE || 9 <= s[0] <= 13 then Atoi(s[1..])
    else if s[0] == 45 then -(Leading(s[1..]) as int)
    else if s[0] == 43 then Leading(s[1..])
    else Leading(s)
  }

  /** "%-10d", of which the first ten characters are kept. */
  function SizeField(n: nat): (s: seq<Byte>)
    requires n < 10_000_000_000
    ensures |s| == 10
  {
    DigitCount(n, 10);
    Digits(n) + Spaces(10 - |Digits(n)|)
  }

  lemma {:induction false} DigitCount(n: nat, k: nat)
    requires k > 0 && n < Pow10(k)
    ensures |Digits(n)| <= k
    ensures k > 1 && n >= Pow10(k - 1) ==> |Digits(n)| == k
    decreases k
  {
    if n >= 10 { DigitCount(n / 10, k - 1); }
  }

  function Pow10(k: nat): (p: nat)
    ensures p > 0
  {
    if k == 0 then 1 else 10 * Pow10(k - 1)
  }

  predicate AllDigits(s: seq<Byte>) { forall i :: 0 <= i < |s| ==> ZERO <= s[i] < ZERO + 10 }

  ghost function Val(s: seq<Byte>): nat
    requires AllDigits(s)
  {
    if s == [] then 0 else 10 * Val(s[..|s| - 1]) + s[|s| - 1] - ZERO
  }

  lemma {:induction false} DigitsVal(n: nat)
    ensures Val(Digits(n)) == n
    decreases n
  {
    if n >= 10 {
      DigitsVal(n / 10);
      assert Digits(n)[..|Digits(n)| - 1] == Digits(n / 10);
    } else {
      assert Digits(n)[..0] == [];
    }
  }

  lemma {:induction false} PrefixIs(d: seq<Byte>, t: seq<Byte>, i: nat)
    requires AllDigits(d) && i <= |d| && (t != [] ==> !(ZERO <= t[0] < ZERO + 10))
    ensures Prefix(d + t, i, Val(d[..i])) == Val(d)
    decreases |d| - i
  {
    if i < |d| {
      assert d[..i + 1][..i] == d[..i] && (d + t)[i] == d[i];
      PrefixIs(d, t, i + 1);
    } else {
      assert d[..i] == d;
      assert i < |d + t| ==> (d + t)[i] == t[0];
    }
  }

  lemma DigitsRead(d: seq<Byte>, t: seq<Byte>)
    requires AllDigits(d) && d != [] && (t != [] ==> !(ZERO <= t[0] < ZERO + 10))
    ensures Atoi(d + t) == Val(d)
  {
    assert (d + t)[0] == d[0] && d[..1] == [d[0]] && d[..1][..0] == [];
    PrefixIs(d, t, 1);
  }

  /** The reader takes nine characters: ten-digit sizes lose their last digit. */
  lemma SizeRead(n: nat)
    requires n < 10_000_000_000
    ensures Atoi(SizeField(n)[..9]) == if n < 1_000_000_000 then n else n / 10
  {
    assert Pow10(9) == 1_000_000_000 && Pow10(10) == 10_000_000_000 by { Pow10Values(); }
    DigitCount(n, 10);
    DigitsVal(n);
    if n < 1_000_000_000 {
      DigitCount(n, 9);
      var t := Spaces(9 - |Digits(n)|);
      assert SizeField(n)[..9] == Digits(n) + t;
      DigitsRead(Digits(n), t);
    } else {
      DigitsVal(n / 10);
      assert SizeField(n)[..9] == Digits(n / 10) + [];
      DigitsRead(Digits(n / 10), []);
    }
  }

  lemma Pow10Values()
    ensures Pow10(9) == 1_000_000_000 && Pow10(10) == 10_000_000_000
  {
    assert Pow10(5) == 100_000;
  }

  // One member.

  /** A file name without its directories, and the file's contents. */
  datatype Item = Item(name: seq<Byte>, data: seq<Byte>)

  /** What the input offers: the item and the global symbols it defines. */
  datatype Member = Member(item: Item, symbols: seq<seq<Byte>>)

  const NAME_SIZE: nat := 16
  const HEADER_SIZE: nat := 60

  function Cut(name: seq<Byte>): (c: seq<Byte>)
    ensures c <= name && |c| == if |name| <= 15 then |name| else 15
  {
    if |name| >= NAME_SIZE then name[..NAME_SIZE - 1] else name
  }

  function NameField(name: seq<Byte>): (f: seq<Byte>)
    ensures |f| == NAME_SIZE
  {
    Cut(name) + [SLASH] + Spaces(NAME_SIZE - 1 - |Cut(name)|)
  }

  function Padded(s: seq<Byte>, n: nat): (f: seq<Byte>)
    requires |s| <= n
    ensures |f| == n
  {
    s + Spaces(n - |s|)
  }

  const FMAG: seq<Byte> := [96, 10]
  const MODE: seq<Byte> := [49, 48, 48, 54, 52, 52]

  /** ar_date, ar_uid, ar_gid and ar_mode. */
  function Middle(mode: seq<Byte>): (f: seq<Byte>)
    requires |mode| <= 8
    ensures |f| == 32
  {
    Padded([ZERO], 12) + Padded([ZERO], 6) + Padded([ZERO], 6) + Padded(mode, 8)
  }

  function Header(nameField: seq<Byte>, mode: seq<Byte>, size: nat): (h: seq<Byte>)
    requires |nameField| == NAME_SIZE && |mode| <= 8 && size < 10_000_000_000
    ensures |h| == HEADER_SIZE
    ensures h[..16] == nameField && h[48..58] == SizeField(size) && h[58..60] == FMAG
  {
    var h := nameField + Middle(mode) + SizeField(size) + FMAG;
    assert h[..16] == nameField && h[48..58] == SizeField(size) && h[58..60] == FMAG;
    h
  }

  function Pad(n: nat): seq<Byte> { if n % 2 == 1 then [0] else [] }

  /** Sizes the writer accepts. */
  predicate Acceptable(m: Member)
  {
    |m.item.data| <= 0x7fff_fffe
  }

  function MemberBytes(m: Member): (b: seq<Byte>)
    requires Acceptable(m)
    ensures |b| % 2 == 0 && |b| >= HEADER_SIZE
  {
    Header(NameField(m.item.name), MODE, |m.item.data|) + m.item.data + Pad(|m.item.data|)
  }

  // Reading.

  datatype Status = Done | NotArchive | Truncated

  /** What has been listed or extracted when the reader stops. */
  datatype Listing = Listing(items: seq<Item>, status: Status)

  function Strip(f: seq<Byte>): seq<Byte>
  {
    if f != [] && f[|f| - 1] == SPACE then Strip(f[..|f| - 1]) else f
  }

  /** A C string: the bytes before the first NUL. */
  function UpToNul(s: seq<Byte>): seq<Byte>
  {
    if s == [] || s[0] == 0 then [] else [s[0]] + UpToNul(s[1..])
  }

  const SYM64: seq<Byte> := [SLASH, 83, 89, 77, 54, 52, SLASH]

  predicate IsIndex(field: seq<Byte>)
  {
    var c := UpToNul(Strip(field));
    c == [SLASH] || c == SYM64
  }

  function NameOf(field: seq<Byte>): seq<Byte>
  {
    var r := Strip(field);
    UpToNul(if r != [] && r[|r| - 1] == SLASH then r[..|r| - 1] else r)
  }

  function SizeOf(h: seq<Byte>): int
    requires |h| >= HEADER_SIZE
  {
    Atoi(h[48..57])
  }

  /** Where the next header starts. */
  function After(b: seq<Byte>, size: nat): (r: seq<Byte>)
    requires HEADER_SIZE + size <= |b|
    ensures |r| <= |b| - HEADER_SIZE
  {
    var r := b[HEADER_SIZE + size..];
    if size % 2 == 1 && r != [] then r[1..] else r
  }

  /** The archive after its magic number. */
  function Parse(b: seq<Byte>): Listing
    decreases |b|
  {
    if |b| < HEADER_SIZE then Listing([], Done)
    else if b[58..60] != FMAG || SizeOf(b) < 0 then Listing([], NotArchive)
    else if HEADER_SIZE + SizeOf(b) > |b| then Listing([], Truncated)
    else
      var l := Parse(After(b, SizeOf(b)));
      if IsIndex(b[..16]) then l
      else l.(items := [Item(NameOf(b[..16]), b[HEADER_SIZE..HEADER_SIZE + SizeOf(b)])] + l.items)
  }

  const ARMAG: seq<Byte> := [33, 60, 97, 114, 99, 104, 62, 10]

  /** The items found so far, then what is still to come. */
  ghost function Then(items: seq<Item>, l: Listing): Listing { l.(items := items + l.items) }

  /** The member at the front, unless it is an index. */
  function Listed(b: seq<Byte>): seq<Item>
    requires |b| >= HEADER_SIZE && 0 <= SizeOf(b) <= |b| - HEADER_SIZE
  {
    if IsIndex(b[..16]) then [] else [Item(NameOf(b[..16]), b[HEADER_SIZE..HEADER_SIZE + SizeOf(b)])]
  }

  /** The headers at which the reader stops. */
  lemma ParseStops(b: seq<Byte>, items: seq<Item>)
    ensures |b| < HEADER_SIZE ==> Then(items, Parse(b)) == Listing(items, Done)
    ensures |b| >= HEADER_SIZE && (b[58..60] != FMAG || SizeOf(b) < 0) ==>
      Then(items, Parse(b)) == Listing(items, NotArchive)
    ensures |b| >= HEADER_SIZE && b[58..60] == FMAG && 0 <= SizeOf(b) && HEADER_SIZE + SizeOf(b) > |b| ==>
      Then(items, Parse(b)) == Listing(items, Truncated)
  {
    hide SizeOf, IsIndex, NameOf, After;
    assert items + [] == items;
  }

  /** ... and the others. */
  lemma ParseUnfold(b: seq<Byte>)
    requires |b| >= HEADER_SIZE && b[58..60] == FMAG && 0 <= SizeOf(b) <= |b| - HEADER_SIZE
    ensures Parse(b) == Then(Listed(b), Parse(After(b, SizeOf(b))))
  {
    hide SizeOf, IsIndex, NameOf, After;
    var l := Parse(After(b, SizeOf(b)));
    assert [] + l.items == l.items;
  }

  lemma ParseGoesOn(b: seq<Byte>, items: seq<Item>)
    requires |b| >= HEADER_SIZE && b[58..60] == FMAG && 0 <= SizeOf(b) <= |b| - HEADER_SIZE
    ensures Then(items, Parse(b)) == Then(items + Listed(b), Parse(After(b, SizeOf(b))))
  {
    hide Parse, SizeOf, Listed, After;
    ParseUnfold(b);
    var l := Parse(After(b, SizeOf(b)));
    assert items + (Listed(b) + l.items) == items + Listed(b) + l.items;
  }

  /** The files that extraction writes: of the members of one name the last. */
  function Extracted(items: seq<Item>): map<seq<Byte>, seq<Byte>>
  {
    if items == [] then map[]
    else var x := items[|items| - 1]; Extracted(items[..|items| - 1])[x.name := x.data]
  }

  lemma ExtractedAppend(items: seq<Item>, x: Item, disk: map<seq<Byte>, seq<Byte>>)
    ensures (disk + Extracted(items))[x.name := x.data] == disk + Extracted(items + [x])
  {
    assert (items + [x])[..|items|] == items;
  }

  /** tcc -ar t, and x: the names printed, with the contents, and the files afterwards. */
  method ReadArchive(b: seq<Byte>, extract: bool, disk: map<seq<Byte>, seq<Byte>>)
    returns (items: seq<Item>, disk': map<seq<Byte>, seq<Byte>>, status: Status)
    ensures |b| < 8 || b[..8] != ARMAG ==> items == [] && status == NotArchive
    ensures |b| >= 8 && b[..8] == ARMAG ==> Listing(items, status) == Parse(b[8..])
    ensures disk' == if extract then disk + Extracted(items) else disk
  {
    hide Parse, Atoi, IsIndex, NameOf, After, Extracted;
    items, disk' := [], disk;
    assert disk + Extracted([]) == disk by { ExtractedNone(disk); }
    if |b| < 8 || b[..8] != ARMAG { return [], disk, NotArchive; }
    var rest := b[8..];
    assert Then([], Parse(rest)) == Parse(rest);
    while |rest| >= HEADER_SIZE
      invariant Parse(b[8..]) == Then(items, Parse(rest))
      invariant disk' == if extract then disk + Extracted(items) else disk
      decreases |rest|
    {
      ParseStops(rest, items);
      if rest[58..60] != FMAG { return items, disk', NotArchive; }
      var size := Atoi(rest[48..57]);
      if size < 0 { return items, disk', NotArchive; }
      if HEADER_SIZE + size > |rest| { return items, disk', Truncated; }
      ParseGoesOn(rest, items);
      if !IsIndex(rest[..16]) {
        var x := Item(NameOf(rest[..16]), rest[HEADER_SIZE..HEADER_SIZE + size]);
        if extract {
          ExtractedAppend(items, x, disk);
          disk' := disk'[x.name := x.data];
        }
        items := items + [x];
      }
      rest := After(rest, size);
    }
    ParseStops(rest, items);
    status := Done;
  }

  lemma ExtractedNone(disk: map<seq<Byte>, seq<Byte>>)
    ensures disk + Extracted([]) == disk
  {}

  // What extraction leaves.

  /** Every item has its file. */
  ghost predicate Restored(files: map<seq<Byte>, seq<Byte>>, items: seq<Item>)
  {
    forall i :: 0 <= i < |items| ==> items[i].name in files && files[items[i].name] == items[i].data
  }

  ghost predicate Agreeing(items: seq<Item>)
  {
    forall i, j :: 0 <= i < j < |items| && items[i].name == items[j].name ==> items[i].data == items[j].data
  }

  /** Extraction restores all of the items exactly when items of one name have one contents. */
  lemma {:induction false} RestoredIff(items: seq<Item>)
    ensures Restored(Extracted(items), items) <==> Agreeing(items)
  {
    if items != [] {
      var k := |items| - 1;
      var t, x := items[..k], items[k];
      RestoredIff(t);
      assert items == t + [x];
      if Agreeing(items) {
        assert Agreeing(t);
      } else {
        var i, j :| 0 <= i < j < |items| && items[i].name == items[j].name && items[i].data != items[j].data;
      }
    }
  }

  /** Of several items of one name the last is on disk. */
  lemma {:induction false} LastWins(items: seq<Item>, j: nat)
    requires j < |items| && forall i :: j < i < |items| ==> items[i].name != items[j].name
    ensures items[j].name in Extracted(items) && Extracted(items)[items[j].name] == items[j].data
    decreases |items|
  {
    var k := |items| - 1;
    if j < k { LastWins(items[..k], j); }
  }

  /** Nothing else is written. */
  lemma {:induction false} WrittenFrom(items: seq<Item>, name: seq<Byte>)
    requires name in Extracted(items)
    ensures Item(name, Extracted(items)[name]) in items
  {
    var k := |items| - 1;
    if name != items[k].name {
      WrittenFrom(items[..k], name);
      assert forall x :: x in items[..k] ==> x in items;
    }
  }

  // What the reader makes of one member.

  lemma {:induction false} StripSpaces(s: seq<Byte>, n: nat)
    requires s != [] && s[|s| - 1] != SPACE
    ensures Strip(s + Spaces(n)) == s
    decreases n
  {
    if n == 0 {
      assert s + Spaces(0) == s;
    } else {
      var f := s + Spaces(n);
      assert f[..|f| - 1] == s + Spaces(n - 1) && f[|f| - 1] == SPACE;
      StripSpaces(s, n - 1);
    }
  }

  lemma {:induction false} NoNul(s: seq<Byte>)
    requires 0 !in s
    ensures UpToNul(s) == s
  {
    if s != [] { NoNul(s[1..]); }
  }

  /** A file name as the writer sees it: the part of a C string after its last directory separator. */
  predicate FileName(name: seq<Byte>) { 0 !in name && SLASH !in name }

  lemma FieldRead(name: seq<Byte>)
    requires FileName(name)
    ensures Strip(NameField(name)) == Cut(name) + [SLASH] && UpToNul(Cut(name) + [SLASH]) == Cut(name) + [SLASH]
  {
    var c := Cut(name);
    StripSpaces(c + [SLASH], NAME_SIZE - 1 - |c|);
    assert 0 !in c;
    NoNul(c + [SLASH]);
  }

  /** A member without a name passes for an index. */
  lemma NameRead(name: seq<Byte>)
    requires FileName(name)
    ensures IsIndex(NameField(name)) <==> name == []
    ensures NameOf(NameField(name)) == Cut(name)
  {
    FieldRead(name);
    hide Strip, NameField;
    var c := Cut(name);
    var r := c + [SLASH];
    assert r[..|c|] == c && r[|c|] == SLASH;
    NoNul(c);
    if name != [] {
      assert r[0] == name[0] && name[0] in name;
      assert [SLASH][0] == SLASH && SYM64[0] == SLASH;
    }
  }

  /** How many bytes the reader takes for a member of that size. */
  function Taken(size: nat): nat { if size < 1_000_000_000 then size else size / 10 }

  lemma HeaderAt(h: seq<Byte>, t: seq<Byte>, n: nat)
    requires |h| == HEADER_SIZE && n <= |t|
    ensures (h + t)[..16] == h[..16] && (h + t)[48..57] == h[48..58][..9] && (h + t)[58..60] == h[58..60]
    ensures (h + t)[HEADER_SIZE..HEADER_SIZE + n] == t[..n] && (h + t)[HEADER_SIZE + n..] == t[n..]
  {}

  /** One header read. */
  lemma ParseStep(field: seq<Byte>, mode: seq<Byte>, size: nat, t: seq<Byte>, n: nat)
    requires |field| == NAME_SIZE && |mode| <= 8 && size < 10_000_000_000 && n == Taken(size) <= |t|
    ensures var b, r := Header(field, mode, size) + t, if n % 2 == 1 && t[n..] != [] then t[n..][1..] else t[n..];
      Parse(b) == if IsIndex(field) then Parse(r)
                  else Parse(r).(items := [Item(NameOf(field), t[..n])] + Parse(r).items)
  {
    var h := Header(field, mode, size);
    hide Atoi, Header, SizeField, IsIndex, NameOf;
    HeaderAt(h, t, n);
    SizeRead(size);
  }

  /** What one member is listed as. */
  ghost function Kept(m: Member): seq<Item>
  {
    if m.item.name == [] then [] else [Item(Cut(m.item.name), m.item.data)]
  }

  lemma MemberRead(m: Member, rest: seq<Byte>)
    requires Acceptable(m) && FileName(m.item.name) && |m.item.data| < 1_000_000_000
    ensures Parse(MemberBytes(m) + rest) == Then(Kept(m), Parse(rest))
  {
    var d := m.item.data;
    var n, t := |d|, d + (Pad(|d|) + rest);
    assert MemberBytes(m) + rest == Header(NameField(m.item.name), MODE, |d|) + t;
    NameRead(m.item.name);
    hide Parse, NameOf, IsIndex, Header;
    ParseStep(NameField(m.item.name), MODE, |d|, t, n);
    assert t[..n] == d && t[n..] == Pad(|d|) + rest;
    assert Pad(|d|) != [] ==> (Pad(|d|) + rest)[1..] == rest;
    assert Pad(|d|) == [] ==> Pad(|d|) + rest == rest;
    assert [] + Parse(rest).items == Parse(rest).items;
  }

  /** The reader skips the indexes and nothing else: "/" and "/SYM64/". */
  lemma SkippedNames(t: seq<Byte>)
    requires 0 < |t| <= NAME_SIZE && t[|t| - 1] != SPACE && 0 !in t
    ensures IsIndex(Padded(t, NAME_SIZE)) <==> t == [47] || t == [47, 83, 89, 77, 54, 52, 47]
  {
    StripSpaces(t, NAME_SIZE - |t|);
    NoNul(t);
  }

  /** Blanks, a sign or none, digits, anything else: the number. */
  lemma {:induction false} AtoiReads(blanks: seq<Byte>, sign: int, d: seq<Byte>, t: seq<Byte>)
    requires forall i :: 0 <= i < |blanks| ==> blanks[i] == 32 || 9 <= blanks[i] <= 13
    requires sign == 0 || sign == 1 || sign == -1
    requires AllDigits(d) && d != [] && (t != [] ==> !(ZERO <= t[0] < ZERO + 10))
    ensures var s := if sign == 0 then [] else if sign > 0 then [43] else [45];
      Atoi(blanks + s + d + t) == if sign < 0 then 0 - Val(d) else Val(d)
    decreases |blanks|
  {
    var s: seq<Byte> := if sign == 0 then [] else if sign > 0 then [43] else [45];
    var a := blanks + s + d + t;
    DigitsRead(d, t);
    LeadingReads(d, t);
    if blanks != [] {
      AtoiReads(blanks[1..], sign, d, t);
      assert a[0] == blanks[0] && a[1..] == blanks[1..] + s + d + t;
    } else if sign != 0 {
      assert a[0] == s[0] && a[1..] == d + t;
    } else {
      assert a == d + t;
    }
  }

  lemma LeadingReads(d: seq<Byte>, t: seq<Byte>)
    requires AllDigits(d) && d != [] && (t != [] ==> !(ZERO <= t[0] < ZERO + 10))
    ensures Leading(d + t) == Val(d)
  {
    assert (d + t)[0] == d[0] && d[..1] == [d[0]] && d[..1][..0] == [];
    PrefixIs(d, t, 1);
  }

  // Nine characters never make a size of ten digits.

  lemma {:induction false} PrefixBound(s: seq<Byte>, i: nat, v: nat)
    requires i <= |s|
    ensures Prefix(s, i, v) < (v + 1) * Pow10(|s| - i)
    decreases |s| - i
  {
    var p := Pow10(|s| - i);
    if i < |s| && ZERO <= s[i] < ZERO + 10 {
      var v' := 10 * v + s[i] - ZERO;
      PrefixBound(s, i + 1, v');
      MulMono(v' + 1, 10 * (v + 1), Pow10(|s| - (i + 1)));
      MulAssoc(v + 1, 10, Pow10(|s| - (i + 1)));
    } else {
      MulMono(1, p, v + 1);
    }
  }

  lemma {:induction false} Pow10Mono(a: nat, b: nat)
    requires a <= b
    ensures Pow10(a) <= Pow10(b)
    decreases b
  {
    if a < b { Pow10Mono(a, b - 1); }
  }

  lemma LeadingBound(s: seq<Byte>)
    ensures Leading(s) < Pow10(|s|)
  {
    if s != [] && ZERO <= s[0] < ZERO + 10 {
      PrefixBound(s, 1, s[0] - ZERO);
      MulMono(s[0] - ZERO + 1, 10, Pow10(|s| - 1));
    }
  }

  lemma {:induction false} AtoiBound(s: seq<Byte>)
    ensures Atoi(s) < Pow10(|s|)
    decreases |s|
  {
    LeadingBound(s);
    if s != [] {
      AtoiBound(s[1..]);
      LeadingBound(s[1..]);
      Pow10Mono(|s| - 1, |s|);
    }
  }

  lemma {:induction false} ParsedSizes(b: seq<Byte>)
    ensures forall x :: x in Parse(b).items ==> |x.data| < 1_000_000_000
    decreases |b|
  {
    if |b| >= HEADER_SIZE && b[58..60] == FMAG && 0 <= SizeOf(b) <= |b| - HEADER_SIZE {
      ParseUnfold(b);
      AtoiBound(b[48..57]);
      Pow10Values();
      ParsedSizes(After(b, SizeOf(b)));
      hide Parse, Atoi, Pow10, After, IsIndex, NameOf;
      assert forall x :: x in Parse(b).items ==> x in Listed(b) || x in Parse(After(b, SizeOf(b))).items;
    } else {
      ParseStops(b, []);
    }
  }

  // What any reader of archives finds in a header.

  lemma FieldText(s: seq<Byte>, n: nat)
    requires s != [] && |s| <= n && s[|s| - 1] != SPACE
    ensures Strip(Padded(s, n)) == s
  {
    StripSpaces(s, n - |s|);
  }

  /** The seven fields, each text followed by spaces. */
  lemma HeaderLayout(field: seq<Byte>, mode: seq<Byte>, size: nat)
    requires |field| == NAME_SIZE && 0 < |mode| <= 8 && mode[|mode| - 1] != SPACE && size < 10_000_000_000
    ensures var h := Header(field, mode, size);
      && |h| == 60 && h[..16] == field
      && Strip(h[16..28]) == [48] && Strip(h[28..34]) == [48] && Strip(h[34..40]) == [48] && Strip(h[40..48]) == mode
      && Strip(h[48..58]) == Digits(size) && h[58..60] == [96, 10]
  {
    FieldText([ZERO], 12);
    FieldText([ZERO], 6);
    FieldText(mode, 8);
    SizeText(size);
    hide Strip, SizeField, Digits, Padded;
    var a, b, c, d, e := field, Padded([ZERO], 12), Padded([ZERO], 6), Padded(mode, 8), SizeField(size);
    Fields(a, b, c, c, d, e, FMAG);
  }

  lemma SizeText(size: nat)
    requires size < 10_000_000_000
    ensures Strip(SizeField(size)) == Digits(size)
  {
    Pow10Values();
    DigitCount(size, 10);
    StripSpaces(Digits(size), 10 - |Digits(size)|);
  }

  lemma Fields(a: seq<Byte>, b: seq<Byte>, c: seq<Byte>, d: seq<Byte>, e: seq<Byte>, f: seq<Byte>, g: seq<Byte>)
    requires |a| == 16 && |b| == 12 && |c| == 6 && |d| == 6 && |e| == 8 && |f| == 10 && |g| == 2
    ensures var h := a + (b + c + d + e) + f + g;
      && h[..16] == a && h[16..28] == b && h[28..34] == c && h[34..40] == d && h[40..48] == e && h[48..58] == f
      && h[58..60] == g && |h| == 60
  {}

  /** A member: its header with mode 100644 and its full size, its contents, and a NUL after an odd number of bytes. */
  lemma MemberLayout(m: Member)
    requires Acceptable(m)
    ensures var b, n := MemberBytes(m), |m.item.data|;
      && |b| == 60 + n + n % 2 && b[60..60 + n] == m.item.data && (n % 2 == 1 ==> b[60 + n] == 0)
      && Strip(b[16..28]) == [48] && Strip(b[28..34]) == [48] && Strip(b[34..40]) == [48]
      && Strip(b[40..48]) == [49, 48, 48, 54, 52, 52]
      && Strip(b[48..58]) == Digits(n) && b[58..60] == [96, 10]
  {
    var n := |m.item.data|;
    HeaderLayout(NameField(m.item.name), MODE, n);
    hide Strip, Digits, Header, NameField;
    var h, t := Header(NameField(m.item.name), MODE, n), m.item.data + Pad(n);
    assert MemberBytes(m) == h + t;
    HeaderPart(h, t);
  }

  lemma HeaderPart(h: seq<Byte>, t: seq<Byte>)
    requires |h| == 60
    ensures var b := h + t;
      && b[16..28] == h[16..28] && b[28..34] == h[28..34] && b[34..40] == h[34..40] && b[40..48] == h[40..48]
      && b[48..58] == h[48..58] && b[58..60] == h[58..60]
  {}

  // The members in a row.

  ghost predicate AllAcceptable(ms: seq<Member>) { forall i :: 0 <= i < |ms| ==> Acceptable(ms[i]) }

  ghost function Body(ms: seq<Member>): seq<Byte>
    requires AllAcceptable(ms)
  {
    if ms == [] then [] else MemberBytes(ms[0]) + Body(ms[1..])
  }

  lemma {:induction false} BodyAppend(ms: seq<Member>, ns: seq<Member>)
    requires AllAcceptable(ms) && AllAcceptable(ns)
    ensures AllAcceptable(ms + ns) && Body(ms + ns) == Body(ms) + Body(ns)
  {
    hide MemberBytes, Acceptable;
    if ms == [] {
      assert ms + ns == ns;
    } else {
      assert (ms + ns)[0] == ms[0] && (ms + ns)[1..] == ms[1..] + ns;
      BodyAppend(ms[1..], ns);
      Assoc(MemberBytes(ms[0]), Body(ms[1..]), Body(ns));
    }
  }

  lemma Assoc(a: seq<Byte>, b: seq<Byte>, c: seq<Byte>)
    ensures (a + b) + c == a + (b + c)
  {}

  ghost function Items(ms: seq<Member>): seq<Item>
  {
    if ms == [] then [] else [Item(Cut(ms[0].item.name), ms[0].item.data)] + Items(ms[1..])
  }

  ghost predicate NineDigits(ms: seq<Member>) { forall i :: 0 <= i < |ms| ==> |ms[i].item.data| < 1_000_000_000 }

  ghost predicate FileNames(ms: seq<Member>) { forall i :: 0 <= i < |ms| ==> FileName(ms[i].item.name) }

  ghost predicate AllNamed(ms: seq<Member>) { forall i :: 0 <= i < |ms| ==> ms[i].item.name != [] }

  ghost function AllKept(ms: seq<Member>): seq<Item>
  {
    if ms == [] then [] else Kept(ms[0]) + AllKept(ms[1..])
  }

  lemma {:induction false} KeptCount(ms: seq<Member>)
    ensures |Items(ms)| == |ms|
    ensures forall i :: 0 <= i < |ms| ==> Items(ms)[i] == Item(Cut(ms[i].item.name), ms[i].item.data)
    ensures |AllKept(ms)| <= |ms|
    ensures AllKept(ms) == Items(ms) <==> AllNamed(ms)
  {
    if ms != [] {
      var rest := ms[1..];
      KeptCount(rest);
      assert AllNamed(ms) <==> ms[0].item.name != [] && AllNamed(rest);
      assert Items(ms)[1..] == Items(rest);
      if ms[0].item.name != [] { assert AllKept(ms)[1..] == AllKept(rest); }
    }
  }

  lemma {:induction false} BodyKept(ms: seq<Member>)
    requires AllAcceptable(ms) && FileNames(ms) && NineDigits(ms)
    ensures Parse(Body(ms)) == Listing(AllKept(ms), Done)
  {
    if ms != [] {
      MemberRead(ms[0], Body(ms[1..]));
      BodyKept(ms[1..]);
      hide Parse, MemberBytes, Kept;
      assert Body(ms) == MemberBytes(ms[0]) + Body(ms[1..]);
    }
  }

  lemma ItemSizes(ms: seq<Member>, b: seq<Byte>)
    ensures Parse(b).items == Items(ms) ==> NineDigits(ms)
  {
    hide Parse, Items;
    KeptCount(ms);
    ParsedSizes(b);
    if Parse(b).items == Items(ms) {
      forall i | 0 <= i < |ms|
        ensures |ms[i].item.data| < 1_000_000_000
      {
        assert Items(ms)[i] in Items(ms);
      }
    }
  }

  /** The members come back, each with its name cut to 15 characters, exactly when no size has ten digits and no name is
      empty. */
  lemma BodyRead(ms: seq<Member>)
    requires AllAcceptable(ms) && FileNames(ms)
    ensures Parse(Body(ms)) == Listing(Items(ms), Done) <==> NineDigits(ms) && AllNamed(ms)
  {
    hide Parse, Body, AllAcceptable, FileNames, Items, AllKept;
    KeptCount(ms);
    ItemSizes(ms, Body(ms));
    if NineDigits(ms) { BodyKept(ms); }
  }

  // Archives that end too early.

  lemma {:induction false} BodyThen(ms: seq<Member>, t: seq<Byte>)
    requires AllAcceptable(ms) && FileNames(ms) && NineDigits(ms)
    ensures Parse(Body(ms) + t) == Then(AllKept(ms), Parse(t))
  {
    if ms == [] {
      assert Body(ms) + t == t && [] + Parse(t).items == Parse(t).items;
    } else {
      MemberRead(ms[0], Body(ms[1..]) + t);
      BodyThen(ms[1..], t);
      hide Parse, MemberBytes, Kept;
      assert Body(ms) + t == MemberBytes(ms[0]) + (Body(ms[1..]) + t);
      var a, b, c := Kept(ms[0]), AllKept(ms[1..]), Parse(t).items;
      assert a + (b + c) == (a + b) + c;
    }
  }

  /** The reader at the first j bytes of a member. */
  lemma PartRead(m: Member, j: nat)
    requires Acceptable(m) && |m.item.data| < 1_000_000_000 && j < HEADER_SIZE + |m.item.data|
    ensures j <= |MemberBytes(m)|
    ensures Parse(MemberBytes(m)[..j]) == Listing([], if j < HEADER_SIZE then Done else Truncated)
  {
    var n := |m.item.data|;
    var h, t := Header(NameField(m.item.name), MODE, n), m.item.data + Pad(n);
    hide Header, NameField, IsIndex, NameOf, After, Atoi;
    assert MemberBytes(m) == h + t;
    if j >= HEADER_SIZE {
      var r := t[..j - HEADER_SIZE];
      assert MemberBytes(m)[..j] == h + r;
      HeaderAt(h, r, 0);
      SizeRead(n);
    }
  }

  /** An archive cut short after the members before k and j more bytes: exactly those members are listed.  A cut within
      the contents of a member is reported, one within its header is not. */
  lemma CutShort(ms: seq<Member>, k: nat, j: nat)
    requires AllAcceptable(ms) && FileNames(ms) && NineDigits(ms) && AllNamed(ms)
    requires k < |ms| && j < HEADER_SIZE + |ms[k].item.data|
    ensures var n := |Body(ms[..k])| + j;
      n <= |Body(ms)| && Parse(Body(ms)[..n]) == Listing(Items(ms[..k]), if j < HEADER_SIZE then Done else Truncated)
  {
    hide Parse, Body, MemberBytes, Items, AllKept;
    var t, m := ms[..k], ms[k];
    PrefixGood(ms, k);
    PartRead(m, j);
    BodySplit(ms, k);
    var p := MemberBytes(m)[..j];
    CutAt(Body(t), MemberBytes(m), Body(ms[k + 1..]), j);
    BodyThen(t, p);
    KeptCount(t);
    assert AllKept(t) + [] == AllKept(t);
  }

  lemma PrefixGood(ms: seq<Member>, k: nat)
    requires AllAcceptable(ms) && FileNames(ms) && NineDigits(ms) && AllNamed(ms) && k <= |ms|
    ensures AllAcceptable(ms[..k]) && FileNames(ms[..k]) && NineDigits(ms[..k]) && AllNamed(ms[..k])
  {}

  lemma CutAt(a: seq<Byte>, m: seq<Byte>, b: seq<Byte>, j: nat)
    requires j <= |m|
    ensures (a + (m + b))[..|a| + j] == a + m[..j]
  {}

  // The symbol index.

  function Be32(n: nat): (s: seq<Byte>)
    requires n < 0x1_0000_0000
    ensures |s| == 4
  {
    [n / 0x100_0000, n / 0x1_0000 % 256, n / 256 % 256, n % 256]
  }

  ghost function FromBe32(s: seq<Byte>): nat
    requires |s| == 4
  {
    var a: nat, b: nat, c: nat, d: nat := s[0], s[1], s[2], s[3];
    a * 0x100_0000 + b * 0x1_0000 + c * 256 + d
  }

  lemma Be32Inverse(n: nat)
    requires n < 0x1_0000_0000
    ensures FromBe32(Be32(n)) == n
  {
    Bytes(n);
  }

  /** A 32-bit word in the memory of a little-endian host. */
  function Le32(n: nat): (s: seq<Byte>)
    requires n < 0x1_0000_0000
    ensures |s| == 4
  {
    [n % 256, n / 256 % 256, n / 0x1_0000 % 256, n / 0x100_0000]
  }

  /** le2belong */
  function Swapped(n: nat): (r: nat)
    requires n < 0x1_0000_0000
    ensures r < 0x1_0000_0000
  {
    n / 0x1_0000 % 256 * 0x100 + n / 0x100_0000 % 256 + n % 256 * 0x100_0000 + n / 256 % 256 * 0x1_0000
  }

  /** What the swap is for: the host's bytes of the swapped word are the word's bytes most significant first. */
  lemma SwappedInMemory(n: nat)
    requires n < 0x1_0000_0000
    ensures Le32(Swapped(n)) == Be32(n) && Swapped(Swapped(n)) == n
  {
    Bytes(n);
    var a, b, c, d := n / 0x100_0000, n / 0x1_0000 % 256, n / 256 % 256, n % 256;
    var r := Swapped(n);
    assert r == d * 0x100_0000 + c * 0x1_0000 + b * 256 + a;
    SwapDigits(a, b, c, d, r);
    Swapback(a, b, c, d, n, r);
  }

  lemma Bytes(n: nat)
    requires n < 0x1_0000_0000
    ensures n == n / 0x100_0000 * 0x100_0000 + n / 0x1_0000 % 256 * 0x1_0000 + n / 256 % 256 * 256 + n % 256
    ensures n / 0x100_0000 % 256 == n / 0x100_0000
  {
    DivDiv(n, 256, 256);
    DivDiv(n, 0x1_0000, 256);
    var b, c, d := n / 256, n / 0x1_0000, n / 0x100_0000;
    assert n == b * 256 + n % 256 && b == c * 256 + b % 256 && c == d * 256 + c % 256 && d < 256;
  }

  lemma Swapback(a: Byte, b: Byte, c: Byte, d: Byte, n: nat, r: nat)
    requires r < 0x1_0000_0000 && r % 256 == a && r / 256 % 256 == b && r / 0x1_0000 % 256 == c && r / 0x100_0000 == d
    requires n == a * 0x100_0000 + b * 0x1_0000 + c * 256 + d
    ensures Swapped(r) == n
  {}

  lemma SwapDigits(a: Byte, b: Byte, c: Byte, d: Byte, r: nat)
    requires r == d * 0x100_0000 + c * 0x1_0000 + b * 256 + a
    ensures r % 256 == a && r / 256 % 256 == b && r / 0x1_0000 % 256 == c && r / 0x100_0000 == d
  {
    assert r / 256 == d * 0x1_0000 + c * 256 + b;
    assert r / 0x1_0000 == d * 256 + c;
  }

  /** Names of all symbols, each with its NUL. */
  ghost function Names(ss: seq<seq<Byte>>): seq<Byte>
  {
    if ss == [] then [] else Names(ss[..|ss| - 1]) + ss[|ss| - 1] + [0]
  }

  /** The symbols of all members in order, and for each the position of its member in the body. */
  ghost function Symbols(ms: seq<Member>): seq<seq<Byte>>
  {
    if ms == [] then [] else Symbols(ms[..|ms| - 1]) + ms[|ms| - 1].symbols
  }

  ghost function Positions(ms: seq<Member>): (ps: seq<nat>)
    requires AllAcceptable(ms)
    ensures |ps| == |Symbols(ms)|
  {
    if ms == [] then [] else Positions(ms[..|ms| - 1]) + Repeated(|Body(ms[..|ms| - 1])|, |ms[|ms| - 1].symbols|)
  }

  ghost function Repeated(x: nat, n: nat): (s: seq<nat>)
    ensures |s| == n && forall i :: 0 <= i < n ==> s[i] == x
  {
    seq(n, i => x)
  }

  /** Big-endian words. */
  ghost function BeWords(ps: seq<nat>): (s: seq<Byte>)
    requires forall i :: 0 <= i < |ps| ==> ps[i] < 0x1_0000_0000
    ensures |s| == 4 * |ps|
  {
    if ps == [] then [] else BeWords(ps[..|ps| - 1]) + Be32(ps[|ps| - 1])
  }

  lemma {:induction false} WordAt(ps: seq<nat>, i: nat)
    requires i < |ps| && forall j :: 0 <= j < |ps| ==> ps[j] < 0x1_0000_0000
    ensures BeWords(ps)[4 * i..4 * i + 4] == Be32(ps[i])
  {
    var k := |ps| - 1;
    if i < k {
      WordAt(ps[..k], i);
      assert BeWords(ps)[4 * i..4 * i + 4] == BeWords(ps[..k])[4 * i..4 * i + 4];
    }
  }

  /** Size of the index without its header: count, offsets, names, and a byte to make it even. */
  ghost function IndexSize(ms: seq<Member>): nat
  {
    4 * (|Symbols(ms)| + 1) + Even(|Names(Symbols(ms))|)
  }

  function Even(n: nat): (r: nat)
    ensures r % 2 == 0 && r == n + |Pad(n)|
  {
    if n % 2 == 1 then n + 1 else n
  }

  /** File offset of the first member. */
  ghost function Start(ms: seq<Member>): nat
  {
    8 + HEADER_SIZE + IndexSize(ms)
  }

  /** Sizes that pass both tests against INT_MAX: each input's, and that of all members together. */
  ghost predicate Fits(ms: seq<Member>) { AllAcceptable(ms) && |Body(ms)| <= 0x7fff_fffe }

  /** The file offsets that the writer computes fit in an int. */
  ghost predicate Representable(ms: seq<Member>)
  {
    && AllAcceptable(ms) && Start(ms) < 0x8000_0000
    && forall i :: 0 <= i < |Positions(ms)| ==> Start(ms) + Positions(ms)[i] < 0x8000_0000
  }

  const INDEX_NAME: seq<Byte> := [SLASH] + Spaces(15)

  /** The offsets of the symbols' members in the file. */
  ghost function Offsets(ms: seq<Member>): (qs: seq<nat>)
    requires Representable(ms)
    ensures |qs| == |Symbols(ms)| && forall i :: 0 <= i < |qs| ==> qs[i] < 0x1_0000_0000
  {
    Shifted(Positions(ms), Start(ms))
  }

  ghost function IndexPayload(ms: seq<Member>): (p: seq<Byte>)
    requires Representable(ms)
    ensures |p| == IndexSize(ms)
  {
    Be32(|Symbols(ms)|) + BeWords(Offsets(ms)) + (Names(Symbols(ms)) + Pad(|Names(Symbols(ms))|))
  }

  /** Nothing at all when there are no symbols. */
  ghost function IndexBytes(ms: seq<Member>): (b: seq<Byte>)
    requires Representable(ms)
    ensures Symbols(ms) != [] ==> 8 + |b| == Start(ms)
  {
    if Symbols(ms) == [] then [] else Header(INDEX_NAME, [ZERO], IndexSize(ms)) + IndexPayload(ms)
  }

  ghost function Shifted(ps: seq<nat>, delta: nat): (qs: seq<nat>)
    ensures |qs| == |ps| && forall i :: 0 <= i < |ps| ==> qs[i] == ps[i] + delta
  {
    seq(|ps|, i requires 0 <= i < |ps| => ps[i] + delta)
  }

  ghost function Archived(ms: seq<Member>): seq<Byte>
    requires Representable(ms)
  {
    ARMAG + IndexBytes(ms) + Body(ms)
  }

  // What is promised of an archive.

  lemma IndexNameRead()
    ensures |INDEX_NAME| == NAME_SIZE && IsIndex(INDEX_NAME)
  {
    StripSpaces([SLASH], 15);
    NoNul([SLASH]);
  }

  /** What is left for the reader after it has taken the index: the members, unless the index has a size of ten digits,
      of which it takes a tenth. */
  ghost function AfterIndex(ms: seq<Member>): seq<Byte>
    requires Representable(ms)
  {
    if Symbols(ms) == [] then Body(ms) else Left(IndexPayload(ms) + Body(ms), Taken(IndexSize(ms)))
  }

  /** From n bytes on, rounded up. */
  ghost function Left(t: seq<Byte>, n: nat): seq<Byte>
    requires n <= |t|
  {
    if n % 2 == 1 && t[n..] != [] then t[n..][1..] else t[n..]
  }

  lemma IndexRead(ms: seq<Member>)
    requires Representable(ms)
    ensures |Archived(ms)| >= 8 && Archived(ms)[..8] == ARMAG == [33, 60, 97, 114, 99, 104, 62, 10]
    ensures Parse(Archived(ms)[8..]) == Parse(AfterIndex(ms))
    ensures IndexSize(ms) < 1_000_000_000 ==> AfterIndex(ms) == Body(ms)
  {
    hide Parse, Body, IndexPayload, Header, IndexSize, IsIndex, Symbols;
    var i, b, n := IndexBytes(ms), Body(ms), IndexSize(ms);
    AfterMagic(i, b);
    if Symbols(ms) == [] {
      assert i + b == b;
    } else {
      IndexNameRead();
      var h, p := Header(INDEX_NAME, [ZERO], n), IndexPayload(ms);
      Assoc(h, p, b);
      ParseStep(INDEX_NAME, [ZERO], n, p + b, Taken(n));
      IndexEven(ms);
      assert (p + b)[n..] == b;
    }
  }

  /** Create, then list: with an index below 10^9 bytes every member comes back exactly when no size has ten
      digits and no name is empty; with any index only when no size has ten digits. */
  lemma RoundTrip(ms: seq<Member>)
    requires Representable(ms) && FileNames(ms)
    ensures IndexSize(ms) < 1_000_000_000 ==>
      (Parse(Archived(ms)[8..]) == Listing(Items(ms), Done) <==> NineDigits(ms) && AllNamed(ms))
    ensures Parse(Archived(ms)[8..]) == Listing(Items(ms), Done) ==> NineDigits(ms)
  {
    hide Parse, Body, IndexSize, Items, AllNamed, FileNames, AfterIndex, Archived;
    IndexRead(ms);
    BodyRead(ms);
    ItemSizes(ms, AfterIndex(ms));
  }

  /** Members whose names are equal in the first 15 characters are equal. */
  ghost predicate Clashless(ms: seq<Member>)
  {
    forall i, j :: 0 <= i < j < |ms| && Cut(ms[i].item.name) == Cut(ms[j].item.name) ==>
      ms[i].item.data == ms[j].item.data
  }

  lemma ClashlessIs(ms: seq<Member>)
    ensures Clashless(ms) <==> Agreeing(Items(ms))
  {
    KeptCount(ms);
    hide Items;
  }

  /** Create, then extract: with an index below 10^9 bytes every member has its file again exactly when no size has ten
      digits, no name is empty and no two different members share a name; with any index only then but for the empty
      names. */
  lemma ExtractRoundTrip(ms: seq<Member>)
    requires Representable(ms) && FileNames(ms)
    ensures var files := Extracted(Parse(Archived(ms)[8..]).items);
      && (IndexSize(ms) < 1_000_000_000 ==>
           (Restored(files, Items(ms)) <==> NineDigits(ms) && AllNamed(ms) && Clashless(ms)))
      && (Restored(files, Items(ms)) ==> NineDigits(ms) && Clashless(ms))
  {
    hide Parse, Body, IndexSize, AfterIndex, Archived, FileNames, Items;
    hide NineDigits, AllNamed, Clashless, Restored, Extracted;
    IndexRead(ms);
    FileSizes(ms, AfterIndex(ms));
    if NineDigits(ms) && IndexSize(ms) < 1_000_000_000 { KeptRestored(ms); }
  }

  /** What can be restored at all. */
  lemma FileSizes(ms: seq<Member>, b: seq<Byte>)
    ensures Restored(Extracted(Parse(b).items), Items(ms)) ==> NineDigits(ms) && Clashless(ms)
  {
    hide Parse, Items, Extracted;
    KeptCount(ms);
    ParsedSizes(b);
    var files := Extracted(Parse(b).items);
    if Restored(files, Items(ms)) {
      forall i | 0 <= i < |ms|
        ensures |ms[i].item.data| < 1_000_000_000
      {
        WrittenFrom(Parse(b).items, Items(ms)[i].name);
      }
      ClashlessIs(ms);
    }
  }

  lemma KeptRestored(ms: seq<Member>)
    requires AllAcceptable(ms) && FileNames(ms) && NineDigits(ms)
    ensures Restored(Extracted(Parse(Body(ms)).items), Items(ms)) <==> AllNamed(ms) && Clashless(ms)
  {
    hide Parse, Body, Items, AllKept, Extracted, NineDigits, AllAcceptable, FileNames;
    BodyKept(ms);
    KeptCount(ms);
    ClashlessIs(ms);
    RestoredIff(Items(ms));
    if !AllNamed(ms) {
      var i :| 0 <= i < |ms| && ms[i].item.name == [];
      assert Items(ms)[i].name == [];
      KeptNames(ms);
      if [] in Extracted(AllKept(ms)) { WrittenFrom(AllKept(ms), []); }
    }
  }

  lemma {:induction false} KeptNames(ms: seq<Member>)
    ensures forall x :: x in AllKept(ms) ==> x.name != []
  {
    if ms != [] { KeptNames(ms[1..]); }
  }

  /** Two files whose names are equal in the first 15 characters: both are listed, and one is lost on extraction. */
  lemma NameClash(n: seq<Byte>, o: seq<Byte>, d: seq<Byte>, e: seq<Byte>)
    requires FileName(n) && FileName(o) && n != [] && o != [] && Cut(n) == Cut(o)
    requires d != e && |d| < 1_000_000_000 && |e| < 1_000_000_000
    ensures var ms := [Member(Item(n, d), []), Member(Item(o, e), [])];
      && Fits(ms) && Representable(ms) && FileNames(ms) && NineDigits(ms) && AllNamed(ms)
      && Parse(Archived(ms)[8..]) == Listing(Items(ms), Done)
      && !Restored(Extracted(Parse(Archived(ms)[8..]).items), Items(ms))
  {
    var a, b := Member(Item(n, d), []), Member(Item(o, e), []);
    var ms := [a, b];
    TwoFiles(a, b);
    hide Parse, Items, Archived, Fits, Representable, IndexSize, Restored, Extracted;
    RoundTrip(ms);
    ExtractRoundTrip(ms);
    assert !Clashless(ms) by { assert Cut(ms[0].item.name) == Cut(ms[1].item.name); }
  }

  lemma TwoFiles(a: Member, b: Member)
    requires a.symbols == b.symbols == [] && |a.item.data| < 1_000_000_000 && |b.item.data| < 1_000_000_000
    ensures Fits([a, b]) && Representable([a, b]) && IndexSize([a, b]) == 4
  {
    hide Header, NameField;
    var ms := [a, b];
    NoSymbols(ms);
    assert ms[1..] == [b] && [b][1..] == [];
    assert Body([b]) == MemberBytes(b) + [] && Body(ms) == MemberBytes(a) + Body([b]);
  }

  lemma {:induction false} NoSymbols(ms: seq<Member>)
    requires forall i :: 0 <= i < |ms| ==> ms[i].symbols == []
    ensures Symbols(ms) == [] && IndexSize(ms) == 4
  {
    if ms != [] { NoSymbols(ms[..|ms| - 1]); }
    assert Symbols(ms) == [];
    assert Names(Symbols(ms)) == [];
  }

  /** One file with a symbol of 10^9 letters: nothing comes back. */
  lemma TenDigitIndex(name: seq<Byte>, data: seq<Byte>, symbol: seq<Byte>)
    requires |symbol| == 1_000_000_000 && forall i :: 0 <= i < |symbol| ==> symbol[i] == 97
    requires |data| <= 0x7fff_0000
    ensures var ms := [Member(Item(name, data), [symbol])];
      Fits(ms) && Representable(ms) && Parse(Archived(ms)[8..]) == Listing([], NotArchive)
  {
    var m := Member(Item(name, data), [symbol]);
    var ms := [m];
    OneSymbol(m, symbol);
    IndexRead(ms);
    var t := IndexPayload(ms) + Body(ms);
    hide Parse, IndexPayload, Body, Archived, Symbols, IndexSize, Representable, Fits;
    var r := Left(t, 100_000_001);
    assert r == t[100_000_002..];
    assert r[58] == t[100_000_060] == 97;
    BadMagic(r);
  }

  lemma BadMagic(b: seq<Byte>)
    requires |b| >= HEADER_SIZE && b[58] != 96
    ensures Parse(b) == Listing([], NotArchive)
  {
    hide SizeOf, IsIndex, NameOf, After;
    assert b[58..60][0] == b[58];
  }

  lemma OneSymbol(m: Member, symbol: seq<Byte>)
    requires m.symbols == [symbol] && |m.item.data| <= 0x7fff_0000 && |symbol| == 1_000_000_000
    requires forall i :: 0 <= i < |symbol| ==> symbol[i] == 97
    ensures Fits([m]) && Representable([m]) && Symbols([m]) == [symbol] && IndexSize([m]) == 1_000_000_010
    ensures forall i :: 8 <= i < 1_000_000_008 ==> IndexPayload([m])[i] == 97
  {
    hide Header, NameField, Be32, Offsets, BeWords;
    var ms := [m];
    assert ms[..0] == [] && ms[1..] == [];
    assert Body(ms) == MemberBytes(m) + [] && |MemberBytes(m)| <= HEADER_SIZE + |m.item.data| + 1;
    assert Symbols(ms) == [] + [symbol] == [symbol];
    assert Names([symbol]) == Names([]) + symbol + [0] by { assert [symbol][..0] == []; }
    assert Names([symbol]) == symbol + [0];
  }

  /** One file of 10^9 bytes: the writer takes it, the reader does not give it back. */
  lemma TenDigitMember(name: seq<Byte>, data: seq<Byte>)
    requires FileName(name) && name != [] && |data| == 1_000_000_000
    ensures var ms := [Member(Item(name, data), [])];
      && Fits(ms) && Representable(ms) && FileNames(ms) && AllNamed(ms) && IndexSize(ms) == 4
      && Parse(Archived(ms)[8..]) != Listing(Items(ms), Done)
      && !Restored(Extracted(Parse(Archived(ms)[8..]).items), Items(ms))
  {
    var m := Member(Item(name, data), []);
    var ms := [m];
    hide Parse, Items, Header, NameField, Archived, AllKept, Restored, Extracted;
    assert ms[..0] == [] && ms[1..] == [];
    assert Body(ms) == MemberBytes(m) + [] && |MemberBytes(m)| == HEADER_SIZE + |data|;
    assert Symbols(ms) == [] && Names([]) == [];
    RoundTrip(ms);
    ExtractRoundTrip(ms);
    assert !NineDigits(ms) by { assert |ms[0].item.data| >= 1_000_000_000; }
  }

  lemma AfterMagic(i: seq<Byte>, b: seq<Byte>)
    ensures (ARMAG + i + b)[..8] == ARMAG && (ARMAG + i + b)[8..] == i + b
  {}

  lemma IndexEven(ms: seq<Member>)
    ensures IndexSize(ms) % 2 == 0
  {
    hide Names, Symbols;
    var x, e := |Symbols(ms)| + 1, Even(|Names(Symbols(ms))|);
    assert 4 * x + e == 2 * (2 * x + e / 2);
  }

  lemma AcceptablePrefix(ms: seq<Member>, k: nat)
    requires AllAcceptable(ms) && k <= |ms|
    ensures AllAcceptable(ms[..k])
  {}

  lemma {:induction false} PositionOf(ms: seq<Member>, k: nat, j: nat)
    requires AllAcceptable(ms) && k < |ms| && j < |ms[k].symbols|
    ensures var i := |Symbols(ms[..k])| + j;
      i < |Symbols(ms)| && Symbols(ms)[i] == ms[k].symbols[j] && Positions(ms)[i] == |Body(ms[..k])|
    decreases |ms|
  {
    hide Body, AllAcceptable;
    var l := |ms| - 1;
    assert AllAcceptable(ms[..l]) by { AcceptablePrefix(ms, l); }
    if k < l {
      assert ms[..l][..k] == ms[..k];
      PositionOf(ms[..l], k, j);
    }
  }

  /** Entry i of the index is the file offset of the header of the member that defines symbol i. */
  lemma IndexPoints(ms: seq<Member>, k: nat, j: nat)
    requires Representable(ms) && k < |ms| && j < |ms[k].symbols|
    ensures var i, off := |Symbols(ms[..k])| + j, Start(ms) + |Body(ms[..k])|;
      && i < |Symbols(ms)| && Symbols(ms)[i] == ms[k].symbols[j]
      && 72 + 4 * i + 4 <= |Archived(ms)| && off + |MemberBytes(ms[k])| <= |Archived(ms)|
      && FromBe32(Archived(ms)[72 + 4 * i..72 + 4 * i + 4]) == off
      && Archived(ms)[off..off + |MemberBytes(ms[k])|] == MemberBytes(ms[k])
  {
    hide Body, Symbols, MemberBytes, Archived, Start, FromBe32;
    PositionOf(ms, k, j);
    MemberAt(ms, k);
    EntryAt(ms, |Symbols(ms[..k])| + j);
  }

  lemma MemberAt(ms: seq<Member>, k: nat)
    requires Representable(ms) && k < |ms| && Symbols(ms) != []
    ensures Start(ms) + |Body(ms[..k])| + |MemberBytes(ms[k])| <= |Archived(ms)|
    ensures var off := Start(ms) + |Body(ms[..k])|;
      Archived(ms)[off..off + |MemberBytes(ms[k])|] == MemberBytes(ms[k])
  {
    hide Body, MemberBytes, IndexBytes, Symbols, Start;
    BodySplit(ms, k);
    var i, a, m, c := IndexBytes(ms), Body(ms[..k]), MemberBytes(ms[k]), Body(ms[k + 1..]);
    assert ARMAG + i + (a + (m + c)) == (ARMAG + i) + (a + (m + c));
    Inside(ARMAG + i, a, m, c);
  }

  lemma BodySplit(ms: seq<Member>, k: nat)
    requires AllAcceptable(ms) && k < |ms|
    ensures Body(ms) == Body(ms[..k]) + (MemberBytes(ms[k]) + Body(ms[k + 1..]))
  {
    hide MemberBytes, Acceptable;
    var t := ms[k..];
    assert t[0] == ms[k] && t[1..] == ms[k + 1..] && ms == ms[..k] + t;
    BodyAppend(ms[..k], t);
  }

  lemma Inside(p: seq<Byte>, a: seq<Byte>, m: seq<Byte>, c: seq<Byte>)
    ensures (p + (a + (m + c)))[|p| + |a|..|p| + |a| + |m|] == m
  {}

  lemma Sizes(ms: seq<Member>)
    requires Representable(ms)
    ensures IndexSize(ms) < 0x8000_0000 && |Symbols(ms)| < 0x8000_0000
  {
    hide Symbols, Names, Body;
  }

  lemma OffsetIs(ms: seq<Member>, i: nat)
    requires Representable(ms) && i < |Symbols(ms)|
    ensures Offsets(ms)[i] == Positions(ms)[i] + Start(ms)
  {
    hide Symbols, Positions, Body, Start;
  }

  lemma EntryAt(ms: seq<Member>, i: nat)
    requires Representable(ms) && i < |Symbols(ms)|
    ensures 72 + 4 * i + 4 <= |Archived(ms)|
    ensures FromBe32(Archived(ms)[72 + 4 * i..72 + 4 * i + 4]) == Positions(ms)[i] + Start(ms)
  {
    hide Body, Symbols, MemberBytes, Start, Positions, Be32, FromBe32, Header, IndexSize, Names, Offsets, BeWords;
    Sizes(ms);
    var off := Offsets(ms)[i];
    OffsetIs(ms, i);
    WordAt(Offsets(ms), i);
    Be32Inverse(off);
    var h, c, ws := Header(INDEX_NAME, [ZERO], IndexSize(ms)), Be32(|Symbols(ms)|), BeWords(Offsets(ms));
    var r := Names(Symbols(ms)) + Pad(|Names(Symbols(ms))|);
    EntrySlice(ARMAG, h, c, ws, r, Body(ms), 4 * i);
  }

  lemma EntrySlice(g: seq<Byte>, h: seq<Byte>, c: seq<Byte>, w: seq<Byte>, r: seq<Byte>, b: seq<Byte>, i: nat)
    requires |g| == 8 && |h| == HEADER_SIZE && |c| == 4 && i + 4 <= |w|
    ensures var a := g + (h + (c + w + r)) + b;
      72 + i + 4 <= |a| && a[72 + i..72 + i + 4] == w[i..i + 4]
  {
    var p := g + h + c;
    assert g + (h + (c + w + r)) + b == p + (w + (r + b));
    assert (p + (w + (r + b)))[|p| + i..|p| + i + 4] == w[i..i + 4];
  }

  // Writing.

  datatype Input = Input(path: seq<Byte>, data: seq<Byte>, symbols: seq<seq<Byte>>)

  predicate Separator(b: Byte) { b == SLASH || b == 92 }

  ghost function Base(path: seq<Byte>): seq<Byte>
  {
    if path == [] || Separator(path[|path| - 1]) then [] else Base(path[..|path| - 1]) + [path[|path| - 1]]
  }

  /** The part after the last separator. */
  method BaseOf(path: seq<Byte>) returns (name: seq<Byte>)
    ensures name == Base(path)
    ensures |name| <= |path| && name == path[|path| - |name|..]
    ensures forall i :: 0 <= i < |name| ==> name[i] != 47 && name[i] != 92
    ensures |name| < |path| ==> var c := path[|path| - |name| - 1]; c == 47 || c == 92
  {
    var n := |path|;
    assert path[..n] == path && path[n..] == [];
    while n > 0 && !Separator(path[n - 1])
      invariant 0 <= n <= |path| && Base(path) == Base(path[..n]) + path[n..]
      invariant forall i :: n <= i < |path| ==> !Separator(path[i])
    {
      BaseStep(path, n);
      n := n - 1;
    }
    name := path[n..];
  }

  lemma BaseStep(path: seq<Byte>, n: nat)
    requires 0 < n <= |path| && !Separator(path[n - 1])
    ensures Base(path[..n]) + path[n..] == Base(path[..n - 1]) + path[n - 1..]
  {
    assert path[..n][..n - 1] == path[..n - 1] && path[n - 1..] == [path[n - 1]] + path[n..];
    assert (Base(path[..n - 1]) + [path[n - 1]]) + path[n..] == Base(path[..n - 1]) + ([path[n - 1]] + path[n..]);
  }

  ghost function MemberOf(i: Input): Member { Member(Item(Base(i.path), i.data), i.symbols) }

  ghost function Members(ins: seq<Input>): (ms: seq<Member>)
    ensures |ms| == |ins| && forall i :: 0 <= i < |ins| ==> ms[i] == MemberOf(ins[i])
  {
    seq(|ins|, i requires 0 <= i < |ins| => MemberOf(ins[i]))
  }

  /** One member: its header, its contents, and a NUL when the position is odd. */
  method WriteMember(i: Input, fpos: nat) returns (b: seq<Byte>, fpos': nat)
    requires |i.data| <= 0x7fff_fffe && fpos % 2 == 0
    ensures Acceptable(MemberOf(i)) && b == MemberBytes(MemberOf(i)) && fpos' == fpos + |b| && fpos' % 2 == 0
  {
    hide Header, NameField, MemberBytes, Base;
    var name := BaseOf(i.path);
    b := Header(NameField(name), MODE, |i.data|) + i.data;
    WrittenIs(i, b);
    fpos' := fpos + |i.data| + HEADER_SIZE;
    Parity(fpos, |i.data|);
    if fpos' % 2 == 1 {
      b := b + [0];
      fpos' := fpos' + 1;
    } else {
      assert b + [] == b;
    }
  }

  lemma WrittenIs(i: Input, b: seq<Byte>)
    requires |i.data| <= 0x7fff_fffe && b == Header(NameField(Base(i.path)), MODE, |i.data|) + i.data
    ensures |b| == HEADER_SIZE + |i.data| && MemberBytes(MemberOf(i)) == b + Pad(|i.data|)
  {
    hide Header, NameField, Base;
  }

  lemma Parity(fpos: nat, n: nat)
    requires fpos % 2 == 0
    ensures (fpos + n + HEADER_SIZE) % 2 == n % 2
    ensures n % 2 == 1 ==> (fpos + n + HEADER_SIZE + 1) % 2 == 0
  {
    DivUnique(fpos + n + HEADER_SIZE, 2, fpos / 2 + n / 2 + 30, n % 2);
    if n % 2 == 1 { DivUnique(fpos + n + HEADER_SIZE + 1, 2, fpos / 2 + n / 2 + 31, 0); }
  }

  /** The names and positions of one member's symbols. */
  method AddSymbols(ss: seq<seq<Byte>>, names: seq<Byte>, afpos: seq<nat>, fpos: nat, ghost before: seq<seq<Byte>>)
    returns (names': seq<Byte>, afpos': seq<nat>)
    requires names == Names(before)
    ensures names' == Names(before + ss) && afpos' == afpos + Repeated(fpos, |ss|)
  {
    hide Names, Repeated;
    names', afpos' := names, afpos;
    NoneAdded(before, ss, afpos, fpos);
    for j := 0 to |ss|
      invariant names' == Names(before + ss[..j]) && afpos' == afpos + Repeated(fpos, j)
    {
      OneAdded(before, ss, afpos, fpos, j);
      names' := names' + ss[j] + [0];
      afpos' := afpos' + [fpos];
    }
    assert ss[..|ss|] == ss;
  }

  lemma NoneAdded(before: seq<seq<Byte>>, ss: seq<seq<Byte>>, afpos: seq<nat>, fpos: nat)
    ensures before + ss[..0] == before && afpos + Repeated(fpos, 0) == afpos
  {}

  lemma OneAdded(before: seq<seq<Byte>>, ss: seq<seq<Byte>>, afpos: seq<nat>, fpos: nat, j: nat)
    requires j < |ss|
    ensures Names(before + ss[..j + 1]) == Names(before + ss[..j]) + ss[j] + [0]
    ensures afpos + Repeated(fpos, j + 1) == afpos + Repeated(fpos, j) + [fpos]
  {
    var t := before + ss[..j];
    assert before + ss[..j + 1] == t + [ss[j]] && (t + [ss[j]])[..|t|] == t;
    assert Repeated(fpos, j + 1) == Repeated(fpos, j) + [fpos];
  }

  /** The count and the offsets, each swapped before it is written. */
  method WriteOffsets(afpos: seq<nat>, hofs: nat) returns (b: seq<Byte>)
    requires |afpos| < 0x1_0000_0000 && forall i :: 0 <= i < |afpos| ==> afpos[i] + hofs < 0x1_0000_0000
    ensures b == Be32(|afpos|) + BeWords(Shifted(afpos, hofs))
  {
    SwappedInMemory(|afpos|);
    b := Le32(Swapped(|afpos|));
    ghost var q := Shifted(afpos, hofs);
    assert q[..0] == [];
    for i := 0 to |afpos|
      invariant b == Be32(|afpos|) + BeWords(q[..i])
    {
      assert q[..i + 1][..i] == q[..i];
      SwappedInMemory(afpos[i] + hofs);
      b := b + Le32(Swapped(afpos[i] + hofs));
    }
    assert q[..|afpos|] == q;
  }

  /** tcc -ar c: fails on inputs that are too large, singly or together, else writes the archive. */
  method WriteArchive(ins: seq<Input>) returns (ok: bool, file: seq<Byte>)
    requires Fits(Members(ins)) ==> Representable(Members(ins))
    ensures ok <==> Fits(Members(ins))
    ensures ok ==> file == Archived(Members(ins))
  {
    ghost var ms := Members(ins);
    var body: seq<Byte>, names: seq<Byte>, afpos: seq<nat>, fpos := [], [], [], 0;
    file := [];
    assert ms[..0] == [];
    hide MemberBytes, Body, Names, Symbols, Positions, Archived;
    Nothing();
    for i := 0 to |ins|
      invariant AllAcceptable(ms[..i]) && fpos == |body| && fpos % 2 == 0
      invariant body == Body(ms[..i]) && names == Names(Symbols(ms[..i])) && afpos == Positions(ms[..i])
    {
      if |ins[i].data| > 0x7fff_fffe {
        assert !Acceptable(ms[i]);
        return false, [];
      }
      assert Acceptable(ms[i]);
      Longer(ms, i);
      names, afpos := AddSymbols(ins[i].symbols, names, afpos, fpos, Symbols(ms[..i]));
      var b;
      b, fpos := WriteMember(ins[i], fpos);
      body := body + b;
    }
    assert ms[..|ins|] == ms;
    if |body| > 0x7fff_fffe {
      return false, [];
    }
    ok := true;
    file := WriteFile(body, names, afpos, ms);
  }

  lemma Nothing()
    ensures Body([]) == [] && Names(Symbols([])) == [] && Positions([]) == []
  {}

  lemma Longer(ms: seq<Member>, i: nat)
    requires i < |ms| && AllAcceptable(ms[..i]) && Acceptable(ms[i])
    ensures AllAcceptable(ms[..i + 1]) && Body(ms[..i + 1]) == Body(ms[..i]) + MemberBytes(ms[i])
    ensures Symbols(ms[..i + 1]) == Symbols(ms[..i]) + ms[i].symbols
    ensures Positions(ms[..i + 1]) == Positions(ms[..i]) + Repeated(|Body(ms[..i])|, |ms[i].symbols|)
  {
    hide MemberBytes;
    assert ms[..i + 1][..i] == ms[..i] && ms[..i + 1] == ms[..i] + [ms[i]];
    assert [ms[i]][1..] == [] && MemberBytes(ms[i]) + [] == MemberBytes(ms[i]);
    BodyAppend(ms[..i], [ms[i]]);
  }

  /** Magic number, index if there are symbols, members. */
  method WriteFile(body: seq<Byte>, names: seq<Byte>, afpos: seq<nat>, ghost ms: seq<Member>) returns (file: seq<Byte>)
    requires Representable(ms) && body == Body(ms) && names == Names(Symbols(ms)) && afpos == Positions(ms)
    ensures file == Archived(ms)
  {
    hide Header, BeWords, Names, Symbols, Positions, Body;
    var n := |names| + 4 * (|afpos| + 1);
    var hofs, pad := 8 + HEADER_SIZE + n, 0;
    HofsIs(|names|, |afpos|);
    if hofs % 2 == 1 {
      hofs, pad := hofs + 1, 1;
    }
    assert hofs == Start(ms) && n + pad == IndexSize(ms);
    file := ARMAG;
    if |afpos| > 0 {
      hide Start, IndexSize;
      var words := WriteOffsets(afpos, hofs);
      Reassoc(ARMAG, Header(INDEX_NAME, [ZERO], IndexSize(ms)), words, names, Pad(|names|));
      file := file + Header(INDEX_NAME, [ZERO], n + pad) + words + names;
      if pad == 1 { file := file + [0]; }
    }
    assert file == ARMAG + IndexBytes(ms);
    file := file + body;
  }

  lemma HofsIs(names: nat, count: nat)
    ensures (8 + HEADER_SIZE + names + 4 * (count + 1)) % 2 == names % 2
  {
    var n := 8 + HEADER_SIZE + names + 4 * (count + 1);
    DivUnique(n, 2, 36 + 2 * count + names / 2, names % 2);
  }

  lemma Reassoc(g: seq<Byte>, h: seq<Byte>, w: seq<Byte>, n: seq<Byte>, p: seq<Byte>)
    ensures g + h + w + n + p == g + (h + (w + (n + p)))
    ensures p == [] ==> g + h + w + n == g + h + w + n + p
  {}

  lemma {:induction false} BaseIsName(path: seq<Byte>)
    requires 0 !in path
    ensures FileName(Base(path))
  {
    if path != [] && !Separator(path[|path| - 1]) {
      assert path[|path| - 1] in path;
      BaseIsName(path[..|path| - 1]);
    }
  }

  lemma NamesOf(ins: seq<Input>)
    requires forall i :: 0 <= i < |ins| ==> 0 !in ins[i].path
    ensures FileNames(Members(ins))
  {
    forall i | 0 <= i < |ins|
      ensures FileName(Base(ins[i].path))
    {
      BaseIsName(ins[i].path);
    }
  }

  /** tcc -ar c, then x; the names printed are those of t. */
  method CreateAndRead(ins: seq<Input>)
    returns (ok: bool, items: seq<Item>, files: map<seq<Byte>, seq<Byte>>, status: Status)
    requires forall i :: 0 <= i < |ins| ==> 0 !in ins[i].path
    requires Fits(Members(ins)) ==> Representable(Members(ins))
    ensures ok <==> Fits(Members(ins))
    ensures ok && IndexSize(Members(ins)) < 1_000_000_000 ==>
      (Listing(items, status) == Listing(Items(Members(ins)), Done) <==> NineDigits(Members(ins)) && AllNamed(Members(ins)))
    ensures ok && IndexSize(Members(ins)) < 1_000_000_000 ==>
      (Restored(files, Items(Members(ins))) <==>
        NineDigits(Members(ins)) && AllNamed(Members(ins)) && Clashless(Members(ins)))
  {
    hide *;
    var file;
    ok, file := WriteArchive(ins);
    items, files, status := [], map[], NotArchive;
    if ok {
      ghost var ms := Members(ins);
      assert Representable(ms);
      NamesOf(ins);
      IndexRead(ms);
      RoundTrip(ms);
      ExtractRoundTrip(ms);
      items, files, status := ReadArchive(file, true, map[]);
      assert map[] + Extracted(items) == Extracted(items);
    }
  }
}
