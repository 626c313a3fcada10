/** Flattening of the predefine text (gen_predef_table.c) and what the compiler does with the entries
    (source/frontend/tccpp.c). */
module Predefines {
  import opened Words
  import opened HashIndex

  type Name = seq<Byte>

  datatype Line = Define(name: Name, body: string) | Ifndef(name: Name) | IfdefUnderscore | IfVersion | Else | Endif

  datatype Flag = Always | C11 | LeadingUs | NoLeadingUs

  datatype Entry = Entry(name: Name, body: string, flag: Flag)

  /** The two options only known at run time. */
  datatype Options = Options(c11: bool, underscore: bool)

  /** predef_entry_active */
  predicate Active(f: Flag, o: Options)
  {
    match f
    case Always => true
    case C11 => o.c11
    case LeadingUs => o.underscore
    case NoLeadingUs => !o.underscore
  }

  // The text, line by line.

  /** Macros so far, and the open conditionals with their values. */
  datatype Reading = Reading(macros: map<Name, string>, open: seq<bool>)

  predicate Live(open: seq<bool>) { forall i :: 0 <= i < |open| ==> open[i] }

  function Read(o: Options, r: Reading, line: Line): Reading
  {
    match line
    case Define(n, b) => if Live(r.open) then r.(macros := r.macros[n := b]) else r
    case Ifndef(n) => r.(open := r.open + [n !in r.macros])
    case IfdefUnderscore => r.(open := r.open + [o.underscore])
    case IfVersion => r.(open := r.open + [o.c11])
    case Else => if r.open == [] then r else r.(open := r.open[..|r.open| - 1] + [!r.open[|r.open| - 1]])
    case Endif => if r.open == [] then r else r.(open := r.open[..|r.open| - 1])
  }

  ghost function ReadAll(o: Options, text: seq<Line>): Reading
  {
    if text == [] then Reading(map[], []) else Read(o, ReadAll(o, text[..|text| - 1]), text[|text| - 1])
  }

  // The generator.

  datatype Flattening = Flattening(entries: seq<Entry>, flag: Flag, skipping: bool)

  predicate DefinedEarlier(es: seq<Entry>, name: Name) { exists i :: 0 <= i < |es| && es[i].name == name }

  function FlattenLine(g: Flattening, line: Line): Flattening
  {
    match line
    case Define(n, b) => if g.skipping then g else g.(entries := g.entries + [Entry(n, b, g.flag)])
    case Ifndef(n) => g.(skipping := DefinedEarlier(g.entries, n))
    case IfdefUnderscore => g.(flag := LeadingUs)
    case IfVersion => g.(flag := C11)
    case Else => if g.flag == LeadingUs then g.(flag := NoLeadingUs) else g.(skipping := !g.skipping)
    case Endif => g.(skipping := false, flag := Always)
  }

  ghost function FlattenAll(text: seq<Line>): Flattening
  {
    if text == [] then Flattening([], Always, false)
    else FlattenLine(FlattenAll(text[..|text| - 1]), text[|text| - 1])
  }

  /** Conditionals opened less conditionals closed. */
  ghost function Depth(text: seq<Line>): int
  {
    if text == [] then 0 else Depth(text[..|text| - 1]) + Opens(text[|text| - 1])
  }

  function Opens(line: Line): int
  {
    match line
    case Ifndef(_) => 1
    case IfdefUnderscore => 1
    case IfVersion => 1
    case Endif => -1
    case _ => 0
  }

  const MAX_ENTRIES: nat := 512

  /** The loop of main; it gives up when the entry table is full or the conditionals do not balance. */
  method Flatten(text: seq<Line>) returns (ok: bool, entries: seq<Entry>)
    ensures ok <==> |FlattenAll(text).entries| <= 512 && Depth(text) == 0
    ensures ok ==> entries == FlattenAll(text).entries
  {
    entries := [];
    var flag, skipping, depth := Always, false, 0;
    for i := 0 to |text|
      invariant FlattenAll(text[..i]) == Flattening(entries, flag, skipping) && |entries| <= MAX_ENTRIES
      invariant depth == Depth(text[..i])
    {
      assert text[..i + 1][..i] == text[..i];
      match text[i]
      case Define(n, b) =>
        if !skipping {
          if |entries| >= MAX_ENTRIES {
            EntriesGrow(text, i + 1);
            return false, entries;
          }
          entries := entries + [Entry(n, b, flag)];
        }
      case Ifndef(n) =>
        skipping := FindName(entries, n);
        depth := depth + 1;
      case IfdefUnderscore =>
        flag := LeadingUs;
        depth := depth + 1;
      case IfVersion =>
        flag := C11;
        depth := depth + 1;
      case Else =>
        if flag == LeadingUs { flag := NoLeadingUs; } else { skipping := !skipping; }
      case Endif =>
        skipping, flag := false, Always;
        depth := depth - 1;
    }
    assert text[..|text|] == text;
    ok := depth == 0;
  }

  /** defined_earlier */
  method FindName(es: seq<Entry>, name: Name) returns (found: bool)
    ensures found <==> DefinedEarlier(es, name)
  {
    for i := 0 to |es|
      invariant forall k :: 0 <= k < i ==> es[k].name != name
    {
      if es[i].name == name { return true; }
    }
    return false;
  }

  lemma {:induction false} EntriesGrow(text: seq<Line>, i: nat)
    requires i <= |text|
    ensures |FlattenAll(text[..i]).entries| <= |FlattenAll(text).entries|
    decreases |text| - i
  {
    if i < |text| {
      assert text[..i + 1][..i] == text[..i];
      EntriesGrow(text, i + 1);
    } else {
      assert text[..i] == text;
    }
  }

  // Same meaning.

  /** The macros that the active entries define, a later one replacing an earlier one. */
  ghost function ActiveMap(es: seq<Entry>, o: Options): map<Name, string>
  {
    if es == [] then map[] else
      var m, e := ActiveMap(es[..|es| - 1], o), es[|es| - 1];
      if Active(e.flag, o) then m[e.name := e.body] else m
  }

  lemma ActiveMapAppend(es: seq<Entry>, e: Entry, o: Options)
    ensures ActiveMap(es + [e], o) == if Active(e.flag, o) then ActiveMap(es, o)[e.name := e.body] else ActiveMap(es, o)
  {
    assert (es + [e])[..|es|] == es;
  }

  // When the generator may decide a guard.

  predicate Has(es: seq<Entry>, name: Name, f: Flag)
  {
    exists i :: 0 <= i < |es| && es[i].name == name && es[i].flag == f
  }

  /** The name is in no entry, in an unflagged one, or in both underscore arms. */
  predicate Settled(es: seq<Entry>, name: Name)
  {
    !DefinedEarlier(es, name) || Has(es, name, Always) || (Has(es, name, LeadingUs) && Has(es, name, NoLeadingUs))
  }

  /** A name is defined when it has an active entry. */
  lemma {:induction false} DefinedWhen(es: seq<Entry>, name: Name, o: Options)
    ensures name in ActiveMap(es, o) <==> exists i :: 0 <= i < |es| && es[i].name == name && Active(es[i].flag, o)
  {
    if es != [] {
      var k := |es| - 1;
      DefinedWhen(es[..k], name, o);
      assert es == es[..k] + [es[k]];
      assert forall i :: 0 <= i < k ==> es[..k][i] == es[i];
    }
  }

  /** Whether a name has an entry says whether it is defined, under every setting of the options, exactly for settled
      names. */
  lemma GuardDecidable(es: seq<Entry>, name: Name)
    ensures (forall o :: DefinedEarlier(es, name) <==> name in ActiveMap(es, o)) <==> Settled(es, name)
  {
    forall o
      ensures name in ActiveMap(es, o) <==> exists i :: 0 <= i < |es| && es[i].name == name && Active(es[i].flag, o)
    {
      DefinedWhen(es, name, o);
    }
    if Settled(es, name) {
      forall o
        ensures DefinedEarlier(es, name) <==> name in ActiveMap(es, o)
      {
        SettledDefined(es, name, o);
      }
    } else {
      var o := Options(false, !Has(es, name, LeadingUs));
      assert name !in ActiveMap(es, o);
    }
  }

  lemma SettledDefined(es: seq<Entry>, name: Name, o: Options)
    requires Settled(es, name)
    ensures DefinedEarlier(es, name) <==> name in ActiveMap(es, o)
  {
    DefinedWhen(es, name, o);
    if Has(es, name, Always) {
      var i :| 0 <= i < |es| && es[i].name == name && es[i].flag == Always;
    } else if DefinedEarlier(es, name) {
      var f := if o.underscore then LeadingUs else NoLeadingUs;
      var i :| 0 <= i < |es| && es[i].name == name && es[i].flag == f;
    }
  }

  // Line by line.

  /** Where a line stands: outside, or in one arm of a group of one of the three kinds. */
  datatype Place = Outside | InName | InNameElse | InUs | InUsElse | InVersion | InVersionElse | Bad

  function Enter(p: Place, line: Line): Place
  {
    match line
    case Define(_, _) => p
    case Ifndef(_) => if p == Outside then InName else Bad
    case IfdefUnderscore => if p == Outside then InUs else Bad
    case IfVersion => if p == Outside then InVersion else Bad
    case Else =>
      if p == InName then InNameElse else if p == InUs then InUsElse else if p == InVersion then InVersionElse else Bad
    case Endif => if p == Outside || p == Bad then Bad else Outside
  }

  ghost function PlaceOf(text: seq<Line>): Place
  {
    if text == [] then Outside else Enter(PlaceOf(text[..|text| - 1]), text[|text| - 1])
  }

  /** Groups of the three kinds, each with at most one #else, none inside another. */
  ghost predicate Shaped(text: seq<Line>)
  {
    forall i :: 0 <= i <= |text| ==> PlaceOf(text[..i]) != Bad
  }

  /** The depth counts the open group. */
  lemma {:induction false} DepthIs(text: seq<Line>)
    requires Shaped(text)
    ensures Depth(text) == if PlaceOf(text) == Outside then 0 else 1
  {
    if text != [] {
      var k := |text| - 1;
      ShapedPrefix(text, k);
      DepthIs(text[..k]);
      assert text[..k + 1] == text && PlaceOf(text[..k]) != Bad && PlaceOf(text[..k + 1]) != Bad;
    }
  }

  /** How many definitions a text has. */
  ghost function Definitions(text: seq<Line>): nat
  {
    if text == [] then 0 else Definitions(text[..|text| - 1]) + if text[|text| - 1].Define? then 1 else 0
  }

  lemma {:induction false} AtMostDefinitions(text: seq<Line>)
    ensures |FlattenAll(text).entries| <= Definitions(text)
  {
    if text != [] { AtMostDefinitions(text[..|text| - 1]); }
  }

  /** Of texts of the three kinds of group the generator accepts all with every group closed and at most 512 definitions,
      and none with a group left open. */
  method FlattenShaped(text: seq<Line>) returns (ok: bool, entries: seq<Entry>)
    requires Shaped(text)
    ensures PlaceOf(text) == Outside && Definitions(text) <= 512 ==> ok
    ensures PlaceOf(text) != Outside ==> !ok
    ensures ok ==> entries == FlattenAll(text).entries
  {
    DepthIs(text);
    AtMostDefinitions(text);
    ok, entries := Flatten(text);
  }

  /** What position alone says of generator and reader. */
  ghost predicate Tracks(o: Options, p: Place, g: Flattening, open: seq<bool>)
  {
    match p
    case Outside => !g.skipping && g.flag == Always && open == []
    case InName => g.flag == Always && |open| == 1
    case InNameElse => g.flag == Always && |open| == 1
    case InUs => !g.skipping && g.flag == LeadingUs && open == [o.underscore]
    case InUsElse => !g.skipping && g.flag == NoLeadingUs && open == [!o.underscore]
    case InVersion => !g.skipping && g.flag == C11 && open == [o.c11]
    case InVersionElse => g.skipping && g.flag == C11 && open == [!o.c11]
    case Bad => true
  }

  /** Generator and reader in step: the same macros so far, and a definition here would count for both or neither. */
  ghost predicate InStep(o: Options, g: Flattening, r: Reading)
  {
    && r.macros == ActiveMap(g.entries, o)
    && (Live(r.open) <==> !g.skipping && Active(g.flag, o))
  }

  /** ... after every line, under every setting of the options. */
  ghost predicate AlwaysInStep(text: seq<Line>)
  {
    forall o, i :: 0 <= i <= |text| ==> InStep(o, FlattenAll(text[..i]), ReadAll(o, text[..i]))
  }

  /** The two limits: no #else on a version test, and every #ifndef asks for a name that is settled by then. */
  ghost predicate Limited(text: seq<Line>)
  {
    && (forall i :: 0 <= i <= |text| ==> PlaceOf(text[..i]) != InVersionElse)
    && (forall i :: 0 <= i < |text| && text[i].Ifndef? ==> Settled(FlattenAll(text[..i]).entries, text[i].name))
  }

  ghost predicate Documented(text: seq<Line>) { Shaped(text) && Limited(text) }

  lemma LiveIs(open: seq<bool>)
    ensures |open| == 0 ==> Live(open)
    ensures |open| == 1 ==> (Live(open) <==> open[0])
  {}

  lemma TracksLine(o: Options, p: Place, g: Flattening, r: Reading, line: Line)
    requires Tracks(o, p, g, r.open) && Enter(p, line) != Bad && p != Bad
    ensures Tracks(o, Enter(p, line), FlattenLine(g, line), Read(o, r, line).open)
  {
    hide DefinedEarlier, Live;
  }

  lemma {:induction false} TracksAll(o: Options, text: seq<Line>)
    requires Shaped(text)
    ensures Tracks(o, PlaceOf(text), FlattenAll(text), ReadAll(o, text).open)
  {
    if text != [] {
      var k := |text| - 1;
      ShapedPrefix(text, k);
      TracksAll(o, text[..k]);
      assert text[..k + 1] == text && PlaceOf(text[..k]) != Bad && PlaceOf(text[..k + 1]) != Bad;
      TracksLine(o, PlaceOf(text[..k]), FlattenAll(text[..k]), ReadAll(o, text[..k]), text[k]);
    }
  }

  lemma ShapedPrefix(text: seq<Line>, k: nat)
    requires Shaped(text) && k <= |text|
    ensures Shaped(text[..k])
  {
    assert forall i :: 0 <= i <= k ==> text[..k][..i] == text[..i];
  }

  /** One line keeps them in step, unless it is the #else or the #ifndef of the two limits. */
  lemma StepTogether(o: Options, p: Place, g: Flattening, r: Reading, line: Line)
    requires Tracks(o, p, g, r.open) && InStep(o, g, r)
    requires p != Bad && Enter(p, line) != Bad && Enter(p, line) != InVersionElse
    requires line.Ifndef? ==> Settled(g.entries, line.name)
    ensures InStep(o, FlattenLine(g, line), Read(o, r, line))
  {
    hide ActiveMap, DefinedEarlier, Settled;
    LiveIs(r.open);
    LiveIs(Read(o, r, line).open);
    match line
    case Define(n, b) => ActiveMapAppend(g.entries, Entry(n, b, g.flag), o);
    case Ifndef(n) => SettledDefined(g.entries, n, o);
    case IfdefUnderscore =>
    case IfVersion =>
    case Else =>
    case Endif =>
  }

  lemma {:induction false} StaysInStep(text: seq<Line>, o: Options)
    requires Documented(text)
    ensures InStep(o, FlattenAll(text), ReadAll(o, text))
  {
    if text != [] {
      var k := |text| - 1;
      var t := text[..k];
      assert text[..k + 1] == text;
      DocumentedPrefix(text, k);
      StaysInStep(t, o);
      TracksAll(o, t);
      assert PlaceOf(text[..k]) != Bad && PlaceOf(text[..k + 1]) != Bad && PlaceOf(text[..k + 1]) != InVersionElse;
      StepTogether(o, PlaceOf(t), FlattenAll(t), ReadAll(o, t), text[k]);
    } else {
      LiveIs([]);
    }
  }

  lemma DocumentedPrefix(text: seq<Line>, k: nat)
    requires Documented(text) && k <= |text|
    ensures Documented(text[..k])
  {
    ShapedPrefix(text, k);
    assert forall i :: 0 <= i <= k ==> text[..k][..i] == text[..i];
  }

  /** The #else of a version test parts them when the version is old. */
  lemma ElseParts(text: seq<Line>, i: nat)
    requires Shaped(text) && i <= |text| && PlaceOf(text[..i]) == InVersionElse
    ensures !AlwaysInStep(text)
  {
    var o := Options(false, false);
    ShapedPrefix(text, i);
    TracksAll(o, text[..i]);
    LiveIs(ReadAll(o, text[..i]).open);
    assert !InStep(o, FlattenAll(text[..i]), ReadAll(o, text[..i]));
  }

  /** The #ifndef of a name that is not settled parts them under some setting. */
  lemma GuardParts(text: seq<Line>, i: nat)
    requires Shaped(text) && i < |text| && text[i].Ifndef? && !Settled(FlattenAll(text[..i]).entries, text[i].name)
    ensures !AlwaysInStep(text)
  {
    var es, n := FlattenAll(text[..i]).entries, text[i].name;
    GuardDecidable(es, n);
    var o :| !(DefinedEarlier(es, n) <==> n in ActiveMap(es, o));
    if InStep(o, FlattenAll(text[..i]), ReadAll(o, text[..i])) {
      ShapedPrefix(text, i);
      TracksAll(o, text[..i]);
      assert text[..i + 1][..i] == text[..i] && PlaceOf(text[..i + 1]) != Bad && PlaceOf(text[..i]) == Outside;
      LiveIs(ReadAll(o, text[..i + 1]).open);
      assert !InStep(o, FlattenAll(text[..i + 1]), ReadAll(o, text[..i + 1]));
    }
  }

  /** On texts of the three shapes the generator is right, line by line and under every setting of the options, exactly
      within the two limits. */
  lemma InStepIff(text: seq<Line>)
    requires Shaped(text)
    ensures AlwaysInStep(text) <==> Limited(text)
  {
    if Limited(text) {
      forall o, i | 0 <= i <= |text|
        ensures InStep(o, FlattenAll(text[..i]), ReadAll(o, text[..i]))
      {
        DocumentedPrefix(text, i);
        StaysInStep(text[..i], o);
      }
    } else if i :| 0 <= i <= |text| && PlaceOf(text[..i]) == InVersionElse {
      ElseParts(text, i);
    } else {
      var i :| 0 <= i < |text| && text[i].Ifndef? && !Settled(FlattenAll(text[..i]).entries, text[i].name);
      GuardParts(text, i);
    }
  }

  /** Flattening keeps the meaning of every documented text under every setting of the options. */
  lemma FlatteningPreservesMeaning(text: seq<Line>, o: Options)
    requires Documented(text)
    ensures ReadAll(o, text).macros == ActiveMap(FlattenAll(text).entries, o)
  {
    StaysInStep(text, o);
  }

  // What the three kinds of group mean.

  lemma ThreeLines(o: Options, t: seq<Line>, a: Line, b: Line, c: Line)
    ensures ReadAll(o, t + [a, b, c]) == Read(o, Read(o, Read(o, ReadAll(o, t), a), b), c)
  {
    hide ReadAll, Read, FlattenAll, FlattenLine;
    Snoc(o, t, a);
    Snoc(o, t + [a], b);
    Snoc(o, t + [a] + [b], c);
    assert t + [a] + [b] + [c] == t + [a, b, c];
  }

  /** Outside any group: a guarded definition takes effect exactly when the name has none yet. */
  lemma GuardedDefinition(o: Options, t: seq<Line>, n: Name, b: string)
    requires ReadAll(o, t).open == []
    ensures var m := ReadAll(o, t).macros;
      ReadAll(o, t + [Ifndef(n), Define(n, b), Endif]) == Reading(if n in m then m else m[n := b], [])
  {
    hide ReadAll;
    ThreeLines(o, t, Ifndef(n), Define(n, b), Endif);
    LiveIs(Read(o, ReadAll(o, t), Ifndef(n)).open);
  }

  /** ... one for the newer version exactly when that is chosen, */
  lemma VersionDefinition(o: Options, t: seq<Line>, n: Name, b: string)
    requires ReadAll(o, t).open == []
    ensures var m := ReadAll(o, t).macros;
      ReadAll(o, t + [IfVersion, Define(n, b), Endif]) == Reading(if o.c11 then m[n := b] else m, [])
  {
    hide ReadAll;
    ThreeLines(o, t, IfVersion, Define(n, b), Endif);
    LiveIs(Read(o, ReadAll(o, t), IfVersion).open);
  }

  /** ... and of two arms the one the underscore option chooses. */
  lemma UnderscoreDefinition(o: Options, t: seq<Line>, n: Name, a: string, b: string)
    requires ReadAll(o, t).open == []
    ensures ReadAll(o, t + [IfdefUnderscore, Define(n, a), Else] + [Define(n, b), Endif])
         == Reading(ReadAll(o, t).macros[n := if o.underscore then a else b], [])
  {
    hide ReadAll;
    var u, m := t + [IfdefUnderscore, Define(n, a), Else], ReadAll(o, t).macros;
    FirstArm(o, t, n, a);
    Snoc(o, u, Define(n, b));
    Snoc(o, u + [Define(n, b)], Endif);
    LiveIs([!o.underscore]);
    assert u + [Define(n, b)] + [Endif] == u + [Define(n, b), Endif];
    assert m[n := a][n := b] == m[n := b];
  }

  lemma FirstArm(o: Options, t: seq<Line>, n: Name, a: string)
    requires ReadAll(o, t).open == []
    ensures var m := ReadAll(o, t).macros;
      ReadAll(o, t + [IfdefUnderscore, Define(n, a), Else])
        == Reading(if o.underscore then m[n := a] else m, [!o.underscore])
  {
    hide ReadAll;
    ThreeLines(o, t, IfdefUnderscore, Define(n, a), Else);
    LiveIs([o.underscore]);
    assert [] + [o.underscore] == [o.underscore] && [o.underscore][..0] + [!o.underscore] == [!o.underscore];
  }

  // Why the two limits are there.

  lemma Snoc(o: Options, t: seq<Line>, l: Line)
    ensures ReadAll(o, t + [l]) == Read(o, ReadAll(o, t), l)
    ensures FlattenAll(t + [l]) == FlattenLine(FlattenAll(t), l)
  {
    assert (t + [l])[..|t|] == t;
  }

  /** #else on the version test loses its second arm. */
  lemma ElseOnVersionTest(n: Name)
    ensures var text := [IfVersion, Define(n, "1"), Else, Define(n, "2"), Endif];
      var o := Options(false, false);
      ReadAll(o, text).macros == map[n := "2"] && ActiveMap(FlattenAll(text).entries, o) == map[]
  {
    var o := Options(false, false);
    var t := VersionArm(n, o);
    Snoc(o, t, Else);
    Snoc(o, t + [Else], Define(n, "2"));
    Snoc(o, t + [Else] + [Define(n, "2")], Endif);
    assert t + [Else] + [Define(n, "2")] + [Endif] == [IfVersion, Define(n, "1"), Else, Define(n, "2"), Endif];
    ActiveMapAppend([], Entry(n, "1", C11), o);
  }

  lemma VersionArm(n: Name, o: Options) returns (t: seq<Line>)
    requires !o.c11
    ensures t == [IfVersion, Define(n, "1")]
    ensures ReadAll(o, t) == Reading(map[], [false]) && FlattenAll(t) == Flattening([] + [Entry(n, "1", C11)], C11, false)
  {
    t := [IfVersion];
    assert [] + [IfVersion] == t && [] + [false] == [false];
    Snoc(o, [], IfVersion);
    assert ReadAll(o, t) == Reading(map[], [false]) && !Live([false]) by { assert ![false][0]; }
    Snoc(o, t, Define(n, "1"));
    t := t + [Define(n, "1")];
  }

  /** #ifndef of a name that only a flagged group defines skips its group for good. */
  lemma GuardOnFlaggedName(n: Name)
    ensures var text := [IfVersion, Define(n, "1"), Endif, Ifndef(n), Define(n, "2"), Endif];
      var o := Options(false, false);
      ReadAll(o, text).macros == map[n := "2"] && ActiveMap(FlattenAll(text).entries, o) == map[]
  {
    var o := Options(false, false);
    var t := VersionArm(n, o);
    Snoc(o, t, Endif);
    assert FlattenAll(t + [Endif]).entries[0].name == n;
    GuardedGroup(n, o, t + [Endif]);
    assert t + [Endif] + [Ifndef(n)] + [Define(n, "2")] + [Endif]
        == [IfVersion, Define(n, "1"), Endif, Ifndef(n), Define(n, "2"), Endif];
    ActiveMapAppend([], Entry(n, "1", C11), o);
  }

  lemma GuardedGroup(n: Name, o: Options, t: seq<Line>)
    requires ReadAll(o, t) == Reading(map[], []) && DefinedEarlier(FlattenAll(t).entries, n)
    ensures ReadAll(o, t + [Ifndef(n)] + [Define(n, "2")] + [Endif]).macros == map[n := "2"]
    ensures FlattenAll(t + [Ifndef(n)] + [Define(n, "2")] + [Endif]).entries == FlattenAll(t).entries
  {
    hide ReadAll, FlattenAll;
    Snoc(o, t, Ifndef(n));
    Snoc(o, t + [Ifndef(n)], Define(n, "2"));
    Snoc(o, t + [Ifndef(n)] + [Define(n, "2")], Endif);
  }

  // The compiler's side.

  /** The bodies of the active entries of that name from position k on, newest first. */
  ghost function Pushed(es: seq<Entry>, o: Options, name: Name, k: nat): seq<string>
    requires k <= |es|
    decreases |es| - k
  {
    if k == |es| then []
    else Pushed(es, o, name, k + 1) + if es[k].name == name && Active(es[k].flag, o) then [es[k].body] else []
  }

  lemma {:induction false} PushedSkips(es: seq<Entry>, o: Options, name: Name, k: nat, l: nat)
    requires k <= l <= |es| && forall j :: k <= j < l ==> es[j].name != name
    ensures Pushed(es, o, name, k) == Pushed(es, o, name, l)
    decreases l - k
  {
    if k < l { PushedSkips(es, o, name, k + 1, l); }
  }

  ghost function Names(es: seq<Entry>): (ns: seq<Name>)
    ensures |ns| == |es| && forall i :: 0 <= i < |es| ==> ns[i] == es[i].name
  {
    seq(|es|, i requires 0 <= i < |es| => es[i].name)
  }

  /** tcc_predef_try_materialize: `stack` collects the definitions pushed; the last one is in force. */
  method Materialise(head: array<nat>, next: array<nat>, es: seq<Entry>, o: Options, name: Name)
    returns (stack: seq<string>)
    requires head.Length > 0 && next.Length == |es|
    requires Indexes(head[..], next[..], Buckets(Names(es), head.Length), |es|)
    ensures stack == Pushed(es, o, name, 0)
  {
    var b := BucketOf(name, head.Length);
    ghost var bs := Buckets(Names(es), head.Length);
    assert forall j :: 0 <= j < |es| && es[j].name == name ==> bs[j] == b;
    stack := PushAlong(head[b], next, es, o, name, b, bs);
  }

  method PushAlong(first: nat, next: array<nat>, es: seq<Entry>, o: Options, name: Name, ghost b: nat, ghost bs: seq<nat>)
    returns (stack: seq<string>)
    requires next.Length == |es| == |bs| && Descending(next[..], |es|) && first <= |es|
    requires Walk(next[..], first) == Newest(bs, |es|, b)
    requires forall j :: 0 <= j < |es| && es[j].name == name ==> bs[j] == b
    ensures stack == Pushed(es, o, name, 0)
  {
    ghost var x: seq<nat>, n: nat := next[..], |es|;
    var e: nat := first;
    stack := [];
    hide Walk, Newest;
    Skipped(bs, n, b, e, x);
    PushedSkips(es, o, name, e, n);
    while e != 0
      invariant e <= n <= |es| && Walk(x, e) == Newest(bs, n, b)
      invariant stack == Pushed(es, o, name, e)
      decreases e
    {
      Skipped(bs, n, b, e, x);
      if es[e - 1].name == name && Active(es[e - 1].flag, o) {
        stack := stack + [es[e - 1].body];
      }
      n := e - 1;
      e := next[e - 1];
      Skipped(bs, n, b, e, x);
      PushedSkips(es, o, name, e, n);
    }
  }

  lemma {:induction false} PushedAppend(es: seq<Entry>, e: Entry, o: Options, name: Name, k: nat)
    requires k <= |es|
    ensures Pushed(es + [e], o, name, k)
         == (if e.name == name && Active(e.flag, o) then [e.body] else []) + Pushed(es, o, name, k)
    decreases |es| - k
  {
    if k < |es| { PushedAppend(es, e, o, name, k + 1); }
  }

  /** The text's definition is the newest active entry's. */
  lemma {:induction false} TextTakesNewest(es: seq<Entry>, o: Options, name: Name)
    ensures name in ActiveMap(es, o) <==> Pushed(es, o, name, 0) != []
    ensures name in ActiveMap(es, o) ==> ActiveMap(es, o)[name] == Pushed(es, o, name, 0)[0]
  {
    if es != [] {
      var k := |es| - 1;
      assert es == es[..k] + [es[k]];
      TextTakesNewest(es[..k], o, name);
      PushedAppend(es[..k], es[k], o, name, 0);
    }
  }

  /** What the compiler ends up with. */
  ghost function InForce(es: seq<Entry>, o: Options): (m: Name -> seq<string>)
  {
    name => var p := Pushed(es, o, name, 0); if p == [] then [] else [p[|p| - 1]]
  }

  ghost function Meaning(m: map<Name, string>, name: Name): seq<string>
  {
    if name in m then [m[name]] else []
  }

  ghost predicate ActiveAt(es: seq<Entry>, o: Options, name: Name, i: nat)
  {
    i < |es| && es[i].name == name && Active(es[i].flag, o)
  }

  ghost predicate FirstActive(es: seq<Entry>, o: Options, name: Name, i: nat)
  {
    ActiveAt(es, o, name, i) && forall j: nat :: ActiveAt(es, o, name, j) ==> i <= j
  }

  ghost predicate LastActive(es: seq<Entry>, o: Options, name: Name, i: nat)
  {
    ActiveAt(es, o, name, i) && forall j: nat :: ActiveAt(es, o, name, j) ==> j <= i
  }

  lemma ActiveAtAppend(es: seq<Entry>, e: Entry, o: Options, name: Name)
    ensures forall i: nat :: ActiveAt(es + [e], o, name, i) <==>
      ActiveAt(es, o, name, i) || (i == |es| && e.name == name && Active(e.flag, o))
  {}

  /** The pushes run from the last active entry back to the first. */
  lemma {:induction false} PushedEnds(es: seq<Entry>, o: Options, name: Name) returns (i: nat, j: nat)
    ensures var p := Pushed(es, o, name, 0);
      if p == [] then forall k: nat :: !ActiveAt(es, o, name, k)
      else FirstActive(es, o, name, i) && LastActive(es, o, name, j) && p[|p| - 1] == es[i].body && p[0] == es[j].body
  {
    i, j := 0, 0;
    if es != [] {
      var k := |es| - 1;
      var t, e := es[..k], es[k];
      assert es == t + [e];
      i, j := PushedEnds(t, o, name);
      PushedAppend(t, e, o, name, 0);
      ActiveAtAppend(t, e, o, name);
      if e.name == name && Active(e.flag, o) {
        i, j := if Pushed(t, o, name, 0) == [] then k else i, k;
      }
    }
  }

  /** The chain is walked newest first and every active entry is pushed, so the first active one wins: table and
      compiler agree on a name exactly when its first and last active entries have the same body. */
  lemma CompilerAgrees(es: seq<Entry>, o: Options, name: Name)
    ensures InForce(es, o)(name) == Meaning(ActiveMap(es, o), name) <==>
      forall i: nat, j: nat :: FirstActive(es, o, name, i) && LastActive(es, o, name, j) ==> es[i].body == es[j].body
  {
    hide ActiveAt, Pushed, ActiveMap;
    TextTakesNewest(es, o, name);
    var i, j := PushedEnds(es, o, name);
  }

  // ... and for the text.

  /** Line i defines the name where a reader under these options is not skipping. */
  ghost predicate LiveDefine(text: seq<Line>, o: Options, name: Name, i: nat)
  {
    i < |text| && text[i].Define? && text[i].name == name && Live(ReadAll(o, text[..i]).open)
  }

  ghost predicate FirstLive(text: seq<Line>, o: Options, name: Name, i: nat)
  {
    LiveDefine(text, o, name, i) && forall j: nat :: LiveDefine(text, o, name, j) ==> i <= j
  }

  ghost predicate LastLive(text: seq<Line>, o: Options, name: Name, i: nat)
  {
    LiveDefine(text, o, name, i) && forall j: nat :: LiveDefine(text, o, name, j) ==> j <= i
  }

  lemma LiveDefinePrefix(text: seq<Line>, o: Options, name: Name, k: nat)
    requires k <= |text|
    ensures forall i: nat :: LiveDefine(text[..k], o, name, i) <==> i < k && LiveDefine(text, o, name, i)
  {
    assert forall i :: 0 <= i <= k ==> text[..k][..i] == text[..i];
  }

  /** The generator adds an active entry of the name exactly for a live definition. */
  lemma PushedLine(text: seq<Line>, o: Options, name: Name)
    requires Documented(text) && text != []
    ensures var k := |text| - 1;
      Pushed(FlattenAll(text).entries, o, name, 0)
        == (if LiveDefine(text, o, name, k) then [text[k].body] else []) + Pushed(FlattenAll(text[..k]).entries, o, name, 0)
  {
    hide DefinedEarlier, ActiveMap, Documented, Pushed;
    var k := |text| - 1;
    var t := text[..k];
    DocumentedPrefix(text, k);
    StaysInStep(t, o);
    if text[k].Define? {
      var g := FlattenAll(t);
      PushedAppend(g.entries, Entry(text[k].name, text[k].body, g.flag), o, name, 0);
    }
  }

  /** The pushes for a name run from line j, its last live definition, back to line i, its first. */
  ghost predicate PushesLines(text: seq<Line>, o: Options, name: Name, i: nat, j: nat)
  {
    var p := Pushed(FlattenAll(text).entries, o, name, 0);
    if p == [] then forall k: nat :: !LiveDefine(text, o, name, k)
    else FirstLive(text, o, name, i) && LastLive(text, o, name, j) && p[|p| - 1] == text[i].body && p[0] == text[j].body
  }

  lemma {:induction false} PushedLines(text: seq<Line>, o: Options, name: Name) returns (i: nat, j: nat)
    requires Documented(text)
    ensures PushesLines(text, o, name, i, j)
  {
    hide Documented;
    i, j := 0, 0;
    if text == [] {
      assert FlattenAll([]).entries == [];
    } else {
      var k := |text| - 1;
      DocumentedPrefix(text, k);
      i, j := PushedLines(text[..k], o, name);
      LiveDefinePrefix(text, o, name, k);
      PushedLine(text, o, name);
      i, j := JoinLine(text, o, name, i, j);
    }
  }

  lemma JoinLine(text: seq<Line>, o: Options, name: Name, i: nat, j: nat) returns (i': nat, j': nat)
    requires text != []
    requires forall k: nat :: LiveDefine(text[..|text| - 1], o, name, k) <==> k < |text| - 1 && LiveDefine(text, o, name, k)
    requires var k := |text| - 1;
      Pushed(FlattenAll(text).entries, o, name, 0)
        == (if LiveDefine(text, o, name, k) then [text[k].body] else []) + Pushed(FlattenAll(text[..k]).entries, o, name, 0)
    requires PushesLines(text[..|text| - 1], o, name, i, j)
    ensures PushesLines(text, o, name, i', j')
  {
    hide Pushed, FlattenAll, ReadAll, Live;
    var k := |text| - 1;
    i', j' := i, j;
    assert forall l: nat :: LiveDefine(text, o, name, l) ==> l <= k;
    if LiveDefine(text, o, name, k) {
      i', j' := if Pushed(FlattenAll(text[..k]).entries, o, name, 0) == [] then k else i, k;
    }
  }

  /** Text and compiler agree on a name, under some options, exactly when its first and last live definitions have the
      same body. */
  lemma TextAgrees(text: seq<Line>, o: Options, name: Name)
    requires Documented(text)
    ensures InForce(FlattenAll(text).entries, o)(name) == Meaning(ReadAll(o, text).macros, name) <==>
      forall i: nat, j: nat :: FirstLive(text, o, name, i) && LastLive(text, o, name, j) ==> text[i].body == text[j].body
  {
    FlatteningPreservesMeaning(text, o);
    hide Documented, LiveDefine;
    var es := FlattenAll(text).entries;
    TextTakesNewest(es, o, name);
    var i, j := PushedLines(text, o, name);
  }

  /** Two definitions of one name: the text keeps the second, the compiler the first. */
  lemma Redefinition(n: Name, o: Options)
    ensures var text := [Define(n, "1"), Define(n, "2")];
      && Documented(text)
      && InForce(FlattenAll(text).entries, o)(n) == ["1"]
      && Meaning(ReadAll(o, text).macros, n) == ["2"]
  {
    var t := [Define(n, "1")];
    var text := t + [Define(n, "2")];
    assert text == [Define(n, "1"), Define(n, "2")] && t == [] + t;
    TwoLines(text);
    Snoc(o, [], Define(n, "1"));
    Snoc(o, t, Define(n, "2"));
    var es := [Entry(n, "1", Always), Entry(n, "2", Always)];
    assert FlattenAll(text).entries == es;
    assert Pushed(es, o, n, 2) == [] && Pushed(es, o, n, 1) == ["2"] && Pushed(es, o, n, 0) == ["2", "1"];
  }

  lemma TwoLines(text: seq<Line>)
    requires |text| == 2 && text[0].Define? && text[1].Define?
    ensures Documented(text)
  {
    assert text[..0] == [] && text[..2] == text && text[..1][..0] == [];
    assert PlaceOf(text[..0]) == Outside && PlaceOf(text[..1]) == Outside && PlaceOf(text) == Outside;
    forall i | 0 <= i <= |text|
      ensures PlaceOf(text[..i]) == Outside
    {
      assert i == 0 || i == 1 || i == 2;
    }
  }

  /** ... so a text that never has two live definitions of a name means the same to both. */
  lemma OnceEach(text: seq<Line>, o: Options, name: Name)
    requires Documented(text)
    requires forall i: nat, j: nat :: LiveDefine(text, o, name, i) && LiveDefine(text, o, name, j) ==> i == j
    ensures InForce(FlattenAll(text).entries, o)(name) == Meaning(ReadAll(o, text).macros, name)
  {
    hide Documented, LiveDefine, InForce;
    TextAgrees(text, o, name);
  }
}
