/** The splay tree as an index of regions (lib/bcheck.c): insertion, deletion and the reuse list keep it equal to a
    plain set of disjoint regions. */
module RegionIndex {
  import opened SplayTree

  /** The nodes waiting for reuse, linked through `left`. */
  ghost predicate Chain(m: Memory, f: seq<Node>, p: Node?)
  {
    if f == [] then p == null else p == f[0] && f[0] in m && Chain(m, f[1..], m[f[0]].l)
  }

  lemma {:induction false} ChainFrame(m: Memory, m': Memory, f: seq<Node>, p: Node?)
    requires Chain(m, f, p) && forall n :: n in f && n in m ==> n in m' && m'[n] == m[n]
    ensures Chain(m', f, p)
  {
    if f != [] { ChainFrame(m, m', f[1..], m[f[0]].l); }
  }

  ghost predicate Covers(m: Memory, d: Data, s: seq<Node>)
  {
    m.Keys == d.Keys && (forall n :: n in s ==> n in m) && (forall n :: n in m ==> n in s)
  }

  /** Memory and regions of all nodes, the tree, and the nodes waiting for reuse. */
  datatype View = View(m: Memory, d: Data, s: Shape, free: seq<Node>)

  /** Tree and reuse list hold every node once, the tree in address order. */
  ghost predicate Index(v: View, root: Node?, head: Node?)
  {
    && Spells(v.m, v.s, root) && Sorted(v.d, Order(v.s)) && Chain(v.m, v.free, head)
    && NoDup(Order(v.s) + v.free) && Covers(v.m, v.d, Order(v.s) + v.free)
  }

  ghost function RegionSet(d: Data, s: seq<Node>): set<Region>
  {
    set n | n in s && n in d :: d[n]
  }

  lemma IndexSplayed(v: View, root: Node?, head: Node?, m': Memory, s': Shape, root': Node?)
    requires Index(v, root, head) && Spells(m', s', root') && Order(s') == Order(v.s)
    requires m'.Keys == v.m.Keys && forall n :: n in v.m && n !in Order(v.s) ==> m'[n] == v.m[n]
    ensures Index(v.(m := m', s := s'), root', head)
  {
    Apart(Order(v.s), v.free);
    ChainFrame(v.m, m', v.free, head);
  }

  lemma IndexParts(v: View, root: Node?, head: Node?)
    requires Index(v, root, head)
    ensures Spells(v.m, v.s, root) && NoDup(Order(v.s)) && Sorted(v.d, Order(v.s)) && v.m.Keys == v.d.Keys
    ensures head == null <==> v.free == []
    ensures root == null <==> v.s.Nil?
    ensures v.s.Fork? ==> v.s.n == root && v.s.n in v.d
  {
    Apart(Order(v.s), v.free);
    assert v.s.Fork? ==> v.s.n in Order(v.s) + v.free;
  }

  // Insertion.

  lemma SortedInsert(d: Data, a: seq<Node>, b: seq<Node>, n: Node, g: Region)
    requires Sorted(d, a + b) && n !in a + b && g.size > 0
    requires forall i :: 0 <= i < |a| ==> a[i] in d && d[a[i]].start + d[a[i]].size <= g.start
    requires forall i :: 0 <= i < |b| ==> b[i] in d && g.start + g.size <= d[b[i]].start
    ensures Sorted(d[n := g], a + [n] + b)
  {
    var s, s', d' := a + b, a + [n] + b, d[n := g];
    forall i | 0 <= i < |s'|
      ensures s'[i] in d' && d'[s'[i]].size > 0
    {
      if i < |a| { assert s[i] == s'[i]; } else if i > |a| { assert s[i - 1] == s'[i]; }
    }
    forall i, j | 0 <= i < j < |s'|
      ensures d'[s'[i]].start + d'[s'[i]].size <= d'[s'[j]].start
    {
      if i < |a| { assert s[i] == s'[i] == a[i]; } else if i > |a| { assert s[i - 1] == s'[i]; }
      if j < |a| { assert s[j] == s'[j]; } else if j > |a| { assert s[j - 1] == s'[j] == b[j - |a| - 1]; }
    }
  }

  /** No region of `gs` meets [addr, addr + size). */
  ghost predicate Fits(gs: set<Region>, addr: nat, size: nat)
  {
    forall g :: g in gs ==> g.start + g.size <= addr || addr + size <= g.start
  }

  ghost predicate Contains(gs: set<Region>, addr: nat)
  {
    exists g :: g in gs && g.start <= addr < g.start + g.size
  }

  /** Where a new region goes, once its address has been splayed. */
  lemma Gap(d: Data, all: seq<Node>, k: nat, addr: nat, size: nat, c: nat)
    requires Sorted(d, all) && k < |all| && Split(false, addr, d, all, k, k + 1) && Fits(RegionSet(d, all), addr, size)
    requires Compare(false, addr, d[all[k]]) != 0 && c == if Compare(false, addr, d[all[k]]) < 0 then k else k + 1
    ensures forall i :: 0 <= i < c ==> d[all[i]].start + d[all[i]].size <= addr
    ensures forall i :: c <= i < |all| ==> addr + size <= d[all[i]].start
  {
    forall i | c <= i < |all|
      ensures addr + size <= d[all[i]].start
    {
      assert all[i] in all && d[all[i]] in RegionSet(d, all);
    }
  }

  /** The address is in some region exactly when it is in the root's. */
  lemma ContainedAtRoot(d: Data, all: seq<Node>, k: nat, addr: nat)
    requires Sorted(d, all) && k < |all| && Split(false, addr, d, all, k, k + 1)
    ensures Contains(RegionSet(d, all), addr) <==> Compare(false, addr, d[all[k]]) == 0
  {
    assert all[k] in all && d[all[k]] in RegionSet(d, all);
    if Contains(RegionSet(d, all), addr) {
      var g :| g in RegionSet(d, all) && g.start <= addr < g.start + g.size;
      var n :| n in all && n in d && d[n] == g;
      var i :| 0 <= i < |all| && all[i] == n;
    }
  }

  /** An index with one node more, in neither place. */
  ghost predicate Holding(v: View, root: Node?, head: Node?, n: Node)
  {
    && Spells(v.m, v.s, root) && Sorted(v.d, Order(v.s)) && Chain(v.m, v.free, head)
    && NoDup(Order(v.s) + ([n] + v.free)) && Covers(v.m, v.d, Order(v.s) + ([n] + v.free))
  }

  lemma Taken(v: View, root: Node?, head: Node?)
    requires Index(v, root, head) && v.free != []
    ensures head == v.free[0] && v.free[0] in v.m
    ensures Holding(v.(free := v.free[1..]), root, v.m[v.free[0]].l, v.free[0])
  {
    assert [v.free[0]] + v.free[1..] == v.free;
  }

  ghost function Grown(v: View, n: Node, g: Region): View
  {
    v.(m := v.m[n := Kids(null, null)], d := v.d[n := g])
  }

  lemma Made(v: View, root: Node?, head: Node?, n: Node, g: Region)
    requires Index(v, root, head) && v.free == [] && n !in v.m
    ensures Holding(Grown(v, n, g), root, null, n)
  {
    assert Order(v.s) + [] == Order(v.s);
    Frame(v.m, v.s, root, n, Kids(null, null));
    assert [n] + [] == [n];
    SortedElsewhere(v.d, Order(v.s), n, g);
  }

  lemma SortedElsewhere(d: Data, s: seq<Node>, n: Node, g: Region)
    requires Sorted(d, s) && n !in s
    ensures Sorted(d[n := g], s)
  {
    assert forall i :: 0 <= i < |s| ==> s[i] in d && d[n := g][s[i]] == d[s[i]];
  }

  /** The node is in the tree, between `a` and `b`. */
  lemma Placed(v: View, root: Node?, head: Node?, n: Node, g: Region, a: seq<Node>, b: seq<Node>, w: View)
    requires Holding(v, root, head, n) && Order(v.s) == a + b && Order(w.s) == a + [n] + b
    requires w.m.Keys == v.m.Keys && (forall x :: x in v.free && x in v.m ==> w.m[x] == v.m[x]) && Spells(w.m, w.s, n)
    requires w.d == v.d[n := g] && w.free == v.free && Sorted(w.d, a + [n] + b)
    ensures Index(w, n, head)
    ensures RegionSet(w.d, Order(w.s)) == RegionSet(v.d, Order(v.s)) + {g}
  {
    ChainFrame(v.m, w.m, v.free, head);
    Moved(a, n, b, v.free);
    NotThere(a + b, n, v.free);
    CoversMoved(v.m, v.d, a + b + ([n] + v.free), w.m, n, g, a + [n] + b + v.free);
    RegionsInserted(v.d, a + b, n, g, a + [n] + b);
  }

  lemma CoversMoved(m: Memory, d: Data, s: seq<Node>, m2: Memory, n: Node, g: Region, s2: seq<Node>)
    requires Covers(m, d, s) && n in s && m2.Keys == m.Keys && forall x :: x in s2 <==> x in s
    ensures Covers(m2, d[n := g], s2)
  {}

  lemma RegionsInserted(d: Data, s: seq<Node>, n: Node, g: Region, s2: seq<Node>)
    requires n !in s && forall x :: x in s2 <==> x == n || x in s
    ensures RegionSet(d[n := g], s2) == RegionSet(d, s) + {g}
  {
    var d2 := d[n := g];
    assert forall x :: x in s && x in d ==> d2[x] == d[x];
    assert d2[n] in RegionSet(d2, s2);
    forall r | r in RegionSet(d, s)
      ensures r in RegionSet(d2, s2)
    {
      var x: Node :| x in s && x in d && d[x] == r;
      assert x in s2 && d2[x] == r;
    }
  }

  lemma NotThere(s: seq<Node>, n: Node, free: seq<Node>)
    requires NoDup(s + ([n] + free))
    ensures NoDup(s) && n !in s && n !in free && forall x :: x in free ==> x !in s
  {
    Apart(s, [n] + free);
    Apart([n], free);
    assert n in [n] + free && n in [n];
    assert forall x :: x in free ==> x in [n] + free;
  }

  lemma Moved(a: seq<Node>, n: Node, b: seq<Node>, free: seq<Node>)
    requires NoDup(a + b + ([n] + free))
    ensures NoDup(a + [n] + b + free)
    ensures forall x :: x in a + [n] + b + free <==> x in a + b + ([n] + free)
  {
    var s, s' := a + b + ([n] + free), a + [n] + b + free;
    forall i, j | 0 <= i < j < |s'|
      ensures s'[i] != s'[j]
    {
      assert s'[i] == s[From(i, |a|, |b|)] && s'[j] == s[From(j, |a|, |b|)];
    }
  }

  function From(i: nat, a: nat, b: nat): nat
  {
    if i < a || i > a + b then i else if i == a then a + b else i - 1
  }

  lemma TwoFrames(m: Memory, s: Shape, p: Node?, n: Node, a: Kids, t: Node, b: Kids)
    requires Spells(m, s, p) && n !in Order(s) && t !in Order(s)
    ensures Spells(m[n := a][t := b], s, p)
  {
    Frame(m, s, p, n, a);
    Frame(m[n := a], s, p, t, b);
  }

  /** The tree with n above the root, which goes to n's right or left. */
  ghost function Above(s: Shape, n: Node, right: bool): Shape
  {
    if s.Nil? then Fork(Nil, n, Nil)
    else if right then Fork(s.l, n, Fork(Nil, s.n, s.r))
    else Fork(Fork(s.l, s.n, Nil), n, s.r)
  }

  ghost function AboveMemory(m: Memory, s: Shape, n: Node, right: bool): Memory
    requires s.Fork? ==> s.n in m
  {
    if s.Nil? then m[n := Kids(null, null)]
    else if right then m[n := Kids(m[s.n].l, s.n)][s.n := Kids(null, m[s.n].r)]
    else m[n := Kids(s.n, m[s.n].r)][s.n := Kids(m[s.n].l, null)]
  }

  lemma AboveSpells(m: Memory, s: Shape, n: Node, right: bool)
    requires s.Fork? && Spells(m, s, s.n) && NoDup(Order(s)) && n !in Order(s) && n in m
    ensures Spells(AboveMemory(m, s, n, right), Above(s, n, right), n)
  {
    ForkApart(s);
    var a := if right then Kids(m[s.n].l, s.n) else Kids(s.n, m[s.n].r);
    var b := if right then Kids(null, m[s.n].r) else Kids(m[s.n].l, null);
    assert AboveMemory(m, s, n, right) == m[n := a][s.n := b];
    TwoFrames(m, s.l, m[s.n].l, n, a, s.n, b);
    TwoFrames(m, s.r, m[s.n].r, n, a, s.n, b);
  }

  ghost function Lower(s: Shape, right: bool): seq<Node>
  {
    if s.Nil? then [] else if right then Order(s.l) else Order(s.l) + [s.n]
  }

  ghost function Upper(s: Shape, right: bool): seq<Node>
  {
    if s.Nil? then [] else if right then [s.n] + Order(s.r) else Order(s.r)
  }

  lemma AboveOrder(s: Shape, n: Node, right: bool)
    ensures Order(s) == Lower(s, right) + Upper(s, right)
    ensures Order(Above(s, n, right)) == Lower(s, right) + [n] + Upper(s, right)
  {
    if s.Fork? {
      var l, r := Order(s.l), Order(s.r);
      assert Order(Fork(Nil, s.n, s.r)) == [s.n] + r;
      assert Order(Fork(s.l, s.n, Nil)) == l + [s.n];
      if right { assert l + [s.n] + r == l + ([s.n] + r); }
    }
  }

  lemma RootIndex(s: Shape)
    requires s.Fork?
    ensures Count(s.l) < |Order(s)| && Order(s)[Count(s.l)] == s.n
  {}

  /** The regions before the root are below the address last splayed, those after it above. */
  ghost predicate Parted(v: View, byEnd: bool, addr: nat)
  {
    v.s.Fork? ==> Sorted(v.d, Order(v.s)) && Split(byEnd, addr, v.d, Order(v.s), Count(v.s.l), Count(v.s.l) + 1)
  }

  lemma IndexAfter(v: View, root: Node?, head: Node?, m: Memory, s: Shape, root': Node?, byEnd: bool, addr: nat)
    requires Index(v, root, head) && Spells(m, s, root') && Order(s) == Order(v.s)
    requires m.Keys == v.m.Keys && forall n :: n in v.m && n !in Order(v.s) ==> m[n] == v.m[n]
    requires s.Fork? ==> Sorted(v.d, Order(v.s)) && Split(byEnd, addr, v.d, Order(v.s), Count(s.l), Count(s.l) + 1)
    ensures Index(v.(m := m, s := s), root', head) && Parted(v.(m := m, s := s), byEnd, addr)
    ensures root' == null <==> root == null
  {
    IndexSplayed(v, root, head, m, s, root');
    assert v.s.Nil? <==> Order(v.s) == [];
    assert s.Nil? <==> Order(s) == [];
  }

  ghost predicate Apt(v: View, addr: nat, right: bool)
  {
    v.s.Fork? ==> v.s.n in v.d && Compare(false, addr, v.d[v.s.n]) == if right then -1 else 1
  }

  lemma Inserted(v: View, root: Node?, head: Node?, n: Node, g: Region, right: bool, w: View)
    requires Holding(v, root, head, n) && g.size > 0 && Parted(v, false, g.start) && Apt(v, g.start, right)
    requires Fits(RegionSet(v.d, Order(v.s)), g.start, g.size) && (v.s.Fork? ==> v.s.n in v.m)
    requires w == View(AboveMemory(v.m, v.s, n, right), v.d[n := g], Above(v.s, n, right), v.free)
    ensures Index(w, n, head) && RegionSet(w.d, Order(w.s)) == RegionSet(v.d, Order(v.s)) + {g}
  {
    AboveOrder(v.s, n, right);
    InsertedSorted(v, root, head, n, g, right);
    InsertedMemory(v, root, head, n, right);
    hide Holding, Parted, Apt, Fits, Index, Order, AboveMemory, Above, Sorted, Lower, Upper;
    Placed(v, root, head, n, g, Lower(v.s, right), Upper(v.s, right), w);
  }

  lemma InsertedSorted(v: View, root: Node?, head: Node?, n: Node, g: Region, right: bool)
    requires Holding(v, root, head, n) && g.size > 0 && Parted(v, false, g.start) && Apt(v, g.start, right)
    requires Fits(RegionSet(v.d, Order(v.s)), g.start, g.size)
    ensures Sorted(v.d[n := g], Lower(v.s, right) + [n] + Upper(v.s, right))
  {
    NotThere(Order(v.s), n, v.free);
    AboveOrder(v.s, n, right);
    var s, a, b := Order(v.s), Lower(v.s, right), Upper(v.s, right);
    assert v.s.Fork? ==> |a| == if right then Count(v.s.l) else Count(v.s.l) + 1;
    hide Lower, Upper, Order, Spells, Chain, Covers, NoDup, Sorted, Split;
    if v.s.Fork? {
      RootIndex(v.s);
      AllKnown(v.d, s);
      Gap(v.d, s, Count(v.s.l), g.start, g.size, |a|);
      Sides(v.d, a, b, g);
    }
    SortedInsert(v.d, a, b, n, g);
  }

  lemma Sides(d: Data, a: seq<Node>, b: seq<Node>, g: Region)
    requires Sorted(d, a + b)
    requires forall i :: 0 <= i < |a| ==> d[(a + b)[i]].start + d[(a + b)[i]].size <= g.start
    requires forall i :: |a| <= i < |a + b| ==> g.start + g.size <= d[(a + b)[i]].start
    ensures forall i :: 0 <= i < |a| ==> a[i] in d && d[a[i]].start + d[a[i]].size <= g.start
    ensures forall i :: 0 <= i < |b| ==> b[i] in d && g.start + g.size <= d[b[i]].start
  {
    assert forall i :: 0 <= i < |a| ==> (a + b)[i] == a[i];
    assert forall i :: 0 <= i < |b| ==> (a + b)[|a| + i] == b[i];
  }

  lemma InsertedMemory(v: View, root: Node?, head: Node?, n: Node, right: bool)
    requires Holding(v, root, head, n)
    ensures v.s.Fork? ==> v.s.n in v.m
    ensures AboveMemory(v.m, v.s, n, right).Keys == v.m.Keys
    ensures Spells(AboveMemory(v.m, v.s, n, right), Above(v.s, n, right), n)
    ensures forall x :: x in v.free && x in v.m ==> AboveMemory(v.m, v.s, n, right)[x] == v.m[x]
  {
    NotThere(Order(v.s), n, v.free);
    assert n in [n] + v.free && n in Order(v.s) + ([n] + v.free);
    if v.s.Fork? {
      assert v.s.n in Order(v.s);
      AboveSpells(v.m, v.s, n, right);
    }
  }

  // Deletion.

  ghost function Without(gs: set<Region>, addr: nat): set<Region>
  {
    set g | g in gs && g.start != addr
  }

  /** Only the root can start at the address just splayed. */
  lemma StartsAtRoot(v: View, addr: nat)
    requires Parted(v, false, addr) && v.s.Fork? && v.s.n in v.d && v.d[v.s.n].start != addr
    ensures Without(RegionSet(v.d, Order(v.s)), addr) == RegionSet(v.d, Order(v.s))
  {
    RootIndex(v.s);
    var s := Order(v.s);
    forall n | n in s && n in v.d
      ensures v.d[n].start != addr
    {
      var i :| 0 <= i < |s| && s[i] == n;
    }
  }

  lemma SortedRemoved(d: Data, a: seq<Node>, n: Node, b: seq<Node>)
    requires Sorted(d, a + [n] + b)
    ensures n in d && Sorted(d, a + b) && forall x :: x in a + b ==> x in d && d[x].start != d[n].start
  {
    var s, s' := a + [n] + b, a + b;
    assert s[|a|] == n;
    forall i | 0 <= i < |s'|
      ensures s'[i] in d && d[s'[i]].size > 0 && d[s'[i]].start != d[n].start
    {
      if i < |a| { assert s'[i] == s[i]; } else { assert s'[i] == s[i + 1]; }
    }
    forall i, j | 0 <= i < j < |s'|
      ensures d[s'[i]].start + d[s'[i]].size <= d[s'[j]].start
    {
      if i < |a| { assert s'[i] == s[i]; } else { assert s'[i] == s[i + 1]; }
      if j < |a| { assert s'[j] == s[j]; } else { assert s'[j] == s[j + 1]; }
    }
  }

  lemma SortedPrefix(d: Data, a: seq<Node>, b: seq<Node>)
    requires Sorted(d, a + b)
    ensures Sorted(d, a)
  {
    assert forall i :: 0 <= i < |a| ==> (a + b)[i] == a[i];
  }

  lemma Released(a: seq<Node>, n: Node, b: seq<Node>, free: seq<Node>)
    requires NoDup(a + [n] + b + free)
    ensures NoDup(a + b + ([n] + free)) && n !in a && n !in b
    ensures forall x :: x in a + [n] + b + free <==> x in a + b + ([n] + free)
  {
    var s, s' := a + [n] + b + free, a + b + ([n] + free);
    forall i, j | 0 <= i < j < |s'|
      ensures s'[i] != s'[j]
    {
      assert s'[i] == s[Onto(i, |a|, |b|)] && s'[j] == s[Onto(j, |a|, |b|)];
    }
    Apart(a + b, [n] + free);
    assert n in [n] + free;
    assert n in a || n in b ==> n in a + b;
  }

  function Onto(i: nat, a: nat, b: nat): nat
  {
    if i < a || i > a + b then i else if i == a + b then a else i + 1
  }

  /** The root is out of the tree and first on the reuse list. */
  lemma Deleted(v: View, head: Node?, w: View, root: Node?)
    requires v.s.Fork? && Index(v, v.s.n, head) && v.s.n in v.d
    requires w.d == v.d && w.free == [v.s.n] + v.free && Order(w.s) == Order(v.s.l) + Order(v.s.r)
    requires Spells(w.m, w.s, root) && w.m.Keys == v.m.Keys && v.s.n in w.m && w.m[v.s.n].l == head
    requires forall x :: x in v.free && x in v.m ==> w.m[x] == v.m[x]
    ensures Index(w, root, v.s.n)
    ensures RegionSet(w.d, Order(w.s)) == Without(RegionSet(v.d, Order(v.s)), v.d[v.s.n].start)
  {
    var a, n, b := Order(v.s.l), v.s.n, Order(v.s.r);
    SortedRemoved(v.d, a, n, b);
    Released(a, n, b, v.free);
    ChainFrame(v.m, w.m, v.free, head);
    assert w.free[1..] == v.free;
    RegionsRemoved(v.d, a, n, b);
  }

  lemma RegionsRemoved(d: Data, a: seq<Node>, n: Node, b: seq<Node>)
    requires n in d && forall x :: x in a + b ==> x in d && d[x].start != d[n].start
    ensures RegionSet(d, a + b) == Without(RegionSet(d, a + [n] + b), d[n].start)
  {
    var s := a + [n] + b;
    assert forall x :: x in s <==> x == n || x in a + b;
    forall g | g in Without(RegionSet(d, s), d[n].start)
      ensures g in RegionSet(d, a + b)
    {
      var x: Node :| x in s && x in d && d[x] == g;
    }
  }

  /** The left part, splayed at an address above it, has its last node on top. */
  lemma LastOnTop(d: Data, addr: nat, s: seq<Node>, k: nat)
    requires k < |s| && Sorted(d, s) && Split(false, addr, d, s, k, k + 1) && Split(false, addr, d, s, |s|, |s|)
    ensures k + 1 == |s|
  {
    var last := |s| - 1;
    assert d[s[last]].start + d[s[last]].size <= addr;
  }

  lemma LeftBelow(v: View, addr: nat)
    requires v.s.Fork? && Parted(v, false, addr)
    ensures Sorted(v.d, Order(v.s.l)) && Split(false, addr, v.d, Order(v.s.l), |Order(v.s.l)|, |Order(v.s.l)|)
  {
    var a, s := Order(v.s.l), Order(v.s);
    assert s == a + ([v.s.n] + Order(v.s.r));
    SortedPrefix(v.d, a, [v.s.n] + Order(v.s.r));
    assert forall i :: 0 <= i < |a| ==> a[i] == s[i];
  }

  lemma EmptyRight(s: Shape)
    requires s.Fork? && Count(s.l) + 1 == |Order(s)|
    ensures s.r.Nil? && Order(s) == Order(s.l) + [s.n]
  {
    assert |Order(s)| == Count(s.l) + 1 + |Order(s.r)|;
  }

  ghost function Joined(v: View, head: Node?, m1: Memory, x: Node): Memory
    requires v.s.Fork? && x in m1 && v.s.n in m1 && v.s.n in v.m
  {
    SetLeft(SetRight(m1, x, v.m[v.s.n].r), v.s.n, head)
  }

  /** The deleted root's right subtree moves under x, and the root to the head of the reuse list. */
  lemma {:induction false} JoinedMemory(v: View, head: Node?, m1: Memory, l: Shape, x: Node)
    requires v.s.Fork? && Index(v, v.s.n, head) && v.s.n in v.m && m1.Keys == v.m.Keys && v.s.n in m1 && x in m1
    requires l.Fork? && l.r.Nil? && l.n == x && Order(l) == Order(v.s.l) == Order(l.l) + [x] && Spells(m1, l, x)
    requires forall n :: n in v.m && n !in Order(v.s.l) ==> m1[n] == v.m[n]
    ensures Spells(Joined(v, head, m1, x), Fork(l.l, x, v.s.r), x) && Joined(v, head, m1, x).Keys == v.m.Keys
    ensures Order(Fork(l.l, x, v.s.r)) == Order(v.s.l) + Order(v.s.r)
    ensures forall n :: n in v.free && n in v.m ==> Joined(v, head, m1, x)[n] == v.m[n]
  {
    hide Index, NoDup, Spells;
    JoinedApart(v, head, l, x);
    assert Order(Fork(l.l, x, v.s.r)) == Order(l.l) + [x] + Order(v.s.r);
    SpellsFrom(v.m, v.s.r, v.m[v.s.n].r, m1);
    JoinedSpells(m1, l, x, v.s.n, v.s.r, v.m[v.s.n].r, head);
  }

  lemma {:induction false} JoinedSpells(m: Memory, l: Shape, x: Node, t: Node, r: Shape, p: Node?, head: Node?)
    requires l.Fork? && l.n == x && Spells(m, l, x) && Spells(m, r, p) && t in m && x in m && x != t
    requires x !in Order(l.l) && t !in Order(l.l) && x !in Order(r) && t !in Order(r)
    ensures Spells(SetLeft(SetRight(m, x, p), t, head), Fork(l.l, x, r), x)
  {
    var a, b := Kids(m[x].l, p), Kids(head, m[t].r);
    assert SetLeft(SetRight(m, x, p), t, head) == m[x := a][t := b];
    TwoFrames(m, l.l, m[x].l, x, a, t, b);
    TwoFrames(m, r, p, x, a, t, b);
  }

  lemma {:induction false} JoinedApart(v: View, head: Node?, l: Shape, x: Node)
    requires v.s.Fork? && Index(v, v.s.n, head) && l.Fork? && Order(l) == Order(v.s.l) == Order(l.l) + [x]
    ensures x != v.s.n && x !in Order(l.l) && x !in Order(v.s.r) && v.s.n !in Order(l.l) && v.s.n !in Order(v.s.r)
    ensures forall n :: n in v.free ==> n != x && n != v.s.n && n !in Order(v.s.l)
    ensures forall n :: n in Order(v.s.r) ==> n !in Order(v.s.l)
    ensures v.s.n in v.m && Spells(v.m, v.s.r, v.m[v.s.n].r)
  {
    Apart(Order(v.s), v.free);
    ForkApart(v.s);
    Apart(Order(l.l), [x]);
    assert x in [x] && x in Order(v.s.l) && x in Order(v.s) && v.s.n in Order(v.s);
    assert forall n :: n in Order(l.l) ==> n in Order(v.s.l);
    assert forall n :: n in Order(v.s.l) ==> n in Order(v.s);
  }

  lemma {:induction false} SpellsFrom(m: Memory, s: Shape, p: Node?, m1: Memory)
    requires Spells(m, s, p) && forall n :: n in Order(s) && n in m ==> n in m1 && m1[n] == m[n]
    ensures Spells(m1, s, p)
  {
    if s.Fork? {
      assert s.n in Order(s);
      SpellsFrom(m, s.l, m[s.n].l, m1);
      SpellsFrom(m, s.r, m[s.n].r, m1);
    }
  }

  // The index in memory.

  method NewNode(ghost v: View) returns (n: Node)
    requires Holds(v.m) && Describes(v.d)
    ensures fresh(n) && n !in v.m && Holds(v.m) && Describes(v.d)
    ensures Holds(Grown(v, n, RegionOf(n)).m) && Describes(Grown(v, n, RegionOf(n)).d)
  {
    n := new Node();
  }

  /** The stores of splay_insert, once the node is there. */
  method Place(n: Node, t: Node?, right: bool, ghost m: Memory, ghost s: Shape, ghost d: Data)
    requires Describes(d) && Holds(m) && n in m && n != t
    requires (t == null <==> s.Nil?) && (s.Fork? ==> s.n == t && s.n in m)
    modifies m.Keys`left, m.Keys`right
    ensures Describes(d)
    ensures (s.Fork? ==> s.n in m) && Holds(AboveMemory(m, s, n, right)) && AboveMemory(m, s, n, right).Keys == m.Keys
  {
    if t == null {
      n.left, n.right := null, null;
    } else if right {
      n.left := t.left;
      n.right := t;
      t.left := null;
    } else {
      n.right := t.right;
      n.left := t;
      t.right := null;
    }
  }

  method Fill(n: Node, g: Region, ghost d: Data, ghost m: Memory)
    requires Holds(m) && Describes(d) && n in d
    modifies n`start, n`size, n`kind, n`invalid
    ensures Holds(m) && Describes(d[n := g]) && RegionOf(n) == g
  {
    n.start, n.size, n.kind, n.invalid := g.start, g.size, g.kind, g.invalid;
  }

  /** The index is what memory holds. */
  ghost predicate Stored(v: View, t: Node?, head: Node?)
    reads v.m.Keys, v.d.Keys
  {
    Holds(v.m) && Describes(v.d) && Index(v, t, head)
  }

  /** The regions in the tree. */
  ghost function Held(v: View): set<Region>
  {
    RegionSet(v.d, Order(v.s))
  }

  ghost predicate DisjointRegions(g: Region, h: Region)
  {
    g.start + g.size <= h.start || h.start + h.size <= g.start
  }

  /** An index only ever holds non-empty, disjoint regions, one for each node of the tree. */
  lemma HeldDisjoint(v: View, root: Node?, head: Node?)
    requires Index(v, root, head)
    ensures forall g :: g in Held(v) ==> g.size > 0
    ensures forall g, h :: g in Held(v) && h in Held(v) && g != h ==> DisjointRegions(g, h)
  {
    hide Order, Spells, NoDup, Chain, Covers;
    forall g, h | g in Held(v) && h in Held(v) && g != h
      ensures DisjointRegions(g, h)
    {
      var i := Position(v.d, Order(v.s), g);
      var j := Position(v.d, Order(v.s), h);
    }
  }

  /** The position of a region. */
  lemma Position(d: Data, s: seq<Node>, g: Region) returns (i: nat)
    requires g in RegionSet(d, s)
    ensures i < |s| && s[i] in d && d[s[i]] == g
  {
    var x: Node :| x in s && x in d && d[x] == g;
    i :| 0 <= i < |s| && s[i] == x;
  }

  method Find(byEnd: bool, addr: nat, root: Node?, ghost head: Node?, ghost v: View) returns (t: Node?, ghost w: View)
    requires Stored(v, root, head)
    modifies v.m.Keys`left, v.m.Keys`right
    ensures Stored(w, t, head) && w.d == v.d && w.free == v.free && Order(w.s) == Order(v.s) && w.m.Keys == v.m.Keys
    ensures Parted(w, byEnd, addr) && (t == null <==> root == null)
  {
    hide Index, Sorted, Split, NoDup, Order, Spells, Parted;
    IndexParts(v, root, head);
    ghost var m, s;
    t, m, s := Splay(byEnd, addr, root, v.m, v.d, v.s);
    IndexAfter(v, root, head, m, s, t, byEnd, addr);
    w := v.(m := m, s := s);
  }

  /** A node off the reuse list, or a new one. */
  method TakeNode(head: Node?, ghost root: Node?, ghost v: View) returns (n: Node, head': Node?, ghost w: View)
    requires Stored(v, root, head)
    ensures Holds(w.m) && Describes(w.d) && Holding(w, root, head', n)
    ensures v.free == [] ==> fresh(n) && n !in v.m && w == Grown(v, n, RegionOf(n))
    ensures v.free != [] ==> n == v.free[0] && w == v.(free := v.free[1..])
  {
    IndexParts(v, root, head);
    hide Index, Holding, Order;
    if head != null {
      Taken(v, root, head);
      n := head;
      head' := n.left;
      w := v.(free := v.free[1..]);
    } else {
      n := NewNode(v);
      Made(v, root, head, n, RegionOf(n));
      head' := null;
      w := Grown(v, n, RegionOf(n));
    }
  }

  /** The nodes of `w` are those of `v`, and `n` when there was none to reuse. */
  ghost predicate Reuses(v: View, w: View, n: Node)
  {
    if v.free == [] then w.m.Keys == v.m.Keys + {n} && n !in v.m && w.free == []
    else w.m.Keys == v.m.Keys && w.free == v.free[1..]
  }

  /** A node taken, placed above the root and filled in. */
  method Add(g: Region, right: bool, t: Node?, head: Node?, ghost v: View)
    returns (n: Node, head': Node?, ghost w: View)
    requires Stored(v, t, head) && g.size > 0 && Parted(v, false, g.start) && Apt(v, g.start, right)
    requires Fits(Held(v), g.start, g.size)
    modifies v.m.Keys
    ensures Stored(w, n, head') && Held(w) == Held(v) + {g} && RegionOf(n) == g
    ensures Reuses(v, w, n) && (v.free == [] ==> fresh(n))
  {
    hide Index, Holding, Order, Parted, Apt, Fits, AboveMemory, Above;
    ghost var v1;
    IndexParts(v, t, head);
    n, head', v1 := TakeNode(head, t, v);
    Kept(v, t, head, v1, n, RegionOf(n), g, right);
    Place(n, t, right, v1.m, v1.s, v1.d);
    Fill(n, g, v1.d, AboveMemory(v1.m, v1.s, n, right));
    w := View(AboveMemory(v1.m, v1.s, n, right), v1.d[n := g], Above(v1.s, n, right), v1.free);
    Inserted(v1, t, head', n, g, right, w);
  }

  lemma Kept(v: View, root: Node?, head: Node?, w: View, n: Node, r: Region, g: Region, right: bool)
    requires Index(v, root, head) && Parted(v, false, g.start) && Apt(v, g.start, right)
    requires if v.free == [] then n !in v.m && w == Grown(v, n, r) else n == v.free[0] && w == v.(free := v.free[1..])
    ensures Parted(w, false, g.start) && Apt(w, g.start, right)
    ensures RegionSet(w.d, Order(w.s)) == RegionSet(v.d, Order(v.s)) && w.s == v.s && n in w.m && n in w.d
    ensures v.s.Fork? ==> v.s.n in w.m && v.s.n != n
  {
    if v.free == [] {
      assert Order(v.s) + v.free == Order(v.s);
      KeptGrown(v, n, r, g, right);
    } else {
      Apart(Order(v.s), v.free);
      assert n in v.free && n in Order(v.s) + v.free && (v.s.Fork? ==> v.s.n in Order(v.s));
    }
  }

  lemma KeptGrown(v: View, n: Node, r: Region, g: Region, right: bool)
    requires Parted(v, false, g.start) && Apt(v, g.start, right) && Covers(v.m, v.d, Order(v.s)) && n !in v.m
    ensures var w := Grown(v, n, r);
      && Parted(w, false, g.start) && Apt(w, g.start, right) && RegionSet(w.d, Order(w.s)) == RegionSet(v.d, Order(v.s))
      && (v.s.Fork? ==> v.s.n in w.m && v.s.n != n)
  {
    var s := Order(v.s);
    assert v.s.Fork? ==> v.s.n in s;
    hide Order, Sorted, Split;
    RegionsGrown(v.d, s, n, r);
    if v.s.Fork? {
      SortedElsewhere(v.d, s, n, r);
      AllKnown(v.d, s);
      SplitElsewhere(v.d, s, n, r, g.start, Count(v.s.l));
    }
  }

  lemma RegionsGrown(d: Data, s: seq<Node>, n: Node, r: Region)
    requires n !in s
    ensures RegionSet(d[n := r], s) == RegionSet(d, s)
  {}

  lemma SplitElsewhere(d: Data, s: seq<Node>, n: Node, r: Region, addr: nat, k: nat)
    requires Sorted(d, s) && n !in s && Split(false, addr, d, s, k, k + 1)
    ensures Sorted(d[n := r], s) && Split(false, addr, d[n := r], s, k, k + 1)
  {
    SortedElsewhere(d, s, n, r);
    assert forall i :: 0 <= i < |s| ==> d[n := r][s[i]] == d[s[i]];
  }

  /** splay_insert: adds the region, unless its address is taken already. */
  method SplayInsert(addr: nat, size: nat, root: Node?, head: Node?, ghost v: View)
    returns (t: Node, head': Node?, ghost w: View)
    requires Stored(v, root, head) && size > 0
    requires Contains(Held(v), addr) || Fits(Held(v), addr, size)
    modifies v.m.Keys
    ensures Stored(w, t, head')
    ensures Contains(Held(v), addr) ==> Held(w) == Held(v) && w.m.Keys == v.m.Keys && w.free == v.free
    ensures !Contains(Held(v), addr) ==>
      Held(w) == Held(v) + {Region(addr, size, 0, false)} && RegionOf(t) == Region(addr, size, 0, false) &&
      Reuses(v, w, t) && (v.free == [] ==> fresh(t))
  {
    hide Index, Order, Parted, Fits, Contains, RegionSet;
    w := v;
    var r := root;
    if root != null {
      r, w := Find(false, addr, root, head, v);
      RootKnown(w, r, head, addr);
      if Compare(false, addr, RegionOf(r)) == 0 {
        return r, head, w;
      }
    } else {
      NoRoot(v, head, addr);
    }
    ghost var v1 := w;
    RootApt(w, r, head, addr);
    t, head', w := Add(Region(addr, size, 0, false), r != null && Compare(false, addr, RegionOf(r)) < 0, r, head, v1);
  }

  lemma RootKnown(v: View, t: Node?, head: Node?, addr: nat)
    requires Index(v, t, head) && Parted(v, false, addr)
    ensures t == null <==> v.s.Nil?
    ensures t != null ==> v.s.n == t && t in v.d && (Contains(Held(v), addr) <==> Compare(false, addr, v.d[t]) == 0)
  {
    IndexParts(v, t, head);
    if v.s.Fork? {
      RootIndex(v.s);
      ContainedAtRoot(v.d, Order(v.s), Count(v.s.l), addr);
    }
  }

  lemma NoRoot(v: View, head: Node?, addr: nat)
    requires Index(v, null, head)
    ensures Parted(v, false, addr) && !Contains(Held(v), addr) && Held(v) == {}
  {
    IndexParts(v, null, head);
  }

  lemma RootApt(v: View, t: Node?, head: Node?, addr: nat)
    requires Index(v, t, head) && (t != null ==> t in v.d && Compare(false, addr, v.d[t]) != 0)
    ensures t != null ==> Apt(v, addr, Compare(false, addr, v.d[t]) < 0)
    ensures t == null ==> Apt(v, addr, false)
  {
    IndexParts(v, t, head);
  }

  /** The root has no left child: its right one takes its place. */
  method UnlinkLeftmost(t: Node, head: Node?, ghost v: View) returns (x: Node?, ghost w: View)
    requires Stored(v, t, head) && v.s.Fork? && v.s.l.Nil? && t in v.d
    modifies t`left
    ensures Stored(w, x, t) && w.d == v.d && w.free == [t] + v.free && w.m.Keys == v.m.Keys
    ensures Held(w) == Without(Held(v), v.d[t].start)
  {
    hide Index, Order, NoDup, Spells, Sorted, RegionSet, Without;
    IndexParts(v, t, head);
    Bare(v, t, head);
    x := t.right;
    w := View(SetLeft(v.m, t, head), v.d, v.s.r, [t] + v.free);
    Deleted(v, head, w, x);
    t.left := head;
  }

  lemma {:induction false} Bare(v: View, t: Node, head: Node?)
    requires Index(v, t, head) && v.s.Fork? && v.s.l.Nil?
    ensures t in v.m && Spells(SetLeft(v.m, t, head), v.s.r, v.m[t].r)
    ensures Order(v.s.r) == Order(v.s.l) + Order(v.s.r)
    ensures forall x :: x in v.free && x in v.m ==> SetLeft(v.m, t, head)[x] == v.m[x]
  {
    assert t !in v.free && t !in Order(v.s.r) by {
      Apart(Order(v.s), v.free);
      ForkApart(v.s);
      assert t in Order(v.s);
    }
    assert [] + Order(v.s.r) == Order(v.s.r);
    Frame(v.m, v.s.r, v.m[t].r, t, Kids(head, v.m[t].r));
  }

  /** The same two stores in memory. */
  method Rejoin(x: Node, t: Node, head: Node?, ghost m: Memory, ghost d: Data) returns (ghost m': Memory)
    requires Holds(m) && Describes(d) && x in m && t in m && x != t
    modifies x`right, t`left
    ensures Describes(d) && Holds(m') && m' == SetLeft(SetRight(m, x, m[t].r), t, head)
  {
    m' := SetLeft(SetRight(m, x, m[t].r), t, head);
    x.right := t.right;
    t.left := head;
  }

  /** Splaying the left subtree leaves its root x without a right child; the right subtree of t takes that place. */
  method UnlinkJoined(addr: nat, t: Node, head: Node?, ghost v: View) returns (x: Node?, ghost w: View)
    requires Stored(v, t, head) && v.s.Fork? && v.s.l.Fork? && t in v.d && Parted(v, false, addr)
    modifies v.m.Keys`left, v.m.Keys`right
    ensures Stored(w, x, t) && w.d == v.d && w.free == [t] + v.free && w.m.Keys == v.m.Keys
    ensures Held(w) == Without(Held(v), v.d[t].start)
  {
    hide Index, Order, NoDup, Spells, Sorted, RegionSet, Without, Split, Parted, SetLeft, SetRight;
    IndexParts(v, t, head);
    LeftPart(v, t, head, addr);
    ghost var m1, l;
    x, m1, l := Splay(false, addr, t.left, v.m, v.d, v.s.l);
    LeftSplayed(v, t, head, addr, m1, l, x);
    assert x.right == null;
    m1 := Rejoin(x, t, head, m1, v.d);
    w := View(m1, v.d, Fork(l.l, x, v.s.r), [t] + v.free);
    Deleted(v, head, w, x);
  }

  lemma {:induction false} LeftPart(v: View, t: Node, head: Node?, addr: nat)
    requires Index(v, t, head) && v.s.Fork? && Parted(v, false, addr)
    ensures t in v.m && Spells(v.m, v.s.l, v.m[t].l) && NoDup(Order(v.s.l)) && Sorted(v.d, Order(v.s.l))
    ensures t !in Order(v.s.l)
  {
    IndexParts(v, t, head);
    ForkApart(v.s);
    LeftBelow(v, addr);
  }

  lemma {:induction false} LeftSplayed(v: View, t: Node, head: Node?, addr: nat, m1: Memory, l: Shape, x: Node?)
    requires Index(v, t, head) && v.s.Fork? && v.s.l.Fork? && Parted(v, false, addr)
    requires m1.Keys == v.m.Keys && (forall n :: n in v.m && n !in Order(v.s.l) ==> m1[n] == v.m[n])
    requires Spells(m1, l, x) && Order(l) == Order(v.s.l)
    requires l.Fork? ==> Sorted(v.d, Order(l)) && Split(false, addr, v.d, Order(l), Count(l.l), Count(l.l) + 1)
    ensures x != null && l.Fork? && x in m1 && m1[x].r == null && t in m1 && m1[t] == v.m[t] && x != t
    ensures Spells(Joined(v, head, m1, x), Fork(l.l, x, v.s.r), x) && Joined(v, head, m1, x).Keys == v.m.Keys
    ensures Order(Fork(l.l, x, v.s.r)) == Order(v.s.l) + Order(v.s.r)
    ensures forall n :: n in v.free && n in v.m ==> Joined(v, head, m1, x)[n] == v.m[n]
    ensures Joined(v, head, m1, x)[t].l == head
  {
    RootIndex(v.s.l);
    LeftPart(v, t, head, addr);
    LeftBelow(v, addr);
    assert l.Fork?;
    RootIndex(l);
    hide Index, Parted, Sorted, Split, NoDup;
    LastOnTop(v.d, addr, Order(l), Count(l.l));
    EmptyRight(l);
    assert x in Order(l);
    JoinedMemory(v, head, m1, l, x);
  }

  /** splay_delete: removes the region starting at addr, if there is one, and keeps its node for reuse. */
  method SplayDelete(addr: nat, root: Node?, head: Node?, ghost v: View)
    returns (t: Node?, head': Node?, ghost w: View)
    requires Stored(v, root, head)
    modifies v.m.Keys`left, v.m.Keys`right
    ensures Stored(w, t, head') && Held(w) == Without(Held(v), addr) && w.d == v.d && w.m.Keys == v.m.Keys
    ensures if Held(w) == Held(v) then w.free == v.free && head' == head
            else head' != null && w.free == [head'] + v.free && v.d.Keys == v.m.Keys && v.d[head'].start == addr
  {
    hide Index, Order, Parted, RegionSet;
    t, head', w := root, head, v;
    if root == null {
      NoRoot(v, head, addr);
      return;
    }
    t, w := Find(false, addr, root, head, v);
    RootStart(w, t, head, addr);
    if t.start == addr {
      head' := t;
      if t.left == null {
        t, w := UnlinkLeftmost(t, head, w);
      } else {
        t, w := UnlinkJoined(addr, t, head, w);
      }
    }
  }

  lemma RootStart(v: View, t: Node, head: Node?, addr: nat)
    requires Index(v, t, head) && Parted(v, false, addr)
    ensures v.s.Fork? && v.s.n == t && t in v.d && t in v.m && v.d.Keys == v.m.Keys && v.d[t] in Held(v)
    ensures v.d[t].start != addr ==> Without(Held(v), addr) == Held(v)
    ensures v.m[t].l == null <==> v.s.l.Nil?
  {
    IndexParts(v, t, head);
    assert t in Order(v.s);
    if v.d[t].start != addr { StartsAtRoot(v, addr); }
  }
}
