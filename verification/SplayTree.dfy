/** The bounds checker's index of address regions (lib/bcheck.c): a destructive top-down splay tree.
    A `Memory` is the pointer part of some nodes as a value and a `Data` their regions; `Holds` and `Describes` tie
    them to the nodes, and `Spells` says that the pointers form a given tree. */
module SplayTree {

  class Node {
    var left: Node?
    var right: Node?
    var start: nat
    var size: nat
    var kind: nat
    var invalid: bool

    constructor ()
      ensures left == null && right == null
    {
      left, right, start, size, kind, invalid := null, null, 0, 0, 0, false;
    }
  }

  datatype Kids = Kids(l: Node?, r: Node?)
  type Memory = map<Node, Kids>

  datatype Region = Region(start: nat, size: nat, kind: nat, invalid: bool)
  type Data = map<Node, Region>

  ghost predicate Holds(m: Memory)
    reads m.Keys`left, m.Keys`right
  {
    forall n :: n in m.Keys ==> n.left == m[n].l && n.right == m[n].r
  }

  ghost predicate Describes(d: Data)
    reads d.Keys`start, d.Keys`size, d.Keys`kind, d.Keys`invalid
  {
    forall n :: n in d.Keys ==> d[n] == Region(n.start, n.size, n.kind, n.invalid)
  }

  ghost function SetLeft(m: Memory, n: Node, p: Node?): Memory
    requires n in m
  {
    m[n := m[n].(l := p)]
  }

  ghost function SetRight(m: Memory, n: Node, p: Node?): Memory
    requires n in m
  {
    m[n := m[n].(r := p)]
  }

  datatype Shape = Nil | Fork(l: Shape, n: Node, r: Shape)

  ghost function Order(s: Shape): seq<Node>
  {
    match s
    case Nil => []
    case Fork(l, n, r) => Order(l) + [n] + Order(r)
  }

  ghost predicate Spells(m: Memory, s: Shape, p: Node?)
  {
    match s
    case Nil => p == null
    case Fork(l, n, r) => p == n && n in m && Spells(m, l, m[n].l) && Spells(m, r, m[n].r)
  }

  ghost predicate NoDup(s: seq<Node>)
  {
    forall i, j :: 0 <= i < j < |s| ==> s[i] != s[j]
  }

  /** Parts of a sequence without duplicates have none either, and share no element. */
  lemma Apart(a: seq<Node>, b: seq<Node>)
    requires NoDup(a + b)
    ensures NoDup(a) && NoDup(b)
    ensures forall x :: x in a ==> x !in b
  {
    var s := a + b;
    assert forall i :: 0 <= i < |a| ==> s[i] == a[i];
    assert forall i :: 0 <= i < |b| ==> s[|a| + i] == b[i];
  }

  lemma ForkApart(s: Shape)
    requires s.Fork? && NoDup(Order(s))
    ensures NoDup(Order(s.l)) && NoDup(Order(s.r)) && s.n !in Order(s.l) && s.n !in Order(s.r)
    ensures forall x :: x in Order(s.l) ==> x !in Order(s.r)
  {
    Apart(Order(s.l) + [s.n], Order(s.r));
    Apart(Order(s.l), [s.n]);
    assert s.n in Order(s.l) + [s.n] && s.n in [s.n];
    assert forall x :: x in Order(s.l) ==> x in Order(s.l) + [s.n];
  }

  /** A tree is untouched by a store to a node outside it. */
  lemma {:induction false} Frame(m: Memory, s: Shape, p: Node?, x: Node, k: Kids)
    requires Spells(m, s, p) && x !in Order(s)
    ensures Spells(m[x := k], s, p)
  {
    if s.Fork? {
      Frame(m, s.l, m[s.n].l, x, k);
      Frame(m, s.r, m[s.n].r, x, k);
    }
  }

  // The two half-built trees.

  /** A chain hanging off the header: `n` is its lowest node, whose inner pointer is still to be set. */
  datatype Spine = End | Link(outer: Spine, sub: Shape, n: Node)

  function Tail(c: Spine, header: Node): Node { if c.End? then header else c.n }

  ghost function LOrder(c: Spine): seq<Node>
  {
    if c.End? then [] else LOrder(c.outer) + Order(c.sub) + [c.n]
  }

  ghost function ROrder(c: Spine): seq<Node>
  {
    if c.End? then [] else [c.n] + Order(c.sub) + ROrder(c.outer)
  }

  ghost predicate LSpells(m: Memory, c: Spine, header: Node)
  {
    c.End? || (c.n in m && Tail(c.outer, header) in m && Spells(m, c.sub, m[c.n].l) &&
               m[Tail(c.outer, header)].r == c.n && LSpells(m, c.outer, header))
  }

  ghost predicate RSpells(m: Memory, c: Spine, header: Node)
  {
    c.End? || (c.n in m && Tail(c.outer, header) in m && Spells(m, c.sub, m[c.n].r) &&
               m[Tail(c.outer, header)].l == c.n && RSpells(m, c.outer, header))
  }

  lemma LApart(c: Spine)
    requires c.Link? && NoDup(LOrder(c))
    ensures NoDup(LOrder(c.outer)) && c.n !in LOrder(c.outer) && c.n !in Order(c.sub)
    ensures c.n in LOrder(c) && (c.outer.Link? ==> c.outer.n != c.n)
    ensures forall x :: x !in LOrder(c) ==> x !in LOrder(c.outer) && x !in Order(c.sub)
  {
    var a := LOrder(c.outer) + Order(c.sub);
    Apart(a, [c.n]);
    Apart(LOrder(c.outer), Order(c.sub));
    assert forall x :: x in LOrder(c.outer) || x in Order(c.sub) ==> x in a;
    assert c.n in [c.n];
    assert c.outer.Link? ==> c.outer.n in LOrder(c.outer);
  }

  lemma RApart(c: Spine)
    requires c.Link? && NoDup(ROrder(c))
    ensures NoDup(ROrder(c.outer)) && c.n !in ROrder(c.outer) && c.n !in Order(c.sub)
    ensures c.n in ROrder(c) && (c.outer.Link? ==> c.outer.n != c.n)
    ensures forall x :: x !in ROrder(c) ==> x !in ROrder(c.outer) && x !in Order(c.sub)
  {
    Apart([c.n] + Order(c.sub), ROrder(c.outer));
    Apart([c.n], Order(c.sub));
    assert c.n in [c.n] + Order(c.sub) && c.n in [c.n];
    assert c.outer.Link? ==> c.outer.n in ROrder(c.outer);
  }

  /** Stores to the free inner pointer of the lowest node, or outside the chain, leave it alone. */
  lemma {:induction false} LFrame(m: Memory, c: Spine, header: Node, x: Node, k: Kids)
    requires LSpells(m, c, header) && NoDup(LOrder(c)) && header !in LOrder(c)
    requires (x !in LOrder(c) && x != header) || (x == Tail(c, header) && x in m && k.l == m[x].l)
             || (x == header && x in m && k.r == m[x].r)
    ensures LSpells(m[x := k], c, header)
  {
    if c.Link? {
      LApart(c);
      Frame(m, c.sub, m[c.n].l, x, k);
      LFrame(m, c.outer, header, x, k);
    }
  }

  lemma {:induction false} RFrame(m: Memory, c: Spine, header: Node, x: Node, k: Kids)
    requires RSpells(m, c, header) && NoDup(ROrder(c)) && header !in ROrder(c)
    requires (x !in ROrder(c) && x != header) || (x == Tail(c, header) && x in m && k.r == m[x].r)
             || (x == header && x in m && k.l == m[x].l)
    ensures RSpells(m[x := k], c, header)
  {
    if c.Link? {
      RApart(c);
      Frame(m, c.sub, m[c.n].r, x, k);
      RFrame(m, c.outer, header, x, k);
    }
  }

  ghost function LClose(c: Spine, hole: Shape): (s: Shape)
    ensures Order(s) == LOrder(c) + Order(hole)
    decreases c
  {
    if c.End? then hole else LClose(c.outer, Fork(c.sub, c.n, hole))
  }

  ghost function RClose(c: Spine, hole: Shape): (s: Shape)
    ensures Order(s) == Order(hole) + ROrder(c)
    decreases c
  {
    if c.End? then hole else RClose(c.outer, Fork(hole, c.n, c.sub))
  }

  /** Filling the hole of a chain gives a tree. */
  lemma {:induction false} LCloseSpells(m: Memory, c: Spine, hole: Shape, header: Node)
    requires LSpells(m, c, header) && Tail(c, header) in m && header in m && Spells(m, hole, m[Tail(c, header)].r)
    ensures Spells(m, LClose(c, hole), m[header].r)
    decreases c
  {
    if c.Link? { LCloseSpells(m, c.outer, Fork(c.sub, c.n, hole), header); }
  }

  lemma {:induction false} RCloseSpells(m: Memory, c: Spine, hole: Shape, header: Node)
    requires RSpells(m, c, header) && Tail(c, header) in m && header in m && Spells(m, hole, m[Tail(c, header)].l)
    ensures Spells(m, RClose(c, hole), m[header].l)
    decreases c
  {
    if c.Link? { RCloseSpells(m, c.outer, Fork(hole, c.n, c.sub), header); }
  }

  // Pointer steps.

  ghost predicate Chains(m: Memory, header: Node, lc: Spine, rc: Spine)
  {
    && LSpells(m, lc, header) && RSpells(m, rc, header)
    && header in m && Tail(lc, header) in m && Tail(rc, header) in m
  }

  /** Header, both chains and the tree in between, which share no node. */
  ghost predicate Linked(m: Memory, header: Node, lc: Spine, s: Shape, rc: Spine, t: Node?)
  {
    Spells(m, s, t) && Chains(m, header, lc, rc) && NoDup([header] + LOrder(lc) + Order(s) + ROrder(rc))
  }

  lemma AllApart(header: Node, lc: Spine, s: Shape, rc: Spine)
    requires NoDup([header] + LOrder(lc) + Order(s) + ROrder(rc))
    ensures NoDup(LOrder(lc)) && NoDup(Order(s)) && NoDup(ROrder(rc))
    ensures header !in LOrder(lc) && header !in Order(s) && header !in ROrder(rc)
    ensures forall x :: x in Order(s) ==> x !in LOrder(lc) && x !in ROrder(rc)
    ensures forall x :: x in LOrder(lc) ==> x !in ROrder(rc)
  {
    var hl := [header] + LOrder(lc);
    Apart(hl + Order(s), ROrder(rc));
    Apart(hl, Order(s));
    Apart([header], LOrder(lc));
    assert header in hl && header in [header];
    assert forall x :: x in LOrder(lc) ==> x in hl;
    assert forall x :: x in hl || x in Order(s) ==> x in hl + Order(s);
  }

  lemma ChainsFrame(m: Memory, header: Node, lc: Spine, s: Shape, rc: Spine, x: Node, k: Kids)
    requires Chains(m, header, lc, rc) && NoDup([header] + LOrder(lc) + Order(s) + ROrder(rc)) && x in Order(s)
    ensures Chains(m[x := k], header, lc, rc)
  {
    AllApart(header, lc, s, rc);
    LFrame(m, lc, header, x, k);
    RFrame(m, rc, header, x, k);
  }

  ghost function TurnRight(s: Shape): (r: Shape)
    requires s.Fork? && s.l.Fork?
    ensures Order(r) == Order(s)
  {
    Fork(s.l.l, s.l.n, Fork(s.l.r, s.n, s.r))
  }

  ghost function TurnLeft(s: Shape): (r: Shape)
    requires s.Fork? && s.r.Fork?
    ensures Order(r) == Order(s)
  {
    Fork(Fork(s.l, s.n, s.r.l), s.r.n, s.r.r)
  }

  /** The left child becomes the root, its right subtree the old root's left one. */
  lemma RotatedRight(m: Memory, header: Node, lc: Spine, s: Shape, rc: Spine, m1: Memory, m2: Memory)
    requires s.Fork? && s.l.Fork? && s.l.n in m && Linked(m, header, lc, s, rc, s.n)
    requires m1 == SetLeft(m, s.n, m[s.l.n].r) && s.l.n in m1 && m2 == SetRight(m1, s.l.n, s.n)
    ensures Linked(m2, header, lc, TurnRight(s), rc, s.l.n)
  {
    var k1, k2 := m1[s.n], m2[s.l.n];
    assert s.n in Order(s) && s.l.n in Order(s.l) && s.l.n in Order(s);
    ChainsFrame(m, header, lc, s, rc, s.n, k1);
    ChainsFrame(m1, header, lc, s, rc, s.l.n, k2);
    AllApart(header, lc, s, rc);
    ForkApart(s);
    RotatedRightTree(m, s, k1, k2);
  }

  lemma RotatedRightTree(m: Memory, s: Shape, k1: Kids, k2: Kids)
    requires s.Fork? && s.l.Fork? && s.l.n in m && Spells(m, s, s.n) && NoDup(Order(s))
    requires k1 == Kids(m[s.l.n].r, m[s.n].r) && k2 == Kids(m[s.l.n].l, s.n)
    ensures Spells(m[s.n := k1][s.l.n := k2], TurnRight(s), s.l.n)
  {
    ForkApart(s);
    ForkApart(s.l);
    var y := s.l.n;
    assert y in Order(s.l);
    assert s.n !in Order(s.l.l) && s.n !in Order(s.l.r);
    Frame(m, s.l.l, m[y].l, s.n, k1);
    Frame(m[s.n := k1], s.l.l, m[y].l, y, k2);
    Frame(m, s.l.r, m[y].r, s.n, k1);
    Frame(m[s.n := k1], s.l.r, m[y].r, y, k2);
    Frame(m, s.r, m[s.n].r, s.n, k1);
    Frame(m[s.n := k1], s.r, m[s.n].r, y, k2);
  }

  /** The right child becomes the root, its left subtree the old root's right one. */
  lemma RotatedLeft(m: Memory, header: Node, lc: Spine, s: Shape, rc: Spine, m1: Memory, m2: Memory)
    requires s.Fork? && s.r.Fork? && s.r.n in m && Linked(m, header, lc, s, rc, s.n)
    requires m1 == SetRight(m, s.n, m[s.r.n].l) && s.r.n in m1 && m2 == SetLeft(m1, s.r.n, s.n)
    ensures Linked(m2, header, lc, TurnLeft(s), rc, s.r.n)
  {
    var k1, k2 := m1[s.n], m2[s.r.n];
    assert s.n in Order(s) && s.r.n in Order(s.r) && s.r.n in Order(s);
    ChainsFrame(m, header, lc, s, rc, s.n, k1);
    ChainsFrame(m1, header, lc, s, rc, s.r.n, k2);
    AllApart(header, lc, s, rc);
    ForkApart(s);
    RotatedLeftTree(m, s, k1, k2);
  }

  lemma RotatedLeftTree(m: Memory, s: Shape, k1: Kids, k2: Kids)
    requires s.Fork? && s.r.Fork? && s.r.n in m && Spells(m, s, s.n) && NoDup(Order(s))
    requires k1 == Kids(m[s.n].l, m[s.r.n].l) && k2 == Kids(s.n, m[s.r.n].r)
    ensures Spells(m[s.n := k1][s.r.n := k2], TurnLeft(s), s.r.n)
  {
    ForkApart(s);
    ForkApart(s.r);
    var y := s.r.n;
    assert y in Order(s.r);
    assert s.n !in Order(s.r.l) && s.n !in Order(s.r.r);
    Frame(m, s.r.l, m[y].l, s.n, k1);
    Frame(m[s.n := k1], s.r.l, m[y].l, y, k2);
    Frame(m, s.r.r, m[y].r, s.n, k1);
    Frame(m[s.n := k1], s.r.r, m[y].r, y, k2);
    Frame(m, s.l, m[s.n].l, s.n, k1);
    Frame(m[s.n := k1], s.l, m[s.n].l, y, k2);
  }

  /** The root and its right subtree join the right-hand chain; the search goes on to the left. */
  lemma LinkedRight(m: Memory, header: Node, lc: Spine, s: Shape, rc: Spine, m1: Memory)
    requires s.Fork? && Linked(m, header, lc, s, rc, s.n) && m1 == SetLeft(m, Tail(rc, header), s.n)
    ensures s.n in m1 && Linked(m1, header, lc, s.l, Link(rc, s.r, s.n), m1[s.n].l) && m1[s.n] == m[s.n]
  {
    var r := Tail(rc, header);
    AllApart(header, lc, s, rc);
    assert [header] + LOrder(lc) + Order(s.l) + ROrder(Link(rc, s.r, s.n))
        == [header] + LOrder(lc) + Order(s) + ROrder(rc);
    assert s.n in Order(s) && r !in Order(s) && (rc.Link? ==> r in ROrder(rc));
    Frame(m, s, s.n, r, m1[r]);
    LFrame(m, lc, header, r, m1[r]);
    RFrame(m, rc, header, r, m1[r]);
  }

  /** The root and its left subtree join the left-hand chain; the search goes on to the right. */
  lemma LinkedLeft(m: Memory, header: Node, lc: Spine, s: Shape, rc: Spine, m1: Memory)
    requires s.Fork? && Linked(m, header, lc, s, rc, s.n) && m1 == SetRight(m, Tail(lc, header), s.n)
    ensures s.n in m1 && Linked(m1, header, Link(lc, s.l, s.n), s.r, rc, m1[s.n].r) && m1[s.n] == m[s.n]
  {
    var l := Tail(lc, header);
    AllApart(header, lc, s, rc);
    assert [header] + LOrder(Link(lc, s.l, s.n)) + Order(s.r) + ROrder(rc)
        == [header] + LOrder(lc) + Order(s) + ROrder(rc);
    assert s.n in Order(s) && l !in Order(s) && (lc.Link? ==> l in LOrder(lc));
    Frame(m, s, s.n, l, m1[l]);
    LFrame(m, lc, header, l, m1[l]);
    RFrame(m, rc, header, l, m1[l]);
  }

  /** The root's subtrees fill the two holes and the header's chains become its subtrees. */
  lemma Assembled(m: Memory, header: Node, lc: Spine, s: Shape, rc: Spine, m1: Memory, m2: Memory, m3: Memory)
    requires s.Fork? && Linked(m, header, lc, s, rc, s.n)
    requires m1 == SetRight(m, Tail(lc, header), m[s.n].l) && Tail(rc, header) in m1
    requires m2 == SetLeft(m1, Tail(rc, header), m[s.n].r) && header in m2
    requires m3 == m2[s.n := Kids(m2[header].r, m2[header].l)]
    ensures Spells(m3, Fork(LClose(lc, s.l), s.n, RClose(rc, s.r)), s.n)
  {
    var l, r := Tail(lc, header), Tail(rc, header);
    AllApart(header, lc, s, rc);
    ForkApart(s);
    assert s.n in Order(s) && l !in Order(s) && r !in Order(s);
    assert (lc.Link? ==> l in LOrder(lc)) && (rc.Link? ==> r in ROrder(rc));
    Frame(m, s, s.n, l, m1[l]);
    Frame(m1, s, s.n, r, m2[r]);
    LFrame(m, lc, header, l, m1[l]);
    LFrame(m1, lc, header, r, m2[r]);
    RFrame(m, rc, header, l, m1[l]);
    RFrame(m1, rc, header, r, m2[r]);
    LCloseSpells(m2, lc, s.l, header);
    RCloseSpells(m2, rc, s.r, header);
    assert s.n !in Order(LClose(lc, s.l)) && s.n !in Order(RClose(rc, s.r));
    Frame(m2, LClose(lc, s.l), m2[header].r, s.n, m3[s.n]);
    Frame(m2, RClose(rc, s.r), m2[header].l, s.n, m3[s.n]);
  }

  // The state of the splay loop: addresses.

  /** Non-empty regions, each ending before the next begins. */
  ghost predicate Sorted(d: Data, s: seq<Node>)
  {
    && (forall i :: 0 <= i < |s| ==> s[i] in d && d[s[i]].size > 0)
    && (forall i, j :: 0 <= i < j < |s| ==> d[s[i]].start + d[s[i]].size <= d[s[j]].start)
  }

  lemma AllKnown(d: Data, s: seq<Node>)
    requires Sorted(d, s)
    ensures forall i :: 0 <= i < |s| ==> s[i] in d
  {}

  /** compare, and compare_end when `byEnd`. */
  function Compare(byEnd: bool, addr: nat, g: Region): int
  {
    if byEnd then
      if addr < g.start + g.size then -1 else if addr > g.start + g.size then 1 else 0
    else
      if addr < g.start then -1 else if addr >= g.start + g.size then 1 else 0
  }

  function RegionOf(n: Node): Region
    reads n`start, n`size, n`kind, n`invalid
  {
    Region(n.start, n.size, n.kind, n.invalid)
  }

  /** Regions before position `lo` lie below the address sought, those from `hi` on above it. */
  ghost predicate Split(byEnd: bool, addr: nat, d: Data, s: seq<Node>, lo: nat, hi: nat)
    requires forall i :: 0 <= i < |s| ==> s[i] in d
  {
    && (forall i :: 0 <= i < lo && i < |s| ==>
          if byEnd then d[s[i]].start + d[s[i]].size < addr else d[s[i]].start + d[s[i]].size <= addr)
    && (forall i :: hi <= i < |s| ==> if byEnd then d[s[i]].start + d[s[i]].size > addr else d[s[i]].start > addr)
  }

  ghost function Before(lc: Spine): nat { |LOrder(lc)| }

  ghost function Count(s: Shape): nat { |Order(s)| }

  ghost predicate Whole(all: seq<Node>, lc: Spine, s: Shape, rc: Spine)
  {
    all == LOrder(lc) + Order(s) + ROrder(rc)
  }

  ghost predicate Located(byEnd: bool, addr: nat, d: Data, all: seq<Node>, lc: Spine, s: Shape, rc: Spine)
  {
    && Whole(all, lc, s, rc) && Sorted(d, all)
    && Split(byEnd, addr, d, all, Before(lc), Before(lc) + Count(s))
  }

  lemma Regroup(a: seq<Node>, b: seq<Node>, n: Node, c: seq<Node>, e: seq<Node>)
    ensures a + (b + [n] + c) + e == a + b + ([n] + c + e)
    ensures a + (b + [n] + c) + e == (a + b + [n]) + c + e
    ensures a + (b + [n] + c) + e == (a + b) + [n] + (c + e)
    ensures |a + b + [n]| == |a| + |b| + 1
  {}

  /** Moving the root and one side to a chain, or closing the chains, leaves the order alone. */
  lemma Orders(lc: Spine, s: Shape, rc: Spine, all: seq<Node>, k: nat)
    requires s.Fork? && Whole(all, lc, s, rc) && k == Before(lc) + Count(s.l)
    ensures (s.l.Nil? ==> Count(s.l) == 0) && (s.r.Nil? ==> Count(s.r) == 0)
    ensures k < |all| && all[k] == s.n && k + 1 + Count(s.r) == Before(lc) + Count(s) <= |all|
    ensures Whole(all, lc, s.l, Link(rc, s.r, s.n))
    ensures Whole(all, Link(lc, s.l, s.n), s.r, rc) && Before(Link(lc, s.l, s.n)) == k + 1
    ensures Order(Fork(LClose(lc, s.l), s.n, RClose(rc, s.r))) == all && Count(LClose(lc, s.l)) == k
  {
    Regroup(LOrder(lc), Order(s.l), s.n, Order(s.r), ROrder(rc));
  }

  /** What one comparison says about the regions on either side. */
  lemma SplitAt(byEnd: bool, addr: nat, d: Data, all: seq<Node>, k: nat, lo: nat, hi: nat)
    requires Sorted(d, all) && k < |all| && Split(byEnd, addr, d, all, lo, hi)
    ensures Compare(byEnd, addr, d[all[k]]) < 0 ==> Split(byEnd, addr, d, all, lo, k)
    ensures Compare(byEnd, addr, d[all[k]]) <= 0 ==> Split(byEnd, addr, d, all, lo, k + 1)
    ensures Compare(byEnd, addr, d[all[k]]) > 0 ==> Split(byEnd, addr, d, all, k + 1, hi)
    ensures Compare(byEnd, addr, d[all[k]]) >= 0 ==> Split(byEnd, addr, d, all, k, hi)
  {
    var n := d[all[k]];
    assert forall i :: 0 <= i < k ==> d[all[i]].start + d[all[i]].size <= n.start;
    assert forall i :: k < i < |all| ==> n.start + n.size <= d[all[i]].start;
  }

  lemma LocatedRight(byEnd: bool, addr: nat, d: Data, all: seq<Node>, lc: Spine, s: Shape, rc: Spine)
    requires s.Fork? && s.n in d && Located(byEnd, addr, d, all, lc, s, rc) && Compare(byEnd, addr, d[s.n]) < 0
    ensures Located(byEnd, addr, d, all, lc, s.l, Link(rc, s.r, s.n))
  {
    hide Sorted, Split, Compare, Whole, Before, Count, Order;
    AllKnown(d, all);
    var lo := Before(lc);
    Orders(lc, s, rc, all, lo + Count(s.l));
    SplitAt(byEnd, addr, d, all, lo + Count(s.l), lo, lo + Count(s));
  }

  lemma LocatedLeft(byEnd: bool, addr: nat, d: Data, all: seq<Node>, lc: Spine, s: Shape, rc: Spine)
    requires s.Fork? && s.n in d && Located(byEnd, addr, d, all, lc, s, rc) && Compare(byEnd, addr, d[s.n]) > 0
    ensures Located(byEnd, addr, d, all, Link(lc, s.l, s.n), s.r, rc)
  {
    hide Sorted, Split, Compare, Whole, Before, Count, Order;
    AllKnown(d, all);
    var lo := Before(lc);
    Orders(lc, s, rc, all, lo + Count(s.l));
    SplitAt(byEnd, addr, d, all, lo + Count(s.l), lo, lo + Count(s));
  }

  /** The loop may stop here. */
  ghost predicate Settled(byEnd: bool, addr: nat, d: Data, s: Shape)
  {
    s.Fork? && s.n in d && (s.l.Nil? || Compare(byEnd, addr, d[s.n]) >= 0)
    && (s.r.Nil? || Compare(byEnd, addr, d[s.n]) <= 0)
  }

  lemma SettledAt(byEnd: bool, addr: nat, d: Data, all: seq<Node>, k: nat, lo: nat, hi: nat)
    requires Sorted(d, all) && lo <= k < hi <= |all| && Split(byEnd, addr, d, all, lo, hi)
    requires k == lo || Compare(byEnd, addr, d[all[k]]) >= 0
    requires k + 1 == hi || Compare(byEnd, addr, d[all[k]]) <= 0
    ensures Split(byEnd, addr, d, all, k, k + 1)
  {
    hide *;
    AllKnown(d, all);
    SplitAt(byEnd, addr, d, all, k, lo, hi);
    SplitAt(byEnd, addr, d, all, k, lo, k + 1);
  }

  lemma LocatedEnd(byEnd: bool, addr: nat, d: Data, all: seq<Node>, lc: Spine, s: Shape, rc: Spine)
    requires Located(byEnd, addr, d, all, lc, s, rc) && Settled(byEnd, addr, d, s)
    ensures var f := Fork(LClose(lc, s.l), s.n, RClose(rc, s.r));
      Order(f) == all && Sorted(d, all) && Split(byEnd, addr, d, all, Count(f.l), Count(f.l) + 1)
  {
    hide Sorted, Split, Compare, Whole, Before, Count, Order;
    AllKnown(d, all);
    var lo := Before(lc);
    Orders(lc, s, rc, all, lo + Count(s.l));
    SettledAt(byEnd, addr, d, all, lo + Count(s.l), lo, lo + Count(s));
  }

  lemma TurnedLocated(byEnd: bool, addr: nat, d: Data, all: seq<Node>, lc: Spine, s: Shape, rc: Spine)
    requires s.Fork? && Located(byEnd, addr, d, all, lc, s, rc)
    ensures s.l.Fork? ==> Located(byEnd, addr, d, all, lc, TurnRight(s), rc)
    ensures s.r.Fork? ==> Located(byEnd, addr, d, all, lc, TurnLeft(s), rc)
  {
    hide Sorted, Split, LOrder, ROrder;
  }

  // The loop.

  /** Only nodes of `all`, and the header, have changed. */
  ghost predicate Elsewhere(m0: Memory, m: Memory, header: Node, all: seq<Node>)
  {
    m.Keys == m0.Keys + {header} && header !in m0 && forall n :: n in m0 && n !in all ==> m[n] == m0[n]
  }

  lemma StoredElsewhere(m0: Memory, m: Memory, header: Node, all: seq<Node>, x: Node, k: Kids)
    requires Elsewhere(m0, m, header, all) && x in m && (x in all || x == header)
    ensures Elsewhere(m0, m[x := k], header, all)
  {}

  /** What splaying starts from: `m0` and `d` for the nodes `all` of the tree. */
  datatype Task = Task(byEnd: bool, addr: nat, m0: Memory, d: Data, all: seq<Node>, header: Node)

  /** The loop's state. */
  ghost predicate Splaying(k: Task, m: Memory, lc: Spine, s: Shape, rc: Spine, t: Node?)
  {
    && Elsewhere(k.m0, m, k.header, k.all)
    && Linked(m, k.header, lc, s, rc, t)
    && Located(k.byEnd, k.addr, k.d, k.all, lc, s, rc)
  }

  /** What one round reads. */
  lemma Known(k: Task, m: Memory, lc: Spine, s: Shape, rc: Spine, t: Node)
    requires Splaying(k, m, lc, s, rc, t)
    ensures s.Fork? && s.n == t && t in m && t in k.all && t in k.d && t in k.m0
    ensures m[t].l == null <==> s.l.Nil?
    ensures m[t].r == null <==> s.r.Nil?
    ensures s.l.Fork? ==> s.l.n == m[t].l && s.l.n in m && s.l.n in k.all && s.l.n in k.d && s.l.n in k.m0
    ensures s.r.Fork? ==> s.r.n == m[t].r && s.r.n in m && s.r.n in k.all && s.r.n in k.d && s.r.n in k.m0
    ensures |Order(s.l)| < |Order(s)| && |Order(s.r)| < |Order(s)|
    ensures TailKnown(k, m, lc, t) && TailKnown(k, m, rc, t)
  {
    KnownTree(k.all, m, lc, s, rc, t);
    KnownTails(k.all, lc, s, rc);
    AllApart(k.header, lc, s, rc);
  }

  ghost predicate TailKnown(k: Task, m: Memory, c: Spine, t: Node)
  {
    Tail(c, k.header) in m && Tail(c, k.header) != t && (c.Link? ==> c.n in k.all && c.n in k.m0)
  }

  lemma KnownTree(all: seq<Node>, m: Memory, lc: Spine, s: Shape, rc: Spine, t: Node)
    requires Spells(m, s, t) && all == LOrder(lc) + Order(s) + ROrder(rc)
    ensures s.Fork? && s.n == t && t in m && t in all && t in Order(s)
    ensures m[t].l == null <==> s.l.Nil?
    ensures m[t].r == null <==> s.r.Nil?
    ensures s.l.Fork? ==> s.l.n == m[t].l && s.l.n in m && s.l.n in all && s.l.n in Order(s)
    ensures s.r.Fork? ==> s.r.n == m[t].r && s.r.n in m && s.r.n in all && s.r.n in Order(s)
    ensures |Order(s.l)| < |Order(s)| && |Order(s.r)| < |Order(s)|
  {
    assert s.l.Fork? ==> s.l.n in Order(s.l);
    assert s.r.Fork? ==> s.r.n in Order(s.r);
  }

  lemma KnownTails(all: seq<Node>, lc: Spine, s: Shape, rc: Spine)
    requires all == LOrder(lc) + Order(s) + ROrder(rc)
    ensures lc.Link? ==> lc.n in all && lc.n in LOrder(lc)
    ensures rc.Link? ==> rc.n in all && rc.n in ROrder(rc)
  {
    assert lc.Link? ==> lc.n in LOrder(lc);
    assert rc.Link? ==> rc.n in ROrder(rc);
  }

  lemma SplayingTurnRight(k: Task, m: Memory, lc: Spine, s: Shape, rc: Spine, t: Node, m1: Memory, m2: Memory)
    requires Splaying(k, m, lc, s, rc, t) && s.l.Fork? && s.l.n in m && t in m
    requires m1 == SetLeft(m, t, m[s.l.n].r) && s.l.n in m1 && m2 == SetRight(m1, s.l.n, t)
    ensures Splaying(k, m2, lc, TurnRight(s), rc, s.l.n)
  {
    Known(k, m, lc, s, rc, t);
    hide Linked, Located, Elsewhere;
    TurnedLocated(k.byEnd, k.addr, k.d, k.all, lc, s, rc);
    RotatedRight(m, k.header, lc, s, rc, m1, m2);
    StoredElsewhere(k.m0, m, k.header, k.all, t, m1[t]);
    StoredElsewhere(k.m0, m1, k.header, k.all, s.l.n, m2[s.l.n]);
  }

  lemma SplayingTurnLeft(k: Task, m: Memory, lc: Spine, s: Shape, rc: Spine, t: Node, m1: Memory, m2: Memory)
    requires Splaying(k, m, lc, s, rc, t) && s.r.Fork? && s.r.n in m && t in m
    requires m1 == SetRight(m, t, m[s.r.n].l) && s.r.n in m1 && m2 == SetLeft(m1, s.r.n, t)
    ensures Splaying(k, m2, lc, TurnLeft(s), rc, s.r.n)
  {
    Known(k, m, lc, s, rc, t);
    hide Linked, Located, Elsewhere;
    TurnedLocated(k.byEnd, k.addr, k.d, k.all, lc, s, rc);
    RotatedLeft(m, k.header, lc, s, rc, m1, m2);
    StoredElsewhere(k.m0, m, k.header, k.all, t, m1[t]);
    StoredElsewhere(k.m0, m1, k.header, k.all, s.r.n, m2[s.r.n]);
  }

  lemma SplayingLinkRight(k: Task, m: Memory, lc: Spine, s: Shape, rc: Spine, t: Node, r: Node, m1: Memory)
    requires Splaying(k, m, lc, s, rc, t) && t in k.d && Compare(k.byEnd, k.addr, k.d[t]) < 0
    requires r == Tail(rc, k.header) && r in m && m1 == SetLeft(m, r, t)
    ensures s.Fork? && t in m1 && Splaying(k, m1, lc, s.l, Link(rc, s.r, t), m1[t].l)
  {
    Known(k, m, lc, s, rc, t);
    hide Linked, Located, Elsewhere;
    LinkedRight(m, k.header, lc, s, rc, m1);
    LocatedRight(k.byEnd, k.addr, k.d, k.all, lc, s, rc);
    StoredElsewhere(k.m0, m, k.header, k.all, r, m1[r]);
  }

  lemma SplayingLinkLeft(k: Task, m: Memory, lc: Spine, s: Shape, rc: Spine, t: Node, l: Node, m1: Memory)
    requires Splaying(k, m, lc, s, rc, t) && t in k.d && Compare(k.byEnd, k.addr, k.d[t]) > 0
    requires l == Tail(lc, k.header) && l in m && m1 == SetRight(m, l, t)
    ensures s.Fork? && t in m1 && Splaying(k, m1, Link(lc, s.l, t), s.r, rc, m1[t].r)
  {
    Known(k, m, lc, s, rc, t);
    hide Linked, Located, Elsewhere;
    LinkedLeft(m, k.header, lc, s, rc, m1);
    LocatedLeft(k.byEnd, k.addr, k.d, k.all, lc, s, rc);
    StoredElsewhere(k.m0, m, k.header, k.all, l, m1[l]);
  }

  // The same with the stores done.

  method StoreLeft(n: Node, p: Node?, ghost m: Memory, ghost d: Data) returns (ghost m': Memory)
    requires Describes(d) && Holds(m) && n in m
    modifies n`left
    ensures Describes(d) && Holds(m') && m' == SetLeft(m, n, p) && m'.Keys == m.Keys
  {
    m' := SetLeft(m, n, p);
    n.left := p;
  }

  method StoreRight(n: Node, p: Node?, ghost m: Memory, ghost d: Data) returns (ghost m': Memory)
    requires Describes(d) && Holds(m) && n in m
    modifies n`right
    ensures Describes(d) && Holds(m') && m' == SetRight(m, n, p) && m'.Keys == m.Keys
  {
    m' := SetRight(m, n, p);
    n.right := p;
  }

  /** Rotate right, in memory. */
  method RotateRight(t: Node, y: Node, ghost k: Task, ghost m: Memory, ghost lc: Spine, ghost s: Shape, ghost rc: Spine)
    returns (ghost m2: Memory)
    requires Describes(k.d) && Holds(m) && Splaying(k, m, lc, s, rc, t) && s.Fork? && s.l.Fork? && y == s.l.n
    modifies t`left, y`right
    ensures Describes(k.d) && Holds(m2) && m2.Keys == m.Keys && Splaying(k, m2, lc, TurnRight(s), rc, y)
  {
    Known(k, m, lc, s, rc, t);
    hide Splaying, TurnRight;
    ghost var m1 := StoreLeft(t, y.right, m, k.d);
    m2 := StoreRight(y, t, m1, k.d);
    SplayingTurnRight(k, m, lc, s, rc, t, m1, m2);
  }

  /** Rotate left, in memory. */
  method RotateLeft(t: Node, y: Node, ghost k: Task, ghost m: Memory, ghost lc: Spine, ghost s: Shape, ghost rc: Spine)
    returns (ghost m2: Memory)
    requires Describes(k.d) && Holds(m) && Splaying(k, m, lc, s, rc, t) && s.Fork? && s.r.Fork? && y == s.r.n
    modifies t`right, y`left
    ensures Describes(k.d) && Holds(m2) && m2.Keys == m.Keys && Splaying(k, m2, lc, TurnLeft(s), rc, y)
  {
    Known(k, m, lc, s, rc, t);
    hide Splaying, TurnLeft;
    ghost var m1 := StoreRight(t, y.left, m, k.d);
    m2 := StoreLeft(y, t, m1, k.d);
    SplayingTurnLeft(k, m, lc, s, rc, t, m1, m2);
  }

  /** Link right, in memory. */
  method LinkRight(t: Node, r: Node, ghost k: Task, ghost m: Memory, ghost lc: Spine, ghost s: Shape, ghost rc: Spine)
    returns (t': Node, ghost m': Memory)
    requires Describes(k.d) && Holds(m) && Splaying(k, m, lc, s, rc, t) && r == Tail(rc, k.header) && s.Fork? && s.l.Fork?
    requires t in k.d && Compare(k.byEnd, k.addr, k.d[t]) < 0
    modifies r`left
    ensures Describes(k.d) && Holds(m') && m'.Keys == m.Keys && Splaying(k, m', lc, s.l, Link(rc, s.r, t), t') && Count(s.l) < Count(s)
  {
    Known(k, m, lc, s, rc, t);
    hide Splaying, Compare;
    m' := StoreLeft(r, t, m, k.d);
    SplayingLinkRight(k, m, lc, s, rc, t, r, m');
    t' := t.left;
  }

  /** Link left, in memory. */
  method LinkLeft(t: Node, l: Node, ghost k: Task, ghost m: Memory, ghost lc: Spine, ghost s: Shape, ghost rc: Spine)
    returns (t': Node, ghost m': Memory)
    requires Describes(k.d) && Holds(m) && Splaying(k, m, lc, s, rc, t) && l == Tail(lc, k.header) && s.Fork? && s.r.Fork?
    requires t in k.d && Compare(k.byEnd, k.addr, k.d[t]) > 0
    modifies l`right
    ensures Describes(k.d) && Holds(m') && m'.Keys == m.Keys && Splaying(k, m', Link(lc, s.l, t), s.r, rc, t') && Count(s.r) < Count(s)
  {
    Known(k, m, lc, s, rc, t);
    hide Splaying, Compare;
    m' := StoreRight(l, t, m, k.d);
    SplayingLinkLeft(k, m, lc, s, rc, t, l, m');
    t' := t.right;
  }

  /** A round of the loop with the address to the left of t. */
  method StepLeft(byEnd: bool, addr: nat, t: Node, r: Node,
                  ghost k: Task, ghost m: Memory, ghost lc: Spine, ghost s: Shape, ghost rc: Spine)
    returns (stop: bool, t': Node, r': Node, ghost m': Memory, ghost s': Shape, ghost rc': Spine)
    requires Holds(m) && Describes(k.d) && k.byEnd == byEnd && k.addr == addr && r == Tail(rc, k.header)
    requires Splaying(k, m, lc, s, rc, t) && Compare(byEnd, addr, RegionOf(t)) < 0
    modifies m.Keys`left, m.Keys`right
    ensures Describes(k.d) && Holds(m') && m'.Keys == m.Keys && r' == Tail(rc', k.header) && Splaying(k, m', lc, s', rc', t')
    ensures if stop then Settled(byEnd, addr, k.d, s') else Count(s') < Count(s)
  {
    Known(k, m, lc, s, rc, t);
    hide Splaying, Compare;
    stop, t', r', m', s', rc' := true, t, r, m, s, rc;
    var y := t.left;
    if y == null { return; }
    if Compare(byEnd, addr, RegionOf(y)) < 0 {
      m' := RotateRight(t, y, k, m, lc, s, rc);
      t', s' := y, TurnRight(s);
      Known(k, m', lc, s', rc, t');
      if t'.left == null { return; }
    }
    stop, r' := false, t';
    t', m' := LinkRight(t', r, k, m', lc, s', rc);
    rc', s' := Link(rc, s'.r, r'), s'.l;
  }

  /** A round of the loop with the address to the right of t. */
  method StepRight(byEnd: bool, addr: nat, t: Node, l: Node,
                  ghost k: Task, ghost m: Memory, ghost lc: Spine, ghost s: Shape, ghost rc: Spine)
    returns (stop: bool, t': Node, l': Node, ghost m': Memory, ghost s': Shape, ghost lc': Spine)
    requires Holds(m) && Describes(k.d) && k.byEnd == byEnd && k.addr == addr && l == Tail(lc, k.header)
    requires Splaying(k, m, lc, s, rc, t) && Compare(byEnd, addr, RegionOf(t)) > 0
    modifies m.Keys`left, m.Keys`right
    ensures Describes(k.d) && Holds(m') && m'.Keys == m.Keys && l' == Tail(lc', k.header) && Splaying(k, m', lc', s', rc, t')
    ensures if stop then Settled(byEnd, addr, k.d, s') else Count(s') < Count(s)
  {
    Known(k, m, lc, s, rc, t);
    hide Splaying, Compare;
    stop, t', l', m', s', lc' := true, t, l, m, s, lc;
    var y := t.right;
    if y == null { return; }
    if Compare(byEnd, addr, RegionOf(y)) > 0 {
      m' := RotateLeft(t, y, k, m, lc, s, rc);
      t', s' := y, TurnLeft(s);
      Known(k, m', lc, s', rc, t');
      if t'.right == null { return; }
    }
    stop, l' := false, t';
    t', m' := LinkLeft(t', l, k, m', lc, s', rc);
    lc', s' := Link(lc, s'.l, l'), s'.r;
  }

  /** The result, before the header goes. */
  ghost predicate Splayed(byEnd: bool, addr: nat, d: Data, all: seq<Node>, m: Memory, f: Shape, t: Node)
  {
    && f.Fork? && Spells(m, f, t) && Order(f) == all && Sorted(d, all)
    && Split(byEnd, addr, d, all, Count(f.l), Count(f.l) + 1)
  }

  lemma BothStored(m: Memory, t: Node, p: Node?, q: Node?)
    requires t in m
    ensures t in SetLeft(m, t, p) && SetRight(SetLeft(m, t, p), t, q) == m[t := Kids(p, q)]
  {}

  /** Both chains close around the root. */
  lemma Closed(k: Task, m: Memory, lc: Spine, s: Shape, rc: Spine, m1: Memory, m2: Memory, m3: Memory)
    requires s.Fork? && s.n in m && Splaying(k, m, lc, s, rc, s.n) && Settled(k.byEnd, k.addr, k.d, s)
    requires Tail(lc, k.header) in m && m1 == SetRight(m, Tail(lc, k.header), m[s.n].l)
    requires Tail(rc, k.header) in m1 && m2 == SetLeft(m1, Tail(rc, k.header), m[s.n].r)
    requires k.header in m2 && m3 == m2[s.n := Kids(m2[k.header].r, m2[k.header].l)]
    ensures Splayed(k.byEnd, k.addr, k.d, k.all, m3, Fork(LClose(lc, s.l), s.n, RClose(rc, s.r)), s.n)
  {
    hide Located, Elsewhere, Linked, Sorted, Split, Spells, Order, Tail;
    LocatedEnd(k.byEnd, k.addr, k.d, k.all, lc, s, rc);
    Assembled(m, k.header, lc, s, rc, m1, m2, m3);
  }

  lemma ClosedElsewhere(k: Task, m: Memory, t: Node, l: Node, r: Node, m1: Memory, m2: Memory, c: Kids)
    requires Elsewhere(k.m0, m, k.header, k.all) && t in k.all && t in m && l in m && r in m
    requires (l == k.header || l in k.all) && (r == k.header || r in k.all)
    requires m1 == SetRight(m, l, m[t].l) && m2 == SetLeft(m1, r, m[t].r)
    ensures Elsewhere(k.m0, m2[t := c], k.header, k.all) && k.header in m2 && t in m2
  {
    StoredElsewhere(k.m0, m, k.header, k.all, l, m1[l]);
    StoredElsewhere(k.m0, m1, k.header, k.all, r, m2[r]);
    StoredElsewhere(k.m0, m2, k.header, k.all, t, c);
  }

  /** The header leaves the memory again. */
  lemma Dropped(k: Task, m: Memory, s: Shape, t: Node)
    requires Elsewhere(k.m0, m, k.header, k.all) && Spells(m, s, t) && k.header !in Order(s)
    ensures Spells(m - {k.header}, s, t) && (m - {k.header}).Keys == k.m0.Keys
    ensures forall n :: n in k.m0 && n !in k.all ==> (m - {k.header})[n] == k.m0[n]
  {
    DropFrame(m, s, t, k.header);
  }

  lemma {:induction false} DropFrame(m: Memory, s: Shape, p: Node?, x: Node)
    requires Spells(m, s, p) && x !in Order(s)
    ensures Spells(m - {x}, s, p)
  {
    if s.Fork? {
      DropFrame(m, s.l, m[s.n].l, x);
      DropFrame(m, s.r, m[s.n].r, x);
    }
  }

  /** The four stores that put the pieces together. */
  method Stitch(header: Node, t: Node, l: Node, r: Node, ghost m: Memory, ghost d: Data)
    returns (ghost m1: Memory, ghost m2: Memory, ghost m3: Memory)
    requires Describes(d) && Holds(m) && header in m && t in m && l in m && r in m && l != t && r != t && header != t
    modifies l`right, r`left, t`left, t`right
    ensures Describes(d) && Holds(m3) && m1 == SetRight(m, l, m[t].l) && m2 == SetLeft(m1, r, m[t].r)
    ensures header in m2 && m3 == m2[t := Kids(m2[header].r, m2[header].l)]
  {
    m1 := StoreRight(l, t.left, m, d);
    m2 := StoreLeft(r, t.right, m1, d);
    BothStored(m2, t, m2[header].r, m2[header].l);
    m3 := StoreLeft(t, header.right, m2, d);
    m3 := StoreRight(t, header.left, m3, d);
  }

  method Assemble(header: Node, t: Node, l: Node, r: Node,
                  ghost k: Task, ghost m: Memory, ghost lc: Spine, ghost s: Shape, ghost rc: Spine)
    returns (ghost f: Shape, ghost m': Memory)
    requires Describes(k.d) && Holds(m) && header == k.header && l == Tail(lc, header) && r == Tail(rc, header)
    requires Splaying(k, m, lc, s, rc, t) && Settled(k.byEnd, k.addr, k.d, s)
    modifies m.Keys`left, m.Keys`right
    ensures Describes(k.d) && Holds(m') && Elsewhere(k.m0, m', header, k.all)
    ensures Splayed(k.byEnd, k.addr, k.d, k.all, m', f, t)
  {
    Known(k, m, lc, s, rc, t);
    hide Splayed, Located, Linked, Settled;
    ghost var m1, m2;
    m1, m2, m' := Stitch(header, t, l, r, m, k.d);
    ClosedElsewhere(k, m, t, l, r, m1, m2, Kids(m2[header].r, m2[header].l));
    Closed(k, m, lc, s, rc, m1, m2, m');
    f := Fork(LClose(lc, s.l), t, RClose(rc, s.r));
  }

  /** splay, and splay_end when `byEnd`: the same nodes in the same order, the address split at the new root. */
  method Splay(byEnd: bool, addr: nat, root: Node?, ghost m0: Memory, ghost d: Data, ghost s0: Shape)
    returns (t: Node?, ghost m: Memory, ghost s: Shape)
    requires Holds(m0) && Describes(d) && Spells(m0, s0, root) && NoDup(Order(s0)) && Sorted(d, Order(s0))
    modifies m0.Keys`left, m0.Keys`right
    ensures Describes(d) && Holds(m) && m.Keys == m0.Keys
    ensures forall n :: n in m0 && n !in Order(s0) ==> m[n] == m0[n]
    ensures Spells(m, s, t) && Order(s) == Order(s0)
    ensures s.Fork? ==> Split(byEnd, addr, d, Order(s0), Count(s.l), Count(s.l) + 1)
  {
    t, m, s := root, m0, s0;
    if t == null { return; }
    var header := new Node();
    ghost var k := Task(byEnd, addr, m0, d, Order(s0), header);
    m := m[header := Kids(null, null)];
    Started(k, s0, t, m);
    hide Splaying, Splayed, Order, Spells, NoDup, Split, Sorted;
    t, m, s := Descend(byEnd, addr, t, header, k, m, s);
    Finished(k, m, s, t);
    m := m - {header};
  }

  /** The loop, and the assembly after it. */
  method Descend(byEnd: bool, addr: nat, root: Node, header: Node, ghost k: Task, ghost m0: Memory, ghost s0: Shape)
    returns (t: Node, ghost m: Memory, ghost s: Shape)
    requires k.byEnd == byEnd && k.addr == addr && k.header == header
    requires Holds(m0) && Describes(k.d) && Splaying(k, m0, End, s0, End, root)
    modifies m0.Keys`left, m0.Keys`right
    ensures Describes(k.d) && Holds(m) && Elsewhere(k.m0, m, header, k.all) && Splayed(byEnd, addr, k.d, k.all, m, s, t)
  {
    hide Splaying, Splayed, Order, Elsewhere, Settled, Compare;
    t, m, s := root, m0, s0;
    ghost var lc, rc := End, End;
    var l, r, stop := header, header, false;
    while !stop
      invariant Describes(k.d) && Holds(m) && m.Keys == m0.Keys
      invariant l == Tail(lc, header) && r == Tail(rc, header) && Splaying(k, m, lc, s, rc, t)
      invariant stop ==> Settled(byEnd, addr, k.d, s)
      decreases if stop then 0 else 1, Count(s)
    {
      var comp := Compare(byEnd, addr, RegionOf(t));
      if comp < 0 {
        stop, t, r, m, s, rc := StepLeft(byEnd, addr, t, r, k, m, lc, s, rc);
      } else if comp > 0 {
        stop, t, l, m, s, lc := StepRight(byEnd, addr, t, l, k, m, lc, s, rc);
      } else {
        Rooted(k, m, lc, s, rc, t);
        stop := true;
      }
    }
    s, m := Assemble(header, t, l, r, k, m, lc, s, rc);
  }

  lemma Rooted(k: Task, m: Memory, lc: Spine, s: Shape, rc: Spine, t: Node)
    requires Splaying(k, m, lc, s, rc, t) && (t in k.d ==> Compare(k.byEnd, k.addr, k.d[t]) == 0)
    ensures Settled(k.byEnd, k.addr, k.d, s)
  {
    Known(k, m, lc, s, rc, t);
  }

  lemma Started(k: Task, s: Shape, t: Node, m: Memory)
    requires Spells(k.m0, s, t) && NoDup(Order(s)) && k.header !in k.m0 && m == k.m0[k.header := Kids(null, null)]
    requires k.all == Order(s) && Sorted(k.d, k.all)
    ensures Splaying(k, m, End, s, End, t) && m.Keys == k.m0.Keys + {k.header} && k.header !in k.all
  {
    InMemory(k.m0, s, t);
    Frame(k.m0, s, t, k.header, Kids(null, null));
    hide Order, Spells;
    Alone(k.header, Order(s));
    FirstLocated(k.byEnd, k.addr, k.d, s);
  }

  lemma Alone(header: Node, all: seq<Node>)
    requires NoDup(all) && header !in all
    ensures NoDup([header] + LOrder(End) + all + ROrder(End))
  {
    assert [header] + LOrder(End) + all + ROrder(End) == [header] + all;
  }

  lemma FirstLocated(byEnd: bool, addr: nat, d: Data, s: Shape)
    requires Sorted(d, Order(s))
    ensures Located(byEnd, addr, d, Order(s), End, s, End)
  {
    assert LOrder(End) + Order(s) + ROrder(End) == Order(s);
  }

  lemma {:induction false} InMemory(m: Memory, s: Shape, p: Node?)
    requires Spells(m, s, p)
    ensures forall x :: x in Order(s) ==> x in m
  {
    if s.Fork? {
      InMemory(m, s.l, m[s.n].l);
      InMemory(m, s.r, m[s.n].r);
    }
  }

  /** The header leaves the memory again. */
  lemma Finished(k: Task, m: Memory, f: Shape, t: Node)
    requires Elsewhere(k.m0, m, k.header, k.all) && Splayed(k.byEnd, k.addr, k.d, k.all, m, f, t) && k.header !in k.all
    ensures Spells(m - {k.header}, f, t) && Order(f) == k.all && (m - {k.header}).Keys == k.m0.Keys
    ensures forall n :: n in k.m0 && n !in k.all ==> (m - {k.header})[n] == k.m0[n]
    ensures Sorted(k.d, k.all) && Split(k.byEnd, k.addr, k.d, k.all, Count(f.l), Count(f.l) + 1)
  {
    Dropped(k, m, f, t);
  }
}
