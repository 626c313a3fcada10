/** Pointer arithmetic checked against the region index (lib/bcheck.c). */
module BoundsChecker {
  import opened SplayTree
  import opened RegionIndex

  const W: nat := 0x1_0000_0000_0000_0000

  type Address = a: nat | a < W

  const INVALID_POINTER: Address := W - 2

  /** a - b and a + b in size_t. */
  function Minus(a: Address, b: Address): Address { if a >= b then a - b else a - b + W }

  function Plus(a: Address, b: Address): Address { if a + b < W then a + b else a + b - W }

  /** Every region, and the byte after it, has an address. */
  ghost predicate InSpace(gs: set<Region>)
  {
    forall g :: g in gs ==> g.start + g.size < W
  }

  /** g is the region a pointer belongs to: the one it points into or, failing that, the one it is just past. */
  ghost predicate Owns(gs: set<Region>, p: nat, g: Region)
  {
    g in gs && (g.start <= p < g.start + g.size || (p == g.start + g.size && !Contains(gs, p)))
  }

  lemma OwnerUnique(v: View, root: Node?, head: Node?, p: nat, g: Region, h: Region)
    requires Index(v, root, head) && Owns(Held(v), p, g) && Owns(Held(v), p, h)
    ensures g == h
  {
    HeldDisjoint(v, root, head);
    assert g == h || DisjointRegions(g, h);
  }

  /** The test of __bound_ptr_add on the region found. */
  predicate Refused(g: Region, p: Address, offset: Address)
    requires g.start < W
  {
    g.invalid || Plus(Minus(p, g.start), offset) > g.size
  }

  /** The two's complement reading. */
  function AsSigned(offset: Address): (o: int)
    ensures -0x8000_0000_0000_0000 <= o < 0x8000_0000_0000_0000
    ensures o == offset || o == offset - 0x1_0000_0000_0000_0000
  {
    if 2 * offset < W then offset else offset - W
  }

  /** For regions smaller than half the address space it is the test of p + offset against [start, end]. */
  lemma RefusedIs(g: Region, p: Address, offset: Address)
    requires g.start + g.size < W && 2 * g.size < W && g.start <= p <= g.start + g.size
    ensures Refused(g, p, offset) <==> g.invalid || !(g.start <= p + AsSigned(offset) <= g.start + g.size)
  {}

  lemma MinusWithin(p: Address, g: Region)
    requires g.start + g.size < W
    ensures Minus(p, g.start) < g.size <==> g.start <= p < g.start + g.size
    ensures Minus(p, g.start) <= g.size <==> g.start <= p <= g.start + g.size
  {}

  ghost predicate Owned(gs: set<Region>, p: nat)
  {
    exists g :: Owns(gs, p, g)
  }

  /** Only the root can end at the address splayed by end. */
  lemma EndsAtRoot(v: View, p: nat, x: Node)
    requires v.s.Fork? && Parted(v, true, p) && x in Order(v.s) && v.s.n in v.d && x in v.d
    ensures v.d[x].start + v.d[x].size == p ==> x == v.s.n
  {
    RootIndex(v.s);
    var s := Order(v.s);
    var i :| 0 <= i < |s| && s[i] == x;
  }

  lemma RootOwnsByEnd(v: View, t: Node, head: Node?, p: nat)
    requires Index(v, t, head) && Parted(v, true, p) && !Contains(Held(v), p)
    ensures t in v.d && v.d[t] in Held(v)
    ensures Owned(Held(v), p) ==> Owns(Held(v), p, v.d[t])
    ensures p == v.d[t].start + v.d[t].size ==> Owns(Held(v), p, v.d[t])
  {
    IndexParts(v, t, head);
    assert t in Order(v.s);
    if Owned(Held(v), p) {
      var g :| Owns(Held(v), p, g);
      assert g.start + g.size == p;
      var x: Node :| x in Order(v.s) && x in v.d && v.d[x] == g;
      EndsAtRoot(v, p, x);
    }
  }

  lemma RootOwns(v: View, t: Node, head: Node?, p: nat)
    requires Index(v, t, head)
    ensures t in v.d && v.d[t] in Held(v)
    ensures v.d[t].start <= p < v.d[t].start + v.d[t].size ==> Contains(Held(v), p) && Owns(Held(v), p, v.d[t])
  {
    IndexParts(v, t, head);
    assert t in Order(v.s);
  }

  /** Root, splay, splay_end: whichever first has the pointer. */
  method Locate(p: Address, root: Node, ghost head: Node?, ghost v: View) returns (t: Node, ghost w: View)
    requires Stored(v, root, head) && InSpace(Held(v))
    modifies v.m.Keys`left, v.m.Keys`right
    ensures Stored(w, t, head) && w.d == v.d && w.free == v.free && Held(w) == Held(v) && w.m.Keys == v.m.Keys
    ensures t in w.d && w.d[t] in Held(v) && w.d[t] == RegionOf(t) && t.start + t.size < W
    ensures Owned(Held(v), p) <==> Minus(p, t.start) <= t.size
    ensures Owned(Held(v), p) ==> Owns(Held(v), p, RegionOf(t))
  {
    hide Index, Parted, Order, RegionSet, Contains, Minus;
    t, w := root, v;
    RootOwns(w, t, head, p);
    MinusWithin(p, RegionOf(t));
    if Minus(p, t.start) >= t.size {
      t, w := Find(false, p, t, head, w);
      RootOwns(w, t, head, p);
      RootKnown(w, t, head, p);
      MinusWithin(p, RegionOf(t));
    }
    if Minus(p, t.start) >= t.size {
      t, w := Find(true, p, t, head, w);
      RootOwnsByEnd(w, t, head, p);
      RootOwns(w, t, head, p);
      MinusWithin(p, RegionOf(t));
    }
  }

  ghost predicate Forbidden(gs: set<Region>, p: Address, offset: Address)
  {
    exists g :: Owns(gs, p, g) && g.start < W && Refused(g, p, offset)
  }

  lemma Decided(v: View, root: Node?, head: Node?, p: Address, offset: Address, g: Region)
    requires Index(v, root, head) && g.start < W && (Owned(Held(v), p) ==> Owns(Held(v), p, g))
    ensures Forbidden(Held(v), p, offset) <==> Owned(Held(v), p) && Refused(g, p, offset)
  {
    if Forbidden(Held(v), p, offset) {
      var h :| Owns(Held(v), p, h) && h.start < W && Refused(h, p, offset);
      OwnerUnique(v, root, head, p, g, h);
    }
  }

  /** What it answers. */
  ghost function Answer(gs: set<Region>, p: Address, offset: Address, neverFatal: int): Address
  {
    if Forbidden(gs, p, offset) && neverFatal <= 0 then INVALID_POINTER else Plus(p, offset)
  }

  /** The same over the integers, with the offset as a signed number: an owned pointer moves to anywhere in its block or
      just past it and nowhere else, and never once the block is freed; a pointer without an owner moves freely, up to
      whole turns of the address space. */
  ghost predicate MovesBy(gs: set<Region>, p: Address, o: int, neverFatal: int, r: Address)
  {
    && (forall g :: Owns(gs, p, g) && (g.invalid || 2 * g.size < W) && neverFatal <= 0 ==>
         r == if !g.invalid && g.start <= p + o <= g.start + g.size then p + o else 0xffff_ffff_ffff_fffe)
    && (neverFatal > 0 || !Owned(gs, p) ==>
         r == p + o || r == p + o - 0x1_0000_0000_0000_0000 || r == p + o + 0x1_0000_0000_0000_0000)
  }

  lemma AnswerMoves(v: View, root: Node?, head: Node?, p: Address, offset: Address, neverFatal: int)
    requires Index(v, root, head) && InSpace(Held(v))
    ensures MovesBy(Held(v), p, AsSigned(offset), neverFatal, Answer(Held(v), p, offset, neverFatal))
  {
    var gs, o := Held(v), AsSigned(offset);
    hide Index, Held, AsSigned;
    forall g | Owns(gs, p, g) && (g.invalid || 2 * g.size < W) && neverFatal <= 0
      ensures Answer(gs, p, offset, neverFatal)
           == if !g.invalid && g.start <= p + o <= g.start + g.size then p + o else 0xffff_ffff_ffff_fffe
    {
      OwnedMoves(v, root, head, p, offset, g);
    }
    PlusIs(p, offset);
  }

  lemma PlusIs(p: Address, offset: Address)
    ensures var r, o := Plus(p, offset), AsSigned(offset);
      && (r == p + o || r == p + o - 0x1_0000_0000_0000_0000 || r == p + o + 0x1_0000_0000_0000_0000)
      && (0 <= p + o < 0x1_0000_0000_0000_0000 ==> r == p + o)
  {}

  lemma OwnedMoves(v: View, root: Node?, head: Node?, p: Address, offset: Address, g: Region)
    requires Index(v, root, head) && InSpace(Held(v)) && Owns(Held(v), p, g) && (g.invalid || 2 * g.size < W)
    ensures var o := AsSigned(offset);
      Answer(Held(v), p, offset, 0)
        == if !g.invalid && g.start <= p + o <= g.start + g.size then p + o else 0xffff_ffff_ffff_fffe
  {
    hide Index, Held, AsSigned, Plus, Forbidden, Refused;
    Decided(v, root, head, p, offset, g);
    PlusIs(p, offset);
    if g.invalid { InvalidRefused(g, p, offset); } else { RefusedIs(g, p, offset); }
  }

  lemma InvalidRefused(g: Region, p: Address, offset: Address)
    requires g.invalid && g.start < W
    ensures Refused(g, p, offset)
  {}

  /** __bound_ptr_add with checking on: the answer is a function of the regions, whatever the tree looks like. */
  method PtrAdd(p: Address, offset: Address, neverFatal: int, root: Node?, ghost head: Node?, ghost v: View)
    returns (r: Address, t: Node?, ghost w: View)
    requires Stored(v, root, head) && InSpace(Held(v))
    modifies v.m.Keys`left, v.m.Keys`right
    ensures Stored(w, t, head) && w.d == v.d && w.free == v.free && Held(w) == Held(v) && w.m.Keys == v.m.Keys
    ensures r == Answer(Held(v), p, offset, neverFatal) && MovesBy(Held(v), p, AsSigned(offset), neverFatal, r)
  {
    AnswerMoves(v, root, head, p, offset, neverFatal);
    hide Index, Order, RegionSet, Owns, MovesBy;
    t, w := root, v;
    if root != null {
      t, w := Locate(p, root, head, v);
      Decided(v, root, head, p, offset, RegionOf(t));
      if Minus(p, t.start) <= t.size {
        if t.invalid || Plus(Minus(p, t.start), offset) > t.size {
          if neverFatal <= 0 {
            return INVALID_POINTER, t, w;
          }
          return Plus(p, offset), t, w;
        }
      }
    } else {
      NoRoot(v, head, p);
      assert forall g :: !Owns(Held(v), p, g) by { NoOwner(p); }
    }
    r := Plus(p, offset);
  }

  lemma NoOwner(p: nat)
    ensures forall g :: !Owns({}, p, g)
  {}

  /** What that means: the block was freed, or p + offset is not within it or just past it. */
  lemma ForbiddenIs(gs: set<Region>, p: Address, offset: Address)
    requires forall g :: g in gs ==> g.start + g.size < W && 2 * g.size < W
    ensures Forbidden(gs, p, offset) <==>
      exists g :: Owns(gs, p, g) && (g.invalid || !(g.start <= p + AsSigned(offset) <= g.start + g.size))
  {
    forall g | Owns(gs, p, g)
      ensures Refused(g, p, offset) <==> g.invalid || !(g.start <= p + AsSigned(offset) <= g.start + g.size)
    {
      RefusedIs(g, p, offset);
    }
  }
}
