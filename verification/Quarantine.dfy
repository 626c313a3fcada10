/** Freed blocks are kept back for a hundred frees (lib/bcheck.c): a ring of addresses beside the region index. */
module Quarantine {
  import opened SplayTree
  import opened RegionIndex
  import opened BoundsChecker

  const FREE_REUSE_SIZE: nat := 100

  // The ring as a queue.

  /** Slots `at`, `at` + 1, ... read oldest first, empty slots being 0. */
  ghost predicate RingIs(r: seq<Address>, at: nat, q: seq<Address>)
  {
    && |r| == FREE_REUSE_SIZE && at < FREE_REUSE_SIZE && |q| <= FREE_REUSE_SIZE && 0 !in q
    && (|q| < FREE_REUSE_SIZE ==> at == |q| && r[..at] == q && forall i :: at <= i < |r| ==> r[i] == 0)
    && (|q| == FREE_REUSE_SIZE ==> q == r[at..] + r[..at])
  }

  ghost function Push(q: seq<Address>, x: Address): (p: seq<Address>)
    ensures |q| <= FREE_REUSE_SIZE ==> |p| <= FREE_REUSE_SIZE
  {
    if |q| < FREE_REUSE_SIZE then q + [x] else q[1..] + [x]
  }

  lemma RingPush(r: seq<Address>, at: nat, q: seq<Address>, x: Address)
    requires RingIs(r, at, q) && x != 0
    ensures r[at] == if |q| < FREE_REUSE_SIZE then 0 else q[0]
    ensures RingIs(r[at := x], (at + 1) % FREE_REUSE_SIZE, Push(q, x))
  {
    if |q| < FREE_REUSE_SIZE {
      PushNotFull(r, at, q, x);
    } else {
      PushFull(r, at, q, x);
    }
  }

  lemma PushNotFull(r: seq<Address>, at: nat, q: seq<Address>, x: Address)
    requires RingIs(r, at, q) && x != 0 && |q| < FREE_REUSE_SIZE
    ensures r[at] == 0 && RingIs(r[at := x], (at + 1) % FREE_REUSE_SIZE, q + [x])
  {
    var r' := r[at := x];
    assert r'[..at + 1] == q + [x];
    if at + 1 == FREE_REUSE_SIZE { assert r'[0..] + r'[..0] == r'[..at + 1]; }
  }

  lemma PushFull(r: seq<Address>, at: nat, q: seq<Address>, x: Address)
    requires RingIs(r, at, q) && x != 0 && |q| == FREE_REUSE_SIZE
    ensures r[at] == q[0] && RingIs(r[at := x], (at + 1) % FREE_REUSE_SIZE, q[1..] + [x])
  {
    var r', q', at' := r[at := x], q[1..] + [x], (at + 1) % FREE_REUSE_SIZE;
    NonzeroTail(q, x);
    Turned(r, at, q, x);
    hide *;
    assert q' == r'[at'..] + r'[..at'];
    FullRing(r', at', q');
  }

  lemma Turned(r: seq<Address>, at: nat, q: seq<Address>, x: Address)
    requires |r| == FREE_REUSE_SIZE && at < |r| && q == r[at..] + r[..at]
    ensures r[at] == q[0]
    ensures var r', at' := r[at := x], (at + 1) % FREE_REUSE_SIZE; q[1..] + [x] == r'[at'..] + r'[..at']
  {
    var a, b := r[at + 1..], r[..at];
    assert r[at..] == [r[at]] + a;
    TailOf(r[at], a, b, x);
    NewSlot(r, at, x);
    if at + 1 < FREE_REUSE_SIZE {
      assert (at + 1) % FREE_REUSE_SIZE == at + 1;
    } else {
      assert (at + 1) % FREE_REUSE_SIZE == 0 && a == [];
    }
  }

  lemma TailOf(y: Address, a: seq<Address>, b: seq<Address>, x: Address)
    ensures ([y] + a + b)[0] == y && ([y] + a + b)[1..] + [x] == a + (b + [x])
    ensures a == [] ==> a + (b + [x]) == b + [x]
  {
    assert ([y] + a + b)[1..] == a + b;
  }

  lemma NewSlot(r: seq<Address>, at: nat, x: Address)
    requires at < |r|
    ensures var r' := r[at := x]; r'[at + 1..] == r[at + 1..] && r'[..at + 1] == r[..at] + [x]
    ensures var r' := r[at := x]; r'[0..] + r'[..0] == r' && (at + 1 == |r| ==> r' == r[..at] + [x])
  {}

  lemma NonzeroTail(q: seq<Address>, x: Address)
    requires 0 !in q && x != 0 && q != []
    ensures 0 !in q[1..] + [x]
  {}

  lemma FullRing(r: seq<Address>, at: nat, q: seq<Address>)
    requires |r| == |q| == FREE_REUSE_SIZE && at < FREE_REUSE_SIZE && 0 !in q && q == r[at..] + r[..at]
    ensures RingIs(r, at, q)
  {}

  ghost function PushAll(q: seq<Address>, xs: seq<Address>): (p: seq<Address>)
    ensures |q| <= FREE_REUSE_SIZE ==> |p| <= FREE_REUSE_SIZE
    decreases xs
  {
    if xs == [] then q else PushAll(Push(q, xs[0]), xs[1..])
  }

  /** What leaves the queue, in order. */
  ghost function Evicted(q: seq<Address>, xs: seq<Address>): seq<Address>
    decreases xs
  {
    if xs == [] then [] else (if |q| < FREE_REUSE_SIZE then [] else [q[0]]) + Evicted(Push(q, xs[0]), xs[1..])
  }

  /** The queue holds the last hundred frees; all earlier ones have left, each once and in order. */
  lemma {:induction false} LastHundred(q: seq<Address>, xs: seq<Address>)
    requires |q| <= FREE_REUSE_SIZE
    ensures Evicted(q, xs) + PushAll(q, xs) == q + xs
    ensures |PushAll(q, xs)| == if |q| + |xs| <= FREE_REUSE_SIZE then |q| + |xs| else FREE_REUSE_SIZE
    decreases xs
  {
    if xs != [] {
      var x, ys := xs[0], xs[1..];
      var p, e := Push(q, x), if |q| < FREE_REUSE_SIZE then [] else [q[0]];
      LastHundred(p, ys);
      assert e + p == q + [x];
      assert xs == [x] + ys;
      Regrouped(e, Evicted(p, ys), PushAll(p, ys), p, q, [x], ys);
    }
  }

  lemma Regrouped(e: seq<Address>, f: seq<Address>, r: seq<Address>, p: seq<Address>, q: seq<Address>,
                  x: seq<Address>, ys: seq<Address>)
    requires f + r == p + ys && e + p == q + x
    ensures (e + f) + r == q + (x + ys)
  {
    assert (e + f) + r == e + (f + r);
    assert e + (p + ys) == (e + p) + ys;
    assert (q + x) + ys == q + (x + ys);
  }

  /** A freed block leaves the quarantine at exactly the hundredth later free. */
  lemma Lifetime(q: seq<Address>, x: Address, xs: seq<Address>)
    requires |q| <= FREE_REUSE_SIZE
    ensures |xs| < 100 ==> x in PushAll(Push(q, x), xs)
    ensures |xs| == 100 ==> PushAll(Push(q, x), xs) == xs && x in Evicted(Push(q, x), xs)
  {
    var p := Push(q, x);
    assert p != [] && p[|p| - 1] == x && |p| <= FREE_REUSE_SIZE;
    hide *;
    LastHundred(p, xs);
    var e, r := Evicted(p, xs), PushAll(p, xs);
    Placed(e, r, p, xs);
  }

  /** Where the last of p is, when p and xs are cut into e and r. */
  lemma Placed(e: seq<Address>, r: seq<Address>, p: seq<Address>, xs: seq<Address>)
    requires e + r == p + xs && p != []
    ensures |r| > |xs| ==> p[|p| - 1] in r
    ensures |r| == |xs| ==> r == xs && p[|p| - 1] in e
  {
    var k := |p| - 1;
    assert (e + r)[k] == p[k];
    if |r| > |xs| {
      assert r[k - |e|] == p[k];
    } else if |r| == |xs| {
      assert r == (e + r)[|p|..] == xs;
      assert e[k] == p[k];
    }
  }

  // Queue and regions together.

  ghost predicate Freed(gs: set<Region>, a: nat)
  {
    exists g :: g in gs && g.start == a && g.invalid
  }

  /** The queue lists the freed blocks that are still registered, each once. */
  ghost predicate Marked(gs: set<Region>, q: seq<Address>)
  {
    && (forall i, j :: 0 <= i < j < |q| ==> q[i] != q[j])
    && (forall a :: a in q ==> Freed(gs, a))
    && (forall g :: g in gs && g.invalid ==> g.start in q)
  }

  ghost predicate UniqueStarts(gs: set<Region>)
  {
    forall g, h :: g in gs && h in gs && g.start == h.start ==> g == h
  }

  lemma HeldUnique(v: View, root: Node?, head: Node?)
    requires Index(v, root, head)
    ensures UniqueStarts(Held(v))
  {
    HeldDisjoint(v, root, head);
    forall g, h | g in Held(v) && h in Held(v) && g.start == h.start
      ensures g == h
    {
      assert g == h || DisjointRegions(g, h);
    }
  }

  ghost function Invalidated(gs: set<Region>, g: Region): set<Region>
  {
    gs - {g} + {g.(invalid := true)}
  }

  /** The regions after a successful free. */
  ghost function AfterFree(gs: set<Region>, q: seq<Address>, g: Region): set<Region>
  {
    if |q| < FREE_REUSE_SIZE then Invalidated(gs, g) else Without(Invalidated(gs, g), q[0])
  }

  lemma MarkedInvalidated(gs: set<Region>, q: seq<Address>, g: Region)
    requires Marked(gs, q) && UniqueStarts(gs) && g in gs && !g.invalid && g.start < W
    ensures Marked(Invalidated(gs, g), q + [g.start])
  {
    var gs', q' := Invalidated(gs, g), q + [g.start];
    assert g.start !in q;
    assert g.(invalid := true) in gs';
    forall a | a in q
      ensures Freed(gs', a)
    {
      var h :| h in gs && h.start == a && h.invalid;
      assert h in gs';
    }
  }

  lemma MarkedEvicted(gs: set<Region>, q: seq<Address>)
    requires Marked(gs, q) && q != []
    ensures Marked(Without(gs, q[0]), q[1..])
  {
    forall a | a in q[1..]
      ensures Freed(Without(gs, q[0]), a)
    {
      assert a in q && Freed(gs, a);
      var h :| h in gs && h.start == a && h.invalid;
      assert h in Without(gs, q[0]);
    }
    forall g | g in Without(gs, q[0]) && g.invalid
      ensures g.start in q[1..]
    {
      assert g.start in q;
    }
  }

  lemma MarkedFree(gs: set<Region>, q: seq<Address>, g: Region)
    requires Marked(gs, q) && UniqueStarts(gs) && g in gs && !g.invalid && g.start < W && |q| <= FREE_REUSE_SIZE
    ensures Marked(AfterFree(gs, q, g), Push(q, g.start))
  {
    MarkedInvalidated(gs, q, g);
    if |q| == FREE_REUSE_SIZE {
      assert (q + [g.start])[1..] == q[1..] + [g.start] && (q + [g.start])[0] == q[0];
      MarkedEvicted(Invalidated(gs, g), q + [g.start]);
    }
  }

  lemma MarkedInsert(gs: set<Region>, q: seq<Address>, g: Region)
    requires Marked(gs, q) && !g.invalid
    ensures Marked(gs + {g}, q)
  {
    forall a | a in q
      ensures Freed(gs + {g}, a)
    {
      var h :| h in gs && h.start == a && h.invalid;
      assert h in gs + {g};
    }
  }

  // Changing a flag of the root.

  lemma {:induction false} Reflagged(v: View, t: Node, head: Node?, g: Region)
    requires Index(v, t, head) && t in v.d && g.start == v.d[t].start && g.size == v.d[t].size
    ensures Index(v.(d := v.d[t := g]), t, head)
    ensures Held(v.(d := v.d[t := g])) == Held(v) - {v.d[t]} + {g}
  {
    assert t in Order(v.s) by { IndexParts(v, t, head); }
    SortedReflagged(v.d, Order(v.s), t, g);
    OnlyOne(v, t, head);
    hide Sorted, NoDup, Spells, Order, Chain;
    ReflaggedSet(v.d, Order(v.s), t, g);
    CoversMoved(v.m, v.d, Order(v.s) + v.free, v.m, t, g, Order(v.s) + v.free);
  }

  lemma SortedReflagged(d: Data, s: seq<Node>, t: Node, g: Region)
    requires Sorted(d, s) && t in d && g.start == d[t].start && g.size == d[t].size
    ensures Sorted(d[t := g], s)
  {
    assert forall x :: x in d ==> d[t := g][x].start == d[x].start && d[t := g][x].size == d[x].size;
  }

  /** No other node holds the root's region. */
  lemma OnlyOne(v: View, t: Node, head: Node?)
    requires Index(v, t, head) && t in v.d
    ensures forall x :: x in Order(v.s) && x in v.d && v.d[x] == v.d[t] ==> x == t
  {
    IndexParts(v, t, head);
    var s := Order(v.s);
    assert t in s;
    forall x | x in s && x in v.d && v.d[x] == v.d[t]
      ensures x == t
    {
      var i :| 0 <= i < |s| && s[i] == x;
      var j :| 0 <= j < |s| && s[j] == t;
    }
  }

  lemma ReflaggedSet(d: Data, s: seq<Node>, t: Node, g: Region)
    requires t in d && t in s && forall x :: x in s && x in d && d[x] == d[t] ==> x == t
    ensures RegionSet(d[t := g], s) == RegionSet(d, s) - {d[t]} + {g}
  {
    var d' := d[t := g];
    assert d'[t] in RegionSet(d', s);
    forall r | r in RegionSet(d, s) - {d[t]}
      ensures r in RegionSet(d', s)
    {
      var x: Node :| x in s && x in d && d[x] == r;
      assert d'[x] == r;
    }
    forall r | r in RegionSet(d', s)
      ensures r in RegionSet(d, s) - {d[t]} + {g}
    {
      var x: Node :| x in s && x in d' && d'[x] == r;
      if x != t { assert d[x] == r; }
    }
  }

  // free, on the tree.

  datatype Outcome = Ignored | Unregistered | DoubleFree | Kept | Moved

  ghost predicate Starts(gs: set<Region>, a: nat)
  {
    exists g :: g in gs && g.start == a
  }

  method SetInvalid(t: Node, ghost head: Node?, ghost v: View) returns (ghost w: View)
    requires Stored(v, t, head) && t in v.d
    modifies t`invalid
    ensures Stored(w, t, head) && Held(w) == Invalidated(Held(v), v.d[t]) && w.m == v.m && w.free == v.free
  {
    hide Index, Order, RegionSet;
    ghost var g := v.d[t].(invalid := true);
    Reflagged(v, t, head, g);
    w := v.(d := v.d[t := g]);
    t.invalid := true;
  }

  /** splay; mark the block; delete the block that leaves the ring (`evicted`, 0 for none). */
  method FreeIn(ptr: Address, evicted: Address, root: Node, head: Node?, ghost v: View)
    returns (o: Outcome, t: Node?, head': Node?, ghost w: View)
    requires Stored(v, root, head)
    modifies v.m.Keys
    ensures Stored(w, t, head') && w.m.Keys == v.m.Keys
    ensures !Starts(Held(v), ptr) ==> o == Unregistered && Held(w) == Held(v) && w.free == v.free
    ensures forall g :: g in Held(v) && g.start == ptr ==>
      if g.invalid then o == DoubleFree && Held(w) == Held(v) && w.free == v.free
      else o == Kept && Held(w) == if evicted == 0 then Invalidated(Held(v), g) else Without(Invalidated(Held(v), g), evicted)
  {
    hide Index, Order, Parted, RegionSet, Without, Invalidated;
    head' := head;
    t, w := Find(false, ptr, root, head, v);
    RootStart(w, t, head, ptr);
    HeldUnique(w, t, head);
    RootOnly(Held(w), w.d[t], ptr);
    if t.start != ptr {
      return Unregistered, t, head, w;
    }
    if t.invalid {
      return DoubleFree, t, head, w;
    }
    w := SetInvalid(t, head, w);
    if evicted != 0 {
      t, head', w := SplayDelete(evicted, t, head, w);
    }
    o := Kept;
  }

  lemma RootOnly(gs: set<Region>, g: Region, a: nat)
    requires g in gs && UniqueStarts(gs)
    ensures g.start == a ==> Starts(gs, a) && forall h :: h in gs && h.start == a ==> h == g
    ensures g.start != a && Without(gs, a) == gs ==> forall h :: h in gs ==> h.start != a
  {
    forall h | h in gs && Without(gs, a) == gs
      ensures h.start != a
    {
      assert h in Without(gs, a);
    }
  }

  // malloc, on the tree.

  method SetKind(t: Node, kind: nat, ghost head: Node?, ghost v: View) returns (ghost w: View)
    requires Stored(v, t, head) && t in v.d
    modifies t`kind
    ensures Stored(w, t, head) && Held(w) == Held(v) - {v.d[t]} + {v.d[t].(kind := kind)} && w.m == v.m && w.free == v.free
  {
    hide Index, Order, RegionSet;
    ghost var g := v.d[t].(kind := kind);
    Reflagged(v, t, head, g);
    w := v.(d := v.d[t := g]);
    t.kind := kind;
  }

  /** splay_insert, then the type of the new root. */
  method Register(ptr: nat, size: nat, kind: nat, root: Node?, head: Node?, ghost v: View)
    returns (t: Node, head': Node?, ghost w: View)
    requires Stored(v, root, head) && size > 0 && Fits(Held(v), ptr, size)
    modifies v.m.Keys
    ensures Stored(w, t, head') && Held(w) == Held(v) + {Region(ptr, size, kind, false)}
    ensures Reuses(v, w, t) && (v.free == [] ==> fresh(t))
  {
    hide Index, Order, RegionSet;
    FitsOutside(Held(v), ptr, size);
    t, head', w := SplayInsert(ptr, size, root, head, v);
    if t.start == ptr {
      RootInMemory(w, t, head');
      w := SetKind(t, kind, head', w);
      NewRegion(Held(v), ptr, size, kind);
    }
  }

  lemma RootInMemory(v: View, t: Node, head: Node?)
    requires Index(v, t, head)
    ensures t in v.d && t in v.m
  {
    IndexParts(v, t, head);
  }

  lemma FitsOutside(gs: set<Region>, ptr: nat, size: nat)
    requires Fits(gs, ptr, size) && size > 0
    ensures !Contains(gs, ptr)
  {}

  lemma NewRegion(gs: set<Region>, ptr: nat, size: nat, kind: nat)
    requires Fits(gs, ptr, size) && size > 0
    ensures gs + {Region(ptr, size, 0, false)} - {Region(ptr, size, 0, false)} + {Region(ptr, size, kind, false)}
         == gs + {Region(ptr, size, kind, false)}
  {
    assert Region(ptr, size, 0, false) !in gs;
  }

  /** The slot about to be reused. */
  method Slot(ring: array<Address>, at: nat, ghost q: seq<Address>) returns (p: Address)
    requires RingIs(ring[..], at, q)
    ensures p == if |q| < FREE_REUSE_SIZE then 0 else q[0]
  {
    RingPush(ring[..], at, q, 1);
    p := ring[at];
  }

  method Rotate(ring: array<Address>, at: nat, ptr: Address, ghost q: seq<Address>,
                ghost v: View, ghost t: Node?, ghost head: Node?)
    returns (at': nat)
    requires RingIs(ring[..], at, q) && ptr != 0 && Stored(v, t, head)
    modifies ring
    ensures RingIs(ring[..], at', Push(q, ptr)) && Stored(v, t, head)
  {
    RingPush(ring[..], at, q, ptr);
    hide Push, Index;
    ghost var r := ring[..];
    ring[at] := ptr;
    assert ring[..] == r[at := ptr];
    at' := (at + 1) % FREE_REUSE_SIZE;
  }

  // The checker.

  /** What a free does to the regions and the queue, and what it hands back to the allocator (0 for nothing). */
  ghost predicate FreeResult(gs: set<Region>, q: seq<Address>, ptr: Address, o: Outcome, released: Address,
                             gs': set<Region>, q': seq<Address>)
  {
    && (ptr == 0 || gs == {} ==> o == Ignored && released == 0 && gs' == gs && q' == q)
    && (ptr != 0 && gs != {} && !Starts(gs, ptr) ==> o == Unregistered && released == ptr && gs' == gs && q' == q)
    && forall g :: ptr != 0 && g in gs && g.start == ptr ==>
         if g.invalid then o == DoubleFree && released == 0 && gs' == gs && q' == q
         else o == Kept && released == (if |q| < FREE_REUSE_SIZE then 0 else q[0])
              && gs' == AfterFree(gs, q, g) && q' == Push(q, ptr)
  }

  class Checker {
    var tree: Node?
    var freeList: Node?
    const ring: array<Address>
    var at: nat
    ghost var v: View
    ghost var q: seq<Address>

    ghost predicate Valid()
      reads this, ring, v.m.Keys, v.d.Keys
    {
      Stored(v, tree, freeList) && RingIs(ring[..], at, q) && InSpace(Held(v))
    }

    /** The ring lists exactly the freed blocks still registered. */
    ghost predicate Exact()
      reads this
    {
      Marked(Held(v), q)
    }

    constructor ()
      ensures Valid() && Exact() && Held(v) == {} && q == [] && fresh(ring) && v.m == map[]
    {
      ring := new Address[FREE_REUSE_SIZE](i => 0);
      tree, freeList, at, v, q := null, null, 0, View(map[], map[], Nil, []), [];
    }

    method Become(t: Node?, head: Node?, ghost w: View, i: nat, ghost p: seq<Address>)
      requires Stored(w, t, head) && RingIs(ring[..], i, p)
      modifies this
      ensures tree == t && freeList == head && v == w && at == i && q == p
      ensures Stored(w, t, head) && RingIs(ring[..], i, p)
    {
      hide Index, RingIs;
      tree, freeList, v, at, q := t, head, w, i, p;
    }

    /** __bound_free with checking on; `released` is what goes back to the allocator, 0 for nothing. */
    method Free(ptr: Address) returns (o: Outcome, released: Address)
      requires Valid()
      modifies this, ring, v.m.Keys
      ensures Valid() && (old(Exact()) ==> Exact()) && v.m.Keys == old(v.m.Keys)
      ensures FreeResult(old(Held(v)), old(q), ptr, o, released, Held(v), q)
    {
      hide Index, Order, RegionSet, Marked, Without, Invalidated, RingIs, Push;
      o, released := Ignored, 0;
      TreeEmpty(v, tree, freeList);
      if ptr == 0 || tree == null { return; }
      ghost var gs, q0 := Held(v), q;
      HeldUnique(v, tree, freeList);
      released := Slot(ring, at, q);
      var r, h;
      ghost var w;
      o, r, h, w := FreeIn(ptr, released, tree, freeList, v);
      var i := at;
      if o == Unregistered {
        released := ptr;
      } else if o == DoubleFree {
        released := 0;
      } else {
        ghost var g :| g in gs && g.start == ptr;
        AfterFreeIs(gs, q0, ring[..], at, g, released);
        QueueNonzero(ring[..], at, q0);
        if Exact() { MarkedFree(gs, q0, g); }
        i := Rotate(ring, i, ptr, q0, w, r, h);
        q0 := Push(q0, ptr);
      }
      Become(r, h, w, i, q0);
    }

    /** __bound_malloc once the allocator has answered (also memalign and calloc); 0 is its failure. */
    method Malloc(ptr: Address, size: nat, kind: nat)
      requires Valid()
      requires ptr != 0 ==> ptr + Registered(size) < W && Fits(Held(v), ptr, Registered(size))
      modifies this, v.m.Keys
      ensures Valid() && (old(Exact()) ==> Exact()) && q == old(q) && fresh(v.m.Keys - old(v.m.Keys))
      ensures ptr == 0 ==> Held(v) == old(Held(v))
      ensures ptr != 0 ==> Held(v) == old(Held(v)) + {Region(ptr, Registered(size), kind, false)}
    {
      hide Index, Order, RegionSet, Marked, RingIs, Fits;
      if ptr != 0 {
        if Exact() { MarkedInsert(Held(v), q, Region(ptr, Registered(size), kind, false)); }
        var t, h;
        ghost var w;
        t, h, w := Register(ptr, Registered(size), kind, tree, freeList, v);
        Become(t, h, w, at, q);
      }
    }

    /** __bound_realloc once the allocator has answered; size 0 is a free.  The ring stays exact exactly when the
        block handed in is not a quarantined one. */
    method Realloc(ptr: Address, newPtr: Address, size: nat, kind: nat) returns (o: Outcome, released: Address)
      requires Valid()
      requires size > 0 && newPtr != 0 ==> newPtr + size < W && Fits(WithoutBlock(Held(v), ptr), newPtr, size)
      modifies this, ring, v.m.Keys
      ensures Valid() && fresh(v.m.Keys - old(v.m.Keys))
      ensures size == 0 ==> FreeResult(old(Held(v)), old(q), ptr, o, released, Held(v), q) && (old(Exact()) ==> Exact())
      ensures size > 0 ==> o == Moved && released == 0 && q == old(q)
      ensures size > 0 ==>
        Held(v) == WithoutBlock(old(Held(v)), ptr) + (if newPtr == 0 then {} else {Region(newPtr, size, kind, false)})
      ensures size > 0 && old(Exact()) ==> (Exact() <==> !(ptr != 0 && Freed(old(Held(v)), ptr)))
    {
      hide Index, Order, RegionSet, Marked, RingIs, Fits, Without, FreeResult;
      if size == 0 {
        o, released := Free(ptr);
        return;
      }
      o, released := Moved, 0;
      var t, h := tree, freeList;
      ghost var w := v;
      ghost var news := if newPtr == 0 then {} else {Region(newPtr, size, kind, false)};
      if Exact() { MarkedMoved(Held(v), q, ptr, news); }
      if ptr != 0 {
        InSpaceWithout(Held(v), ptr);
        t, h, w := SplayDelete(ptr, t, h, w);
      }
      if newPtr != 0 {
        t, h, w := Register(newPtr, size, kind, t, h, w);
      } else {
        assert Held(w) + {} == Held(w);
      }
      Become(t, h, w, at, q);
    }

    method Add(p: Address, offset: Address, neverFatal: int) returns (r: Address)
      requires Valid()
      modifies this, v.m.Keys
      ensures Valid() && Held(v) == old(Held(v)) && q == old(q) && v.m.Keys == old(v.m.Keys) && (old(Exact()) ==> Exact())
      ensures r == Answer(Held(v), p, offset, neverFatal) && MovesBy(Held(v), p, AsSigned(offset), neverFatal, r)
    {
      hide Index, Order, RegionSet, Marked, RingIs, Answer, MovesBy;
      var t;
      ghost var w;
      r, t, w := PtrAdd(p, offset, neverFatal, tree, freeList, v);
      Become(t, freeList, w, at, q);
    }
  
    /** Any run of calls keeps regions and quarantine equal to the plain description of them; the quarantined blocks
        handed back to the allocator are, in order, those that the run's successful frees evict. */
    method Run(calls: seq<Call>) returns (released: seq<Address>)
      requires Valid() && Exact() && LawfulRun(Abstract(Held(v), q), calls)
      modifies this, ring, v.m.Keys
      ensures Valid() && Exact() && Abstract(Held(v), q) == After(Abstract(old(Held(v)), old(q)), calls)
      ensures released == Evicted(old(q), Frees(Abstract(old(Held(v)), old(q)), calls))
    {
      hide Index, Order, RegionSet, Marked, RingIs, Next, Lawful, Held, LawfulRun, After, Frees, Evicted, EvictedBy;
      ghost var a0 := Abstract(Held(v), q);
      released := [];
      for i := 0 to |calls|
        invariant Valid() && Exact() && fresh(v.m.Keys - old(v.m.Keys))
        invariant LawfulRun(Abstract(Held(v), q), calls[i..])
        invariant After(Abstract(Held(v), q), calls[i..]) == After(a0, calls)
        invariant released + Evicted(q, Frees(Abstract(Held(v), q), calls[i..])) == Evicted(a0.q, Frees(a0, calls))
      {
        assert calls[i..][0] == calls[i] && calls[i..][1..] == calls[i + 1..];
        HeldUnique(v, tree, freeList);
        RunStep(Abstract(Held(v), q), calls[i..]);
        var r := One(calls[i]);
        released := released + r;
      }
      assert calls[|calls|..] == [];
      RunEnds(Abstract(Held(v), q));
    }

    method One(c: Call) returns (released: seq<Address>)
      requires Valid() && Exact() && Lawful(Abstract(Held(v), q), c)
      modifies this, ring, v.m.Keys
      ensures Valid() && Exact() && fresh(v.m.Keys - old(v.m.Keys))
      ensures Abstract(Held(v), q) == Next(Abstract(old(Held(v)), old(q)), c)
      ensures released == EvictedBy(Abstract(old(Held(v)), old(q)), c)
    {
      hide Index, Order, RegionSet, Marked, RingIs, Forbidden, Fits, AfterFree, Push, Held;
      released := [];
      ghost var a := Abstract(Held(v), q);
      HeldUnique(v, tree, freeList);
      QueueNonzero(ring[..], at, q);
      match c
      case MallocCall(ptr, size, kind) =>
        Malloc(ptr, size, kind);
      case FreeCall(ptr) =>
        var o, p := Free(ptr);
        FreeResultIs(a, c, o, p, Abstract(Held(v), q));
        if o == Kept && p != 0 { released := [p]; }
      case ReallocCall(ptr, newPtr, size, kind) =>
        var o, p := Realloc(ptr, newPtr, size, kind);
        if size == 0 { FreeResultIs(a, c, o, p, Abstract(Held(v), q)); }
        if o == Kept && p != 0 { released := [p]; }
      case AddCall(p, offset) =>
        var _ := Add(p, offset, 0);
    }
  }

  // What one call means for a later one.

  lemma Reach(gs: set<Region>, g: Region, p: Address, o: int, r: Address)
    requires g in gs && g.start <= p < g.start + g.size && MovesBy(gs, p, o, 0, r)
    ensures !g.invalid && 2 * g.size < W ==>
      r == if g.start <= p + o <= g.start + g.size then p + o else 0xffff_ffff_ffff_fffe
    ensures g.invalid ==> r == 0xffff_ffff_ffff_fffe
  {
    assert Owns(gs, p, g);
  }

  /** malloc, then pointer arithmetic: exactly n bytes and the place after them are in reach, one byte for n = 0. */
  method MallocThenAdd(c: Checker, ptr: Address, n: nat, kind: nat, offset: Address) returns (r: Address)
    requires c.Valid() && ptr != 0 && 2 * n < W
    requires var size := if n == 0 then 1 else n; ptr + size < W && Fits(Held(c.v), ptr, size)
    modifies c, c.v.m.Keys
    ensures c.Valid()
    ensures var o, size := AsSigned(offset), if n == 0 then 1 else n;
      r == if 0 <= o <= size then ptr + o else 0xffff_ffff_ffff_fffe
  {
    hide Index, Order, RegionSet, Marked, RingIs, Answer, MovesBy, Held;
    c.Malloc(ptr, n, kind);
    r := c.Add(ptr, offset, 0);
    Reach(Held(c.v), Region(ptr, if n == 0 then 1 else n, kind, false), ptr, AsSigned(offset), r);
  }

  /** realloc, then pointer arithmetic: the new size counts. */
  method ReallocThenAdd(c: Checker, ptr: Address, newPtr: Address, n: nat, kind: nat, offset: Address) returns (r: Address)
    requires c.Valid() && newPtr != 0 && 0 < n && 2 * n < W
    requires newPtr + n < W && Fits(WithoutBlock(Held(c.v), ptr), newPtr, n)
    modifies c, c.ring, c.v.m.Keys
    ensures c.Valid()
    ensures var o := AsSigned(offset); r == if 0 <= o <= n then newPtr + o else 0xffff_ffff_ffff_fffe
  {
    hide Index, Order, RegionSet, Marked, RingIs, Answer, MovesBy, Held, WithoutBlock;
    var _, _ := c.Realloc(ptr, newPtr, n, kind);
    r := c.Add(newPtr, offset, 0);
    Reach(Held(c.v), Region(newPtr, n, kind, false), newPtr, AsSigned(offset), r);
  }

  /** free, then pointer arithmetic anywhere in the block: refused, whatever the offset. */
  method FreeThenAdd(c: Checker, g: Region, p: Address, offset: Address) returns (r: Address)
    requires c.Valid() && c.Exact() && g in Held(c.v) && !g.invalid && g.start != 0
    requires g.start <= p < g.start + g.size
    modifies c, c.ring, c.v.m.Keys
    ensures c.Valid() && c.Exact() && r == 0xffff_ffff_ffff_fffe
  {
    hide Index, Order, RegionSet, Marked, RingIs, Answer, MovesBy, Held, AfterFree;
    HeldUnique(c.v, c.tree, c.freeList);
    StillHeld(Held(c.v), c.q, g);
    var _, _ := c.Free(g.start);
    r := c.Add(p, offset, 0);
    Reach(Held(c.v), g.(invalid := true), p, AsSigned(offset), r);
  }

  /** Freeing a block twice: the second call is reported and changes nothing. */
  method FreeTwice(c: Checker, g: Region) returns (o: Outcome, released: Address)
    requires c.Valid() && c.Exact() && g in Held(c.v) && !g.invalid && g.start != 0
    modifies c, c.ring, c.v.m.Keys
    ensures c.Valid() && c.Exact() && o == DoubleFree && released == 0 && g.(invalid := true) in Held(c.v)
  {
    hide Index, Order, RegionSet, Marked, RingIs, Held, AfterFree;
    HeldUnique(c.v, c.tree, c.freeList);
    StillHeld(Held(c.v), c.q, g);
    o, released := c.Free(g.start);
    o, released := c.Free(g.start);
  }

  /** A free does not evict the block it frees. */
  lemma StillHeld(gs: set<Region>, q: seq<Address>, g: Region)
    requires Marked(gs, q) && g in gs && !g.invalid
    requires UniqueStarts(gs)
    ensures g.(invalid := true) in AfterFree(gs, q, g)
  {
    if |q| >= FREE_REUSE_SIZE { assert q[0] in q; }
  }

  /** A block freed and then passed to realloc: its region is gone and the ring still lists it. */
  method ReallocFreed() returns (c: Checker)
    ensures fresh(c) && c.Valid() && !c.Exact() && c.q == [16] && !Starts(Held(c.v), 16)
  {
    hide Index, Order, Marked, RingIs, Held, InSpace;
    c := new Checker();
    c.Malloc(16, 8, 1);
    var o, p := c.Free(16);
    assert Freed(Held(c.v), 16);
    o, p := c.Realloc(16, 32, 8, 2);
  }

  datatype Call = MallocCall(ptr: Address, size: nat, kind: nat) | FreeCall(ptr: Address)
                | ReallocCall(ptr: Address, newPtr: Address, size: nat, kind: nat)
                | AddCall(p: Address, offset: Address)

  datatype Abstract = Abstract(gs: set<Region>, q: seq<Address>)

  /** What the allocator promises: a block it hands out meets no registered one, quarantined ones included.  What the
      program owes: only live pointers to realloc. */
  ghost predicate Lawful(a: Abstract, c: Call)
  {
    match c
    case MallocCall(ptr, size, _) =>
      ptr != 0 ==> ptr + Registered(size) < W && Fits(a.gs, ptr, Registered(size))
    case ReallocCall(ptr, newPtr, size, _) =>
      size > 0 ==>
        !(ptr != 0 && Freed(a.gs, ptr)) &&
        (newPtr != 0 ==> newPtr + size < W && Fits(WithoutBlock(a.gs, ptr), newPtr, size))
    case _ => true
  }

  predicate IsFree(c: Call) { c.FreeCall? || (c.ReallocCall? && c.size == 0) }

  ghost function AfterFreeCall(a: Abstract, ptr: Address): Abstract
  {
    if ptr != 0 && Starts(a.gs, ptr) then
      var g :| g in a.gs && g.start == ptr;
      if g.invalid then a else Abstract(AfterFree(a.gs, a.q, g), Push(a.q, ptr))
    else a
  }

  ghost function Next(a: Abstract, c: Call): Abstract
  {
    match c
    case MallocCall(ptr, size, kind) =>
      if ptr == 0 then a else a.(gs := a.gs + {Region(ptr, Registered(size), kind, false)})
    case FreeCall(ptr) => AfterFreeCall(a, ptr)
    case ReallocCall(ptr, newPtr, size, kind) =>
      if size == 0 then AfterFreeCall(a, ptr)
      else a.(gs := WithoutBlock(a.gs, ptr) + if newPtr == 0 then {} else {Region(newPtr, size, kind, false)})
    case AddCall(_, _) => a
  }

  /** The quarantined block that a call hands back to the allocator. */
  ghost function EvictedBy(a: Abstract, c: Call): seq<Address>
  {
    if Succeeds(a, c) && |a.q| >= FREE_REUSE_SIZE then [a.q[0]] else []
  }

  lemma QueueNonzero(r: seq<Address>, at: nat, q: seq<Address>)
    requires RingIs(r, at, q)
    ensures |q| <= FREE_REUSE_SIZE && (q != [] ==> q[0] != 0)
  {
    assert q != [] ==> q[0] in q;
  }

  lemma FreeResultIs(a: Abstract, c: Call, o: Outcome, released: Address, b: Abstract)
    requires IsFree(c) && UniqueStarts(a.gs) && FreeResult(a.gs, a.q, c.ptr, o, released, b.gs, b.q)
    requires |a.q| <= FREE_REUSE_SIZE && (a.q != [] ==> a.q[0] != 0)
    ensures b == AfterFreeCall(a, c.ptr)
    ensures EvictedBy(a, c) == if o == Kept && released != 0 then [released] else []
  {
    if c.ptr != 0 && Starts(a.gs, c.ptr) {
      var g :| g in a.gs && g.start == c.ptr;
      assert forall h :: h in a.gs && h.start == c.ptr ==> h == g;
    }
  }

  lemma RunEnds(a: Abstract)
    ensures After(a, []) == a && Evicted(a.q, Frees(a, [])) == []
  {}

  /** One call's share of a run, and of what the run releases. */
  lemma RunStep(a: Abstract, calls: seq<Call>)
    requires calls != [] && UniqueStarts(a.gs) && LawfulRun(a, calls)
    ensures var c := calls[0];
      Lawful(a, c) && LawfulRun(Next(a, c), calls[1..]) && After(a, calls) == After(Next(a, c), calls[1..])
    ensures var c := calls[0];
      Evicted(a.q, Frees(a, calls)) == EvictedBy(a, c) + Evicted(Next(a, c).q, Frees(Next(a, c), calls[1..]))
  {
    var c, fs := calls[0], Frees(Next(a, calls[0]), calls[1..]);
    NextQueue(a, c);
    if Succeeds(a, c) {
      assert ([c.ptr] + fs)[0] == c.ptr && ([c.ptr] + fs)[1..] == fs;
    } else {
      assert [] + fs == fs;
    }
  }

  /** A successful free pushes its block; nothing else touches the queue. */
  lemma NextQueue(a: Abstract, c: Call)
    requires UniqueStarts(a.gs)
    ensures Next(a, c).q == if Succeeds(a, c) then Push(a.q, c.ptr) else a.q
  {
    if IsFree(c) && c.ptr != 0 && Starts(a.gs, c.ptr) {
      var g :| g in a.gs && g.start == c.ptr;
      assert forall h :: h in a.gs && h.start == c.ptr ==> h == g;
    }
  }

  ghost predicate LawfulRun(a: Abstract, calls: seq<Call>)
    decreases calls
  {
    calls == [] || (Lawful(a, calls[0]) && LawfulRun(Next(a, calls[0]), calls[1..]))
  }

  ghost function After(a: Abstract, calls: seq<Call>): Abstract
    decreases calls
  {
    if calls == [] then a else After(Next(a, calls[0]), calls[1..])
  }

  function Registered(size: nat): nat { if size == 0 then size + 1 else size }

  // What a run does to a freed block.

  ghost predicate Consistent(a: Abstract)
  {
    && Marked(a.gs, a.q) && UniqueStarts(a.gs) && |a.q| <= FREE_REUSE_SIZE
    && forall g :: g in a.gs ==> g.start < W && g.size > 0
  }

  /** The call frees a live block. */
  ghost predicate Succeeds(a: Abstract, c: Call)
  {
    IsFree(c) && c.ptr != 0 && exists g :: g in a.gs && g.start == c.ptr && !g.invalid
  }

  lemma FreeIs(a: Abstract, c: Call)
    requires Consistent(a) && IsFree(c)
    ensures !Succeeds(a, c) ==> Next(a, c) == a
    ensures forall g :: Succeeds(a, c) && g in a.gs && g.start == c.ptr ==>
      !g.invalid && Next(a, c) == Abstract(AfterFree(a.gs, a.q, g), Push(a.q, c.ptr))
  {}

  lemma NextConsistent(a: Abstract, c: Call)
    requires Consistent(a) && Lawful(a, c)
    ensures Consistent(Next(a, c))
  {
    if IsFree(c) {
      FreeConsistent(a, c);
    } else if c.MallocCall? && c.ptr != 0 {
      var g := Region(c.ptr, Registered(c.size), c.kind, false);
      MarkedInsert(a.gs, a.q, g);
      assert forall h :: h in a.gs ==> h.start != g.start;
    } else if c.ReallocCall? {
      ReallocConsistent(a, c);
    }
  }

  lemma FreeConsistent(a: Abstract, c: Call)
    requires Consistent(a) && IsFree(c)
    ensures Consistent(Next(a, c))
  {
    hide Marked;
    FreeIs(a, c);
    if Succeeds(a, c) {
      var g :| g in a.gs && g.start == c.ptr && !g.invalid;
      MarkedFree(a.gs, a.q, g);
    }
  }

  lemma ReallocConsistent(a: Abstract, c: Call)
    requires Consistent(a) && Lawful(a, c) && c.ReallocCall? && c.size > 0
    ensures Consistent(Next(a, c))
  {
    var old' := WithoutBlock(a.gs, c.ptr);
    var news := if c.newPtr == 0 then {} else {Region(c.newPtr, c.size, c.kind, false)};
    MarkedMoved(a.gs, a.q, c.ptr, news);
    assert forall h, g :: h in old' && g in news ==> h.start != g.start;
  }

  /** The successful frees of a run. */
  ghost function Frees(a: Abstract, calls: seq<Call>): seq<Address>
    decreases calls
  {
    if calls == [] then []
    else (if Succeeds(a, calls[0]) then [calls[0].ptr] else []) + Frees(Next(a, calls[0]), calls[1..])
  }

  /** After any run the quarantine is what pushing the successful frees makes of it. */
  lemma {:induction false} QueueOfRun(a: Abstract, calls: seq<Call>)
    requires Consistent(a) && LawfulRun(a, calls)
    ensures Consistent(After(a, calls)) && After(a, calls).q == PushAll(a.q, Frees(a, calls))
    decreases calls
  {
    if calls != [] {
      var c, b, rest := calls[0], Next(a, calls[0]), calls[1..];
      NextConsistent(a, c);
      NextQueue(a, c);
      QueueOfRun(b, rest);
      var fs := Frees(b, rest);
      if Succeeds(a, c) {
        assert ([c.ptr] + fs)[1..] == fs;
      } else {
        assert [] + fs == fs;
      }
    }
  }

  /** Over every lawful run each freed block is handed back to the allocator once, in the order of the frees, or is still
      in the quarantine at the end. */
  lemma Conserved(a: Abstract, calls: seq<Call>)
    requires Consistent(a) && LawfulRun(a, calls)
    ensures Evicted(a.q, Frees(a, calls)) + After(a, calls).q == a.q + Frees(a, calls)
  {
    hide Evicted, Frees, After, PushAll;
    QueueOfRun(a, calls);
    LastHundred(a.q, Frees(a, calls));
  }

  /** A call that would end the life of the block at that address. */
  predicate Ends(c: Call, start: nat) { (c.FreeCall? || c.ReallocCall?) && c.ptr == start }

  /** From its allocation until it is freed or moved a block keeps its region, through any lawful run. */
  lemma {:induction false} StaysLive(a: Abstract, calls: seq<Call>, g: Region)
    requires Consistent(a) && LawfulRun(a, calls) && g in a.gs && !g.invalid
    requires forall i :: 0 <= i < |calls| ==> !Ends(calls[i], g.start)
    ensures g in After(a, calls).gs
    decreases calls
  {
    if calls != [] {
      NextConsistent(a, calls[0]);
      StaysLiveStep(a, calls[0], g);
      StaysLive(Next(a, calls[0]), calls[1..], g);
    }
  }

  lemma StaysLiveStep(a: Abstract, c: Call, g: Region)
    requires Consistent(a) && g in a.gs && !g.invalid && !Ends(c, g.start)
    ensures g in Next(a, c).gs
  {
    if IsFree(c) {
      FreeIs(a, c);
      if Succeeds(a, c) {
        var h :| h in a.gs && h.start == c.ptr && !h.invalid;
        if |a.q| >= FREE_REUSE_SIZE { assert a.q[0] in a.q; }
      }
    }
  }

  /** A quarantined block cannot be freed again before it has left. */
  lemma {:induction false} NotFreedAgain(a: Abstract, calls: seq<Call>, i: nat)
    requires Consistent(a) && LawfulRun(a, calls) && i < |a.q|
    requires |Frees(a, calls)| <= FREE_REUSE_SIZE - |a.q| + i + 1
    ensures a.q[i] !in Frees(a, calls)
    decreases calls
  {
    if calls != [] {
      var c, b, rest := calls[0], Next(a, calls[0]), calls[1..];
      NextConsistent(a, c);
      NextQueue(a, c);
      assert Freed(a.gs, a.q[i]);
      if Succeeds(a, c) {
        assert c.ptr != a.q[i];
        if |a.q| < FREE_REUSE_SIZE {
          NotFreedAgain(b, rest, i);
        } else if i > 0 {
          NotFreedAgain(b, rest, i - 1);
        }
      } else {
        NotFreedAgain(b, rest, i);
      }
    }
  }

  /** A freed block stays registered as invalid through 99 later successful frees, whatever else happens, and is gone
      at the hundredth. */
  lemma Quarantined(a: Abstract, ptr: Address, calls: seq<Call>)
    requires Consistent(a) && Succeeds(a, FreeCall(ptr)) && LawfulRun(Next(a, FreeCall(ptr)), calls)
    ensures var b := Next(a, FreeCall(ptr));
      && (|Frees(b, calls)| < 100 ==> Freed(After(b, calls).gs, ptr))
      && (|Frees(b, calls)| == 100 ==> !Freed(After(b, calls).gs, ptr))
  {
    var c := FreeCall(ptr);
    var b := Next(a, c);
    NextConsistent(a, c);
    NextQueue(a, c);
    QueueOfRun(b, calls);
    Lifetime(a.q, ptr, Frees(b, calls));
    if |Frees(b, calls)| == FREE_REUSE_SIZE { NotFreedAgain(b, calls, |b.q| - 1); }
  }

  ghost function WithoutBlock(gs: set<Region>, ptr: nat): set<Region>
  {
    if ptr == 0 then gs else Without(gs, ptr)
  }

  lemma InSpaceWithout(gs: set<Region>, a: nat)
    requires InSpace(gs)
    ensures InSpace(Without(gs, a))
  {}

  /** Deleting a live block leaves the quarantine exact; deleting a quarantined one cannot. */
  lemma MarkedMoved(gs: set<Region>, q: seq<Address>, ptr: nat, news: set<Region>)
    requires Marked(gs, q) && forall g :: g in news ==> !g.invalid
    ensures Marked(WithoutBlock(gs, ptr) + news, q) <==> !(ptr != 0 && Freed(gs, ptr))
  {
    var gs' := WithoutBlock(gs, ptr) + news;
    if ptr != 0 && Freed(gs, ptr) {
      assert ptr in q && !Freed(gs', ptr);
    } else {
      forall b | b in q
        ensures Freed(gs', b)
      {
        var h :| h in gs && h.start == b && h.invalid;
        assert h in gs';
      }
    }
  }

  lemma AfterFreeIs(gs: set<Region>, q: seq<Address>, r: seq<Address>, at: nat, g: Region, slot: Address)
    requires RingIs(r, at, q) && InSpace(gs) && g in gs && g.start < W && g.start != 0
    requires slot == if |q| < FREE_REUSE_SIZE then 0 else q[0]
    ensures AfterFree(gs, q, g) == if slot == 0 then Invalidated(gs, g) else Without(Invalidated(gs, g), slot)
    ensures InSpace(AfterFree(gs, q, g))
  {
    assert |q| == FREE_REUSE_SIZE ==> q[0] in q;
  }

  lemma TreeEmpty(v: View, t: Node?, head: Node?)
    requires Index(v, t, head)
    ensures t == null <==> Held(v) == {}
  {
    IndexParts(v, t, head);
    if t != null {
      assert t in Order(v.s) && v.d[t] in Held(v);
    }
  }
}
