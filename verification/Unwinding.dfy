/** Leaving frames (lib/bcheck.c): the clean-up at a function's end and the one before a long jump. */
module Unwinding {
  import opened SplayTree
  import opened RegionIndex
  import opened BoundsChecker

  // The search for a region that starts in [lo, hi].

  ghost predicate AllBelow(d: Data, s: seq<Node>, lo: nat)
  {
    forall i :: 0 <= i < |s| ==> s[i] in d && d[s[i]].start < lo
  }

  ghost predicate AllAbove(d: Data, s: seq<Node>, hi: nat)
  {
    forall i :: 0 <= i < |s| ==> s[i] in d && d[s[i]].start > hi
  }

  /** The subtree `c` at `t` holds every candidate: `a` lies below the range and `b` above it. */
  ghost predicate Narrowed(v: View, lo: nat, hi: nat, a: seq<Node>, c: Shape, b: seq<Node>, t: Node?)
  {
    Order(v.s) == a + Order(c) + b && Sorted(v.d, Order(v.s)) && Spells(v.m, c, t)
    && AllBelow(v.d, a, lo) && AllAbove(v.d, b, hi)
  }

  lemma NarrowedRight(v: View, lo: nat, hi: nat, a: seq<Node>, c: Shape, b: seq<Node>, t: Node)
    requires Narrowed(v, lo, hi, a, c, b, t) && t in v.d && v.d[t].start < lo && c.Fork?
    ensures t in v.m && Narrowed(v, lo, hi, a + Order(c.l) + [t], c.r, b, v.m[t].r)
  {
    var l, s := Order(c.l), Order(v.s);
    assert s == (a + l + [t]) + Order(c.r) + b;
    assert s[|a| + |l|] == t;
    forall i | 0 <= i < |l|
      ensures l[i] in v.d && v.d[l[i]].start < lo
    {
      assert s[|a| + i] == l[i];
    }
  }

  lemma NarrowedLeft(v: View, lo: nat, hi: nat, a: seq<Node>, c: Shape, b: seq<Node>, t: Node)
    requires Narrowed(v, lo, hi, a, c, b, t) && t in v.d && v.d[t].start > hi && c.Fork?
    ensures t in v.m && Narrowed(v, lo, hi, a, c.l, [t] + Order(c.r) + b, v.m[t].l)
  {
    var l, r, s := Order(c.l), Order(c.r), Order(v.s);
    assert s == a + l + ([t] + r + b);
    assert s[|a| + |l|] == t;
    forall i | 0 <= i < |r|
      ensures r[i] in v.d && v.d[r[i]].start > hi
    {
      assert s[|a| + |l| + 1 + i] == r[i];
    }
  }

  ghost predicate InRange(g: Region, lo: nat, hi: nat)
  {
    lo <= g.start <= hi
  }

  lemma NarrowedOut(v: View, lo: nat, hi: nat, a: seq<Node>, b: seq<Node>)
    requires Narrowed(v, lo, hi, a, Nil, b, null)
    ensures forall g :: g in Held(v) ==> !InRange(g, lo, hi)
  {
    forall g | g in Held(v)
      ensures !InRange(g, lo, hi)
    {
      var n: Node :| n in Order(v.s) && n in v.d && v.d[n] == g;
      var i :| 0 <= i < |Order(v.s)| && Order(v.s)[i] == n;
      assert Order(v.s)[i] == if i < |a| then a[i] else b[i - |a|];
    }
  }

  lemma NarrowedAt(v: View, lo: nat, hi: nat, a: seq<Node>, c: Shape, b: seq<Node>, t: Node)
    requires Narrowed(v, lo, hi, a, c, b, t)
    ensures c.Fork? && c.n == t && t in v.m && t in v.d && v.d[t] in Held(v)
  {
    assert t in Order(c) && t in Order(v.s);
  }

  /** Down the tree to a region that starts in the range. */
  method FindStart(lo: nat, hi: nat, root: Node?, ghost head: Node?, ghost v: View) returns (t: Node?)
    requires Stored(v, root, head)
    ensures t == null ==> forall g :: g in Held(v) ==> !InRange(g, lo, hi)
    ensures t != null ==> t in v.d && v.d[t] in Held(v) && v.d[t] == RegionOf(t) && InRange(v.d[t], lo, hi)
  {
    hide Narrowed, Index, Order, Held;
    t := root;
    ghost var a, b, c := [], [], v.s;
    FirstNarrowed(v, root, head, lo, hi);
    while t != null && (t.start < lo || t.start > hi)
      invariant Narrowed(v, lo, hi, a, c, b, t)
      decreases c
    {
      NarrowedAt(v, lo, hi, a, c, b, t);
      if t.start < lo {
        NarrowedRight(v, lo, hi, a, c, b, t);
        a, c := a + Order(c.l) + [c.n], c.r;
        t := t.right;
      } else {
        NarrowedLeft(v, lo, hi, a, c, b, t);
        b, c := [c.n] + Order(c.r) + b, c.l;
        t := t.left;
      }
    }
    if t == null {
      NarrowedNull(v, lo, hi, a, c, b);
    } else {
      NarrowedAt(v, lo, hi, a, c, b, t);
    }
  }

  lemma FirstNarrowed(v: View, root: Node?, head: Node?, lo: nat, hi: nat)
    requires Index(v, root, head)
    ensures Narrowed(v, lo, hi, [], v.s, [], root)
  {
    assert [] + Order(v.s) + [] == Order(v.s);
  }

  lemma NarrowedNull(v: View, lo: nat, hi: nat, a: seq<Node>, c: Shape, b: seq<Node>)
    requires Narrowed(v, lo, hi, a, c, b, null)
    ensures forall g :: g in Held(v) ==> !InRange(g, lo, hi)
  {
    assert c == Nil;
    NarrowedOut(v, lo, hi, a, b);
  }

  ghost function Outside(gs: set<Region>, lo: nat, hi: nat): set<Region>
  {
    set g | g in gs && !InRange(g, lo, hi)
  }

  datatype Alloca = Alloca(fp: Address, p: Address, size: nat)

  /** The records without the first one for each of these starts. */
  ghost function Released(al: seq<Alloca>, starts: set<nat>): seq<Alloca>
  {
    if al == [] then []
    else if al[0].p in starts then Released(al[1..], starts - {al[0].p})
    else [al[0]] + Released(al[1..], starts)
  }

  lemma {:induction false} ReleasedNone(al: seq<Alloca>)
    ensures Released(al, {}) == al
  {
    if al != [] { ReleasedNone(al[1..]); }
  }

  /** One start after others, in any order. */
  lemma {:induction false} ReleasedMore(al: seq<Alloca>, starts: set<nat>, p: nat)
    requires p !in starts
    ensures Released(Released(al, starts), {p}) == Released(al, starts + {p})
  {
    if al != [] {
      var x, rest := al[0], al[1..];
      if x.p in starts {
        ReleasedMore(rest, starts - {x.p}, p);
        assert starts + {p} - {x.p} == starts - {x.p} + {p};
      } else if x.p == p {
        assert Released(al, starts)[1..] == Released(rest, starts) && {p} - {p} == {} && starts + {p} - {p} == starts;
        ReleasedNone(Released(rest, starts));
      } else {
        assert Released(al, starts)[1..] == Released(rest, starts);
        ReleasedMore(rest, starts, p);
      }
    }
  }

  ghost predicate OncePer(al: seq<Alloca>) { forall i, j :: 0 <= i < j < |al| ==> al[i].p != al[j].p }

  /** With one record per block, exactly the records of these starts go. */
  lemma {:induction false} ReleasedAll(al: seq<Alloca>, starts: set<nat>)
    requires OncePer(al)
    ensures Released(al, starts) == Filter(al, (e: Alloca) => e.p !in starts)
  {
    if al != [] {
      var rest := al[1..];
      ReleasedAll(rest, if al[0].p in starts then starts - {al[0].p} else starts);
      if al[0].p in starts { FilterSame(rest, al[0].p, starts); }
    }
  }

  lemma {:induction false} FilterSame(al: seq<Alloca>, p: nat, starts: set<nat>)
    requires forall i :: 0 <= i < |al| ==> al[i].p != p
    ensures Filter(al, (e: Alloca) => e.p !in starts - {p}) == Filter(al, (e: Alloca) => e.p !in starts)
  {
    if al != [] { FilterSame(al[1..], p, starts); }
  }

  lemma {:induction false} ReleasedAt(al: seq<Alloca>, p: nat, i: nat)
    requires i <= |al| && forall j :: 0 <= j < i ==> al[j].p != p
    ensures i == |al| ==> Released(al, {p}) == al
    ensures i < |al| && al[i].p == p ==> Released(al, {p}) == al[..i] + al[i + 1..]
  {
    if i > 0 {
      ReleasedAt(al[1..], p, i - 1);
      assert i < |al| ==> al[..i] == [al[0]] + al[1..][..i - 1] && al[1..][i..] == al[i + 1..];
    } else if al != [] && al[0].p == p {
      assert {p} - {p} == {};
      ReleasedNone(al[1..]);
    }
  }

  /** The first record of the block at p, if there is one. */
  method DropAlloca(al: seq<Alloca>, p: nat) returns (out: seq<Alloca>)
    ensures out == Released(al, {p})
  {
    hide Released;
    var i := 0;
    while i < |al|
      invariant 0 <= i <= |al| && forall j :: 0 <= j < i ==> al[j].p != p
    {
      ReleasedAt(al, p, i);
      if al[i].p == p { return al[..i] + al[i + 1..]; }
      i := i + 1;
    }
    ReleasedAt(al, p, i);
    out := al;
  }

  ghost function StartsIn(gs: set<Region>, lo: nat, hi: nat): set<nat>
  {
    set g | g in gs && InRange(g, lo, hi) :: g.start
  }

  /** `starts` are those of the regions gone from gs, `hs` are left. */
  ghost predicate Pruned(gs: set<Region>, hs: set<Region>, starts: set<nat>, lo: nat, hi: nat)
  {
    && starts <= StartsIn(gs, lo, hi)
    && (forall g :: g in hs ==> g.start !in starts)
    && (forall g :: g in gs && InRange(g, lo, hi) ==> g.start in starts || g in hs)
  }

  lemma PrunedStep(gs: set<Region>, hs: set<Region>, starts: set<nat>, lo: nat, hi: nat, g: Region)
    requires Pruned(gs, hs, starts, lo, hi) && hs <= gs && g in hs && InRange(g, lo, hi)
    ensures g.start !in starts && Pruned(gs, Without(hs, g.start), starts + {g.start}, lo, hi)
  {}

  lemma PrunedEnd(gs: set<Region>, hs: set<Region>, starts: set<nat>, lo: nat, hi: nat)
    requires Pruned(gs, hs, starts, lo, hi) && hs == Outside(hs, lo, hi)
    ensures starts == StartsIn(gs, lo, hi)
  {
    forall g | g in gs && InRange(g, lo, hi)
      ensures g.start in starts
    {
      assert g in hs ==> g in Outside(hs, lo, hi);
    }
  }

  /** The regions of the frames jumped over: every region that starts in [lo, hi] goes, no other, and with each the
      first alloca record of its block. */
  method DeleteRange(lo: nat, hi: nat, al: seq<Alloca>, root: Node?, head: Node?, ghost v: View)
    returns (al': seq<Alloca>, t: Node?, head': Node?, ghost w: View)
    requires Stored(v, root, head)
    modifies v.m.Keys`left, v.m.Keys`right
    ensures Stored(w, t, head') && Held(w) == Outside(Held(v), lo, hi) && w.m.Keys == v.m.Keys && w.d == v.d
    ensures al' == Released(al, StartsIn(Held(v), lo, hi))
  {
    hide Index, Order, RegionSet, Without, Pruned, StartsIn;
    al', t, head', w := al, root, head, v;
    var done := false;
    ghost var starts: set<nat> := {};
    ReleasedNone(al);
    NothingPruned(Held(v), lo, hi);
    while !done
      invariant Stored(w, t, head') && w.m.Keys == v.m.Keys && w.d == v.d
      invariant Held(w) <= Held(v) && Outside(Held(w), lo, hi) == Outside(Held(v), lo, hi)
      invariant Pruned(Held(v), Held(w), starts, lo, hi) && al' == Released(al, starts)
      invariant done ==> Held(w) == Outside(Held(w), lo, hi)
      decreases if done then 0 else 1, |Held(w)|
    {
      var x := FindStart(lo, hi, t, head', w);
      if x == null {
        done := true;
      } else {
        Shrinks(Held(w), w.d[x], lo, hi);
        PrunedStep(Held(v), Held(w), starts, lo, hi, w.d[x]);
        ReleasedMore(al, starts, x.start);
        al' := DropAlloca(al', x.start);
        starts := starts + {x.start};
        t, head', w := SplayDelete(x.start, t, head', w);
      }
    }
    PrunedEnd(Held(v), Held(w), starts, lo, hi);
  }

  lemma NothingPruned(gs: set<Region>, lo: nat, hi: nat)
    ensures Pruned(gs, gs, {}, lo, hi)
  {}

  lemma Shrinks(gs: set<Region>, g: Region, lo: nat, hi: nat)
    requires g in gs && InRange(g, lo, hi)
    ensures Without(gs, g.start) < gs && |Without(gs, g.start)| < |gs|
    ensures Outside(Without(gs, g.start), lo, hi) == Outside(gs, lo, hi)
  {
    var w := Without(gs, g.start);
    Smaller(w, gs - {g});
    assert gs == (gs - {g}) + {g};
  }

  lemma {:induction false} Smaller(a: set<Region>, b: set<Region>)
    requires a <= b
    ensures |a| <= |b|
  {
    if a != {} {
      var x :| x in a;
      Smaller(a - {x}, b - {x});
    }
  }

  // The lists kept beside the tree.

  ghost function Filter<T>(s: seq<T>, keep: T -> bool): seq<T>
  {
    if s == [] then [] else (if keep(s[0]) then [s[0]] else []) + Filter(s[1..], keep)
  }

  lemma {:induction false} FilterJoin<T>(s: seq<T>, t: seq<T>, keep: T -> bool)
    ensures Filter(s + t, keep) == Filter(s, keep) + Filter(t, keep)
  {
    if s == [] {
      assert s + t == t;
    } else {
      assert (s + t)[0] == s[0] && (s + t)[1..] == s[1..] + t;
      FilterJoin(s[1..], t, keep);
      var a, b, c := if keep(s[0]) then [s[0]] else [], Filter(s[1..], keep), Filter(t, keep);
      assert Filter(s + t, keep) == a + (b + c) == (a + b) + c;
    }
  }

  lemma FilterOne<T>(x: T, keep: T -> bool)
    ensures Filter([x], keep) == (if keep(x) then [x] else []) && Filter([], keep) == []
  {
    assert [x][1..] == [];
  }

  lemma FilterAppend<T>(s: seq<T>, x: T, keep: T -> bool)
    ensures Filter(s + [x], keep) == Filter(s, keep) + if keep(x) then [x] else []
  {
    FilterJoin(s, [x], keep);
    FilterOne(x, keep);
  }

  /** `out` is `s` with the first n elements filtered; i is where the filtered part ends. */
  ghost predicate Filtering<T>(s: seq<T>, keep: T -> bool, n: nat, out: seq<T>, i: nat)
  {
    n <= |s| && i == |Filter(s[..n], keep)| && out == Filter(s[..n], keep) + s[n..]
  }

  /** One round of an unlinking loop: element i is s[n], and goes or stays. */
  lemma FilterStep<T>(s: seq<T>, keep: T -> bool, n: nat, out: seq<T>, i: nat)
    requires Filtering(s, keep, n, out, i) && n < |s|
    ensures i < |out| && out[i] == s[n]
    ensures keep(s[n]) ==> Filtering(s, keep, n + 1, out, i + 1)
    ensures !keep(s[n]) ==> Filtering(s, keep, n + 1, out[..i] + out[i + 1..], i)
  {
    var f, x, rest := Filter(s[..n], keep), s[n], s[n + 1..];
    assert s[..n + 1] == s[..n] + [x] && s[n..] == [x] + rest;
    FilterAppend(s[..n], x, keep);
    Unlinked(f, x, rest);
  }

  lemma Unlinked<T>(f: seq<T>, x: T, rest: seq<T>)
    ensures (f + ([x] + rest))[|f|] == x
    ensures (f + ([x] + rest))[..|f|] + (f + ([x] + rest))[|f| + 1..] == f + rest
    ensures f + ([x] + rest) == (f + [x]) + rest
    ensures f + [] == f
  {}

  datatype Jump = Jump(env: Address, fp: Address, endFp: Address, tid: nat)

  predicate IsTarget(j: Jump, env: Address, tid: nat) { j.env == env && j.tid == tid }

  ghost predicate FirstTarget(js: seq<Jump>, env: Address, tid: nat, k: nat)
  {
    k < |js| && IsTarget(js[k], env, tid) && forall i :: 0 <= i < k ==> !IsTarget(js[i], env, tid)
  }

  /** The jump list after a long jump to position k: this thread's records ahead of it are gone. */
  ghost function Jumped(js: seq<Jump>, tid: nat, k: nat): seq<Jump>
    requires k < |js|
  {
    Filter(js[..k], (j: Jump) => j.tid != tid) + js[k..]
  }

  method DropAhead(js: seq<Jump>, env: Address, tid: nat, ghost k: nat) returns (out: seq<Jump>)
    requires FirstTarget(js, env, tid, k)
    ensures out == Jumped(js, tid, k)
  {
    out := js;
    var i := 0;
    ghost var n, keep := 0, (j: Jump) => j.tid != tid;
    assert js[..0] == [];
    FilterStep(js, keep, n, out, i);
    while !IsTarget(out[i], env, tid)
      invariant n <= k && Filtering(js, keep, n, out, i) && i < |out| && out[i] == js[n]
      decreases k - n
    {
      FilterStep(js, keep, n, out, i);
      if out[i].tid == tid {
        out := out[..i] + out[i + 1..];
      } else {
        i := i + 1;
      }
      n := n + 1;
      FilterStep(js, keep, n, out, i);
    }
  }

  lemma {:induction false} FilterHolds<T>(s: seq<T>, keep: T -> bool)
    ensures forall i :: 0 <= i < |Filter(s, keep)| ==> keep(Filter(s, keep)[i])
    ensures (forall i :: 0 <= i < |s| ==> keep(s[i])) ==> Filter(s, keep) == s
  {
    if s != [] { FilterHolds(s[1..], keep); }
  }

  /** The records of one thread. */
  ghost function OfThread(js: seq<Jump>, u: nat): seq<Jump> { Filter(js, (j: Jump) => j.tid == u) }

  /** After a long jump the records of every other thread are all there and in order, and the first record of this thread
      is the one jumped to, which is the caller's. */
  lemma JumpLaw(js: seq<Jump>, env: Address, tid: nat, k: nat) returns (i: nat)
    requires FirstTarget(js, env, tid, k)
    ensures var out := Jumped(js, tid, k);
      && i < |out| && out[i] == js[k] && out[i].env == env && out[i].tid == tid
      && (forall j :: 0 <= j < i ==> out[j].tid != tid)
      && out[i..] == js[k..]
    ensures forall u: nat :: u != tid ==> OfThread(Jumped(js, tid, k), u) == OfThread(js, u)
  {
    var keep := (j: Jump) => j.tid != tid;
    var f := Filter(js[..k], keep);
    FilterHolds(js[..k], keep);
    i := |f|;
    forall u: nat | u != tid
      ensures OfThread(Jumped(js, tid, k), u) == OfThread(js, u)
    {
      var of := (j: Jump) => j.tid == u;
      assert js == js[..k] + js[k..];
      FilterJoin(js[..k], js[k..], of);
      FilterJoin(f, js[k..], of);
      FilterTwice(js[..k], tid, u);
    }
  }

  lemma {:induction false} FilterTwice(js: seq<Jump>, tid: nat, u: nat)
    requires u != tid
    ensures Filter(Filter(js, (j: Jump) => j.tid != tid), (j: Jump) => j.tid == u) == Filter(js, (j: Jump) => j.tid == u)
  {
    if js != [] {
      var keep, of := (j: Jump) => j.tid != tid, (j: Jump) => j.tid == u;
      FilterTwice(js[1..], tid, u);
      FilterJoin(if keep(js[0]) then [js[0]] else [], Filter(js[1..], keep), of);
      FilterOne(js[0], of);
    }
  }

  /** The clean-up of __bound_long_jump; `frame` is its own frame address. */
  method LongJump(env: Address, tid: nat, frame: Address, js: seq<Jump>, al: seq<Alloca>,
                  root: Node?, head: Node?, ghost v: View)
    returns (js': seq<Jump>, al': seq<Alloca>, t: Node?, head': Node?, ghost w: View)
    requires Stored(v, root, head)
    modifies v.m.Keys`left, v.m.Keys`right
    ensures Stored(w, t, head') && w.m.Keys == v.m.Keys && w.d == v.d
    ensures forall k: nat | FirstTarget(js, env, tid, k) ::
      && js' == Jumped(js, tid, k)
      && al' == Released(al, StartsIn(Held(v), frame, js[k].endFp))
      && Held(w) == Outside(Held(v), frame, js[k].endFp)
    ensures (forall j :: j in js ==> !IsTarget(j, env, tid)) ==> js' == js && al' == al && Held(w) == Held(v)
  {
    hide Index, Outside, Jumped, Held, Released, StartsIn;
    js', al', t, head', w := js, al, root, head, v;
    var k := 0;
    while k < |js|
      invariant 0 <= k <= |js| && forall i :: 0 <= i < k ==> !IsTarget(js[i], env, tid)
      invariant js' == js && al' == al && t == root && head' == head && w == v && Stored(v, root, head)
    {
      if IsTarget(js[k], env, tid) {
        js' := DropAhead(js, env, tid, k);
        al', t, head', w := DeleteRange(frame, js[k].endFp, al, t, head', w);
        assert forall i: nat :: FirstTarget(js, env, tid, i) ==> i == k;
        return;
      }
      k := k + 1;
    }
  }

  // Leaving one frame.

  ghost function WithoutAll(gs: set<Region>, starts: set<nat>): set<Region>
  {
    set g | g in gs && g.start !in starts
  }

  /** The regions of the frame's variables, listed by their offsets from it. */
  method DeleteLocals(offsets: seq<Address>, fp: Address, root: Node?, head: Node?, ghost v: View)
    returns (t: Node?, head': Node?, ghost w: View)
    requires Stored(v, root, head)
    modifies v.m.Keys`left, v.m.Keys`right
    ensures Stored(w, t, head') && w.m.Keys == v.m.Keys
    ensures Held(w) == WithoutAll(Held(v), set a | a in offsets :: Plus(a, fp))
  {
    hide Index, RegionSet;
    t, head', w := root, head, v;
    for i := 0 to |offsets|
      invariant Stored(w, t, head') && w.m.Keys == v.m.Keys
      invariant Held(w) == WithoutAll(Held(v), set a | a in offsets[..i] :: Plus(a, fp))
    {
      assert offsets[..i + 1] == offsets[..i] + [offsets[i]];
      t, head', w := SplayDelete(Plus(offsets[i], fp), t, head', w);
    }
    assert offsets[..|offsets|] == offsets;
  }

  /** The frame's alloca records, with their regions. */
  method DeleteAllocas(al: seq<Alloca>, fp: Address, root: Node?, head: Node?, ghost v: View)
    returns (out: seq<Alloca>, t: Node?, head': Node?, ghost w: View)
    requires Stored(v, root, head)
    modifies v.m.Keys`left, v.m.Keys`right
    ensures Stored(w, t, head') && w.m.Keys == v.m.Keys && out == Filter(al, (e: Alloca) => e.fp != fp)
    ensures Held(w) == WithoutAll(Held(v), set e | e in al && e.fp == fp :: e.p)
  {
    hide Index, RegionSet, Filtering;
    out, t, head', w := al, root, head, v;
    ghost var keep := (e: Alloca) => e.fp != fp;
    var i := 0;
    FilterStart(al, keep);
    for n := 0 to |al|
      invariant Stored(w, t, head') && w.m.Keys == v.m.Keys && Filtering(al, keep, n, out, i)
      invariant Held(w) == WithoutAll(Held(v), set e | e in al[..n] && e.fp == fp :: e.p)
    {
      FilterStep(al, keep, n, out, i);
      assert al[..n + 1] == al[..n] + [al[n]];
      if out[i].fp == fp {
        t, head', w := SplayDelete(out[i].p, t, head', w);
        out := out[..i] + out[i + 1..];
      } else {
        i := i + 1;
      }
    }
    FilterEnd(al, keep, out, i);
    assert al[..|al|] == al;
  }

  lemma FilterStart<T>(s: seq<T>, keep: T -> bool)
    ensures Filtering(s, keep, 0, s, 0)
  {
    assert s[..0] == [];
  }

  lemma FilterEnd<T>(s: seq<T>, keep: T -> bool, out: seq<T>, i: nat)
    requires Filtering(s, keep, |s|, out, i)
    ensures out == Filter(s, keep)
  {
    assert s[..|s|] == s;
  }

  method DeleteJumps(js: seq<Jump>, fp: Address) returns (out: seq<Jump>)
    ensures out == Filter(js, (j: Jump) => j.fp != fp)
  {
    out := js;
    ghost var keep := (j: Jump) => j.fp != fp;
    var i := 0;
    FilterStart(js, keep);
    for n := 0 to |js|
      invariant Filtering(js, keep, n, out, i)
    {
      FilterStep(js, keep, n, out, i);
      if out[i].fp == fp {
        out := out[..i] + out[i + 1..];
      } else {
        i := i + 1;
      }
    }
    FilterEnd(js, keep, out, i);
  }

  /** The address is that of a variable of the frame, at its signed offset from fp, or of one of its allocas. */
  ghost predicate OfFrame(start: nat, offsets: seq<Address>, fp: Address, al: seq<Alloca>)
  {
    || (exists i :: 0 <= i < |offsets| && start == fp + AsSigned(offsets[i]))
    || (exists i :: 0 <= i < |al| && al[i].fp == fp && start == al[i].p)
  }

  lemma FrameStarts(offsets: seq<Address>, fp: Address, al: seq<Alloca>)
    ensures (forall a :: a in offsets ==> 0 <= fp + AsSigned(a) < W) ==>
      forall x: nat :: OfFrame(x, offsets, fp, al) <==>
        x in (set a | a in offsets :: Plus(a, fp)) + (set e | e in al && e.fp == fp :: e.p)
  {
    if forall a :: a in offsets ==> 0 <= fp + AsSigned(a) < W {
      forall x: nat
        ensures OfFrame(x, offsets, fp, al) <==>
          x in (set a | a in offsets :: Plus(a, fp)) + (set e | e in al && e.fp == fp :: e.p)
      {
        FrameStart(offsets, fp, al, x);
      }
    }
  }

  lemma FrameStart(offsets: seq<Address>, fp: Address, al: seq<Alloca>, x: nat)
    requires forall a :: a in offsets ==> 0 <= fp + AsSigned(a) < W
    ensures OfFrame(x, offsets, fp, al) <==>
      x in (set a | a in offsets :: Plus(a, fp)) + (set e | e in al && e.fp == fp :: e.p)
  {
    assert forall a :: a in offsets ==> Plus(a, fp) == fp + AsSigned(a);
    if i :| 0 <= i < |offsets| && x == fp + AsSigned(offsets[i]) {
      assert offsets[i] in offsets;
    }
    if i :| 0 <= i < |al| && al[i].fp == fp && x == al[i].p {
      assert al[i] in al;
    }
  }

  /** __bound_local_delete */
  method LocalDelete(offsets: seq<Address>, fp: Address, al: seq<Alloca>, js: seq<Jump>,
                     root: Node?, head: Node?, ghost v: View)
    returns (al': seq<Alloca>, js': seq<Jump>, t: Node?, head': Node?, ghost w: View)
    requires Stored(v, root, head)
    modifies v.m.Keys`left, v.m.Keys`right
    ensures Stored(w, t, head') && w.m.Keys == v.m.Keys
    ensures Held(w) == WithoutAll(Held(v), (set a | a in offsets :: Plus(a, fp)) + (set e | e in al && e.fp == fp :: e.p))
    ensures al' == Filter(al, (e: Alloca) => e.fp != fp) && js' == Filter(js, (j: Jump) => j.fp != fp)
    ensures (forall a :: a in offsets ==> 0 <= fp + AsSigned(a) < W) ==>
      forall g :: g in Held(w) <==> g in Held(v) && !OfFrame(g.start, offsets, fp, al)
  {
    hide Index, RegionSet;
    FrameStarts(offsets, fp, al);
    t, head', w := DeleteLocals(offsets, fp, root, head, v);
    al', t, head', w := DeleteAllocas(al, fp, t, head', w);
    js' := DeleteJumps(js, fp);
  }
}
