/** The generated hash chains (gen_kw_index.c, gen_predef_table.c) and the walks along them (source/frontend/tccpp.c). */
module HashIndex {
  import opened Words

  /** TOK_HASH_FUNC from TOK_HASH_INIT, in 32 bits. */
  ghost function TokHash(s: seq<Byte>): (h: u32)
  {
    if s == [] then 1
    else
      var h := TokHash(s[..|s| - 1]);
      (h + h * 32 + h / 0x800_0000 + s[|s| - 1]) % 0x1_0000_0000
  }

  /** h & (size - 1), size being a power of two. */
  ghost function Bucket(s: seq<Byte>, size: nat): (b: nat)
    requires size > 0
    ensures b < size
  {
    TokHash(s) % size
  }

  lemma HashStep(h: u32, hi: nat, lo: nat, c: Byte)
    requires h == hi * 0x800_0000 + lo && lo < 0x800_0000
    ensures lo * 32 < 0x1_0000_0000 && hi < 32
    ensures Add32(Add32(Add32(h, lo * 32), hi), c) == (h + h * 32 + h / 0x800_0000 + c) % 0x1_0000_0000
  {
    assert h / 0x800_0000 == hi;
    assert h * 32 == hi * 0x1_0000_0000 + lo * 32;
    var a := Add32(Add32(Add32(h, lo * 32), hi), c);
    var n := h + h * 32 + hi + c;
    assert a == n - hi * 0x1_0000_0000 || a == n - (hi + 1) * 0x1_0000_0000 || a == n - (hi + 2) * 0x1_0000_0000;
  }

  /** The hashing loop. */
  method HashOf(s: seq<Byte>) returns (h: u32)
    ensures h == TokHash(s)
  {
    assert Pow2(5) == 32;
    assert Pow2(27) == 0x800_0000 by { Pow2Middle(); assert Pow2(28) == 2 * Pow2(27); }
    hide Pow2, Add32;
    h := 1;
    for i := 0 to |s|
      invariant h == TokHash(s[..i])
    {
      assert s[..i + 1][..i] == s[..i];
      var l, hi, lo := Left32(h, 5, 0x800_0000, 32);
      var r, lo' := Right32(h, 27, 0x800_0000);
      Euclid(0x800_0000, hi, lo, r, lo');
      HashStep(h, r, lo, s[i]);
      h := Add32(Add32(Add32(h, l), r), s[i]);
    }
    assert s[..|s|] == s;
  }

  method BucketOf(s: seq<Byte>, size: nat) returns (b: nat)
    requires size > 0
    ensures b == Bucket(s, size)
  {
    var h := HashOf(s);
    b := h % size;
  }

  /** Chain of bucket b over the first n keys: positions + 1, newest first. */
  ghost function Newest(bs: seq<nat>, n: nat, b: nat): seq<nat>
    requires n <= |bs|
  {
    if n == 0 then [] else if bs[n - 1] == b then [n] + Newest(bs, n - 1, b) else Newest(bs, n - 1, b)
  }

  /** Links lead to older entries only. */
  ghost predicate Descending(next: seq<nat>, n: nat)
  {
    n <= |next| && forall i :: 0 <= i < n ==> next[i] <= i
  }

  /** The walk from link e. */
  ghost function Walk(next: seq<nat>, e: nat): seq<nat>
    requires Descending(next, e)
  {
    if e == 0 then [] else [e] + Walk(next, next[e - 1])
  }

  lemma {:induction false} WalkFrame(next: seq<nat>, next': seq<nat>, e: nat)
    requires Descending(next, e) && e <= |next'| && forall i :: 0 <= i < e ==> next'[i] == next[i]
    ensures Descending(next', e) && Walk(next', e) == Walk(next, e)
    decreases e
  {
    if e > 0 { WalkFrame(next, next', next[e - 1]); }
  }

  /** Every bucket's walk is its chain. */
  ghost predicate Indexes(head: seq<nat>, next: seq<nat>, bs: seq<nat>, n: nat)
  {
    && n <= |bs| && Descending(next, n)
    && forall b :: 0 <= b < |head| ==> head[b] <= n && Walk(next, head[b]) == Newest(bs, n, b)
  }

  /** Key n goes to the head of its chain. */
  lemma IndexesStep(head: seq<nat>, next: seq<nat>, bs: seq<nat>, n: nat)
    requires Indexes(head, next, bs, n) && n < |bs| && n < |next| && bs[n] < |head|
    ensures Indexes(head[bs[n] := n + 1], next[n := head[bs[n]]], bs, n + 1)
  {
    var h, x := head[bs[n] := n + 1], next[n := head[bs[n]]];
    forall b | 0 <= b < |head|
      ensures h[b] <= n + 1 && Walk(x, h[b]) == Newest(bs, n + 1, b)
    {
      WalkFrame(next, x, head[b]);
    }
  }

  /** The loop of gen_kw_index.c, and of the generator's name index. */
  method Build(keys: seq<seq<Byte>>, size: nat) returns (head: array<nat>, next: array<nat>)
    requires size > 0
    ensures fresh(head) && fresh(next) && head.Length == size && next.Length == |keys|
    ensures Indexes(head[..], next[..], Buckets(keys, size), |keys|)
  {
    ghost var bs := Buckets(keys, size);
    head := new nat[size](i => 0);
    next := new nat[|keys|](i => 0);
    assert forall b :: 0 <= b < size ==> head[..][b] == 0;
    for n := 0 to |keys|
      invariant head.Length == size && next.Length == |keys| && fresh(head) && fresh(next)
      invariant Indexes(head[..], next[..], bs, n)
    {
      var b := BucketOf(keys[n], size);
      IndexesStep(head[..], next[..], bs, n);
      ghost var h, x := head[..], next[..];
      next[n] := head[b];
      head[b] := n + 1;
      assert head[..] == h[b := n + 1] && next[..] == x[n := h[b]];
    }
  }

  ghost function Buckets(keys: seq<seq<Byte>>, size: nat): (bs: seq<nat>)
    requires size > 0
    ensures |bs| == |keys| && forall i :: 0 <= i < |keys| ==> bs[i] == Bucket(keys[i], size)
  {
    seq(|keys|, i requires 0 <= i < |keys| => Bucket(keys[i], size))
  }

  /** A link skips only keys of other buckets. */
  lemma {:induction false} Skipped(bs: seq<nat>, n: nat, b: nat, e: nat, next: seq<nat>)
    requires n <= |bs| && Descending(next, e) && e <= n && Walk(next, e) == Newest(bs, n, b)
    ensures Newest(bs, e, b) == Newest(bs, n, b)
    ensures forall j :: e <= j < n ==> bs[j] != b
    ensures e > 0 ==> bs[e - 1] == b && Walk(next, next[e - 1]) == Newest(bs, e - 1, b)
    decreases n
  {
    if n > 0 {
      if bs[n - 1] == b {
        assert Newest(bs, n, b)[0] == n;
        assert Walk(next, e)[0] == e;
        assert Newest(bs, n, b)[1..] == Newest(bs, n - 1, b) && Walk(next, e)[1..] == Walk(next, next[e - 1]);
      } else {
        NewestBelow(bs, n - 1, b);
        assert e > 0 ==> Walk(next, e)[0] == e;
        Skipped(bs, n - 1, b, e, next);
      }
    }
  }

  lemma {:induction false} NewestBelow(bs: seq<nat>, n: nat, b: nat)
    requires n <= |bs|
    ensures forall k :: 0 <= k < |Newest(bs, n, b)| ==> 0 < Newest(bs, n, b)[k] <= n
    decreases n
  {
    if n > 0 { NewestBelow(bs, n - 1, b); }
  }

  /** kw_lookup_materialize: the newest entry with that key, exactly as a scan from the end would find it. */
  method Lookup(head: array<nat>, next: array<nat>, keys: seq<seq<Byte>>, key: seq<Byte>) returns (found: bool, k: nat)
    requires head.Length > 0 && next.Length == |keys|
    requires Indexes(head[..], next[..], Buckets(keys, head.Length), |keys|)
    ensures found ==> k < |keys| && keys[k] == key && forall j :: k < j < |keys| ==> keys[j] != key
    ensures !found ==> key !in keys
  {
    var b := BucketOf(key, head.Length);
    ghost var bs := Buckets(keys, head.Length);
    assert forall j :: 0 <= j < |keys| && keys[j] == key ==> bs[j] == b;
    found, k := Scan(head[b], next, keys, key, b, bs);
  }

  ghost predicate NotFrom(keys: seq<seq<Byte>>, key: seq<Byte>, n: nat)
  {
    forall j :: n <= j < |keys| ==> keys[j] != key
  }

  /** One link of the chain, from the keys below n to the entry e. */
  lemma ScanRound(x: seq<nat>, keys: seq<seq<Byte>>, key: seq<Byte>, b: nat, bs: seq<nat>, n: nat, e: nat)
    requires |x| == |keys| == |bs| && Descending(x, |keys|) && e <= n <= |keys|
    requires Walk(x, e) == Newest(bs, n, b) && NotFrom(keys, key, n)
    requires forall j :: 0 <= j < |keys| && keys[j] == key ==> bs[j] == b
    ensures NotFrom(keys, key, e)
    ensures e > 0 ==> x[e - 1] < e && Walk(x, x[e - 1]) == Newest(bs, e - 1, b)
  {
    hide Walk, Newest;
    Skipped(bs, n, b, e, x);
  }

  /** Keys equal to `key` are all in the bucket walked. */
  method Scan(first: nat, next: array<nat>, keys: seq<seq<Byte>>, key: seq<Byte>, ghost b: nat, ghost bs: seq<nat>)
    returns (found: bool, k: nat)
    requires next.Length == |keys| == |bs| && Descending(next[..], |keys|) && first <= |keys|
    requires Walk(next[..], first) == Newest(bs, |keys|, b)
    requires forall j :: 0 <= j < |keys| && keys[j] == key ==> bs[j] == b
    ensures found ==> k < |keys| && keys[k] == key && NotFrom(keys, key, k + 1)
    ensures !found ==> NotFrom(keys, key, 0)
  {
    hide Walk, Newest;
    ghost var x: seq<nat>, n: nat := next[..], |keys|;
    var e: nat := first;
    while e != 0
      invariant e <= n <= |keys| && Walk(x, e) == Newest(bs, n, b) && NotFrom(keys, key, n)
      decreases e
    {
      ScanRound(x, keys, key, b, bs, n, e);
      if keys[e - 1] == key {
        return true, e - 1;
      }
      n := e - 1;
      e := next[e - 1];
    }
    ScanRound(x, keys, key, b, bs, n, 0);
    return false, 0;
  }
}
