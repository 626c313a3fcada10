/** Read-modify-write by compare-and-swap loops (lib/stdatomic.c), as interleaved steps of any number of calls on one
    cell.  The log of successful exchanges is the history the properties speak of. */
module Atomics {
  import opened Words

  datatype Op = Exchange | Add | Sub | And_ | Or_ | Xor_ | Nand

  /** `fetched`: the variant returns the value the operation left rather than the one it found. */
  datatype Call = Call(op: Op, value: nat, fetched: bool)

  function Xor(a: nat, b: nat): nat
  {
    if a == 0 && b == 0 then 0 else (a + b) % 2 + 2 * Xor(a / 2, b / 2)
  }

  /** OP as computed. */
  function Raw(c: Call, cmp: nat): int
  {
    match c.op
    case Exchange => c.value
    case Add => cmp + c.value
    case Sub => cmp - c.value
    case And_ => And(cmp, c.value)
    case Or_ => Or(cmp, c.value)
    case Xor_ => Xor(cmp, c.value)
    case Nand => 0 - And(cmp, c.value) - 1
  }

  /** ... and as stored in a type of w bits. */
  function Apply(w: nat, c: Call, cmp: nat): (r: nat)
    ensures r < Pow2(w)
  {
    Raw(c, cmp) % Pow2(w)
  }

  /** Where a call is: before its load, in the loop, past it, or back in its caller.  `loadedAt`, `pos` and `doneAt` are
      positions in the log. */
  datatype Phase = Entered
                 | Trying(cmp: nat, loadedAt: nat)
                 | Exchanged(cmp: nat, xchg: nat, pos: nat)
                 | Returned(result: nat, pos: nat, doneAt: nat)

  datatype Activity = Activity(call: Call, startedAt: nat, phase: Phase)

  /** `actor` is the activity's number; plain stores have none. */
  datatype Event = Event(actor: int, call: Call, before: nat, after: nat)

  datatype State = State(cell: nat, log: seq<Event>, acts: seq<Activity>)

  datatype Step = Begin(call: Call) | Load(i: nat) | Try(i: nat, spurious: bool) | Return(i: nat) | Store(value: nat)

  predicate Enabled(s: State, step: Step)
  {
    match step
    case Begin(_) => true
    case Load(i) => i < |s.acts| && s.acts[i].phase.Entered?
    case Try(i, _) => i < |s.acts| && s.acts[i].phase.Trying?
    case Return(i) => i < |s.acts| && s.acts[i].phase.Exchanged?
    case Store(_) => true
  }

  function Moved(s: State, i: nat, p: Phase): State
    requires i < |s.acts|
  {
    s.(acts := s.acts[i := s.acts[i].(phase := p)])
  }

  function Next(w: nat, s: State, step: Step): State
    requires Enabled(s, step)
  {
    match step
    case Begin(c) => s.(acts := s.acts + [Activity(c, |s.log|, Entered)])
    case Load(i) => Moved(s, i, Trying(s.cell, |s.log|))
    case Try(i, spurious) =>
      var a := s.acts[i];
      var xchg := Apply(w, a.call, a.phase.cmp);
      if s.cell == a.phase.cmp && !spurious then
        Moved(s, i, Exchanged(a.phase.cmp, xchg, |s.log|)).(cell := xchg,
          log := s.log + [Event(i, a.call, s.cell, xchg)])
      else
        Moved(s, i, Trying(s.cell, |s.log|))
    case Return(i) =>
      var p := s.acts[i].phase;
      Moved(s, i, Returned(if s.acts[i].call.fetched then p.xchg else p.cmp, p.pos, |s.log|))
    case Store(x) => s.(cell := x, log := s.log + [Event(-1, Call(Exchange, x, false), s.cell, x)])
  }

  ghost predicate Possible(w: nat, s: State, steps: seq<Step>)
    decreases steps
  {
    steps == [] || (Enabled(s, steps[0]) && Possible(w, Next(w, s, steps[0]), steps[1..]))
  }

  ghost function Run(w: nat, s: State, steps: seq<Step>): State
    requires Possible(w, s, steps)
    decreases steps
  {
    if steps == [] then s else Run(w, Next(w, s, steps[0]), steps[1..])
  }

  function Start(x: nat): State { State(x, [], []) }

  // What holds in every state.

  /** The cell after the first n exchanges: the operations applied one after another. */
  ghost function Value(w: nat, x: nat, log: seq<Event>): nat
  {
    if log == [] then x else Apply(w, log[|log| - 1].call, Value(w, x, log[..|log| - 1]))
  }

  ghost predicate Sound(w: nat, x: nat, log: seq<Event>, cell: nat)
  {
    && cell == Value(w, x, log)
    && forall p :: 0 <= p < |log| ==> log[p].before == Value(w, x, log[..p]) && log[p].after == Value(w, x, log[..p + 1])
  }

  ghost predicate Placed(w: nat, x: nat, s: State, i: nat)
    requires i < |s.acts|
  {
    var a := s.acts[i];
    && a.startedAt <= |s.log|
    && match a.phase
       case Entered => true
       case Trying(cmp, at) => a.startedAt <= at <= |s.log| && cmp == Value(w, x, s.log[..at])
       case Exchanged(cmp, xchg, pos) => Took(s, i, pos) && cmp == s.log[pos].before && xchg == s.log[pos].after
       case Returned(r, pos, done) =>
         Took(s, i, pos) && pos < done <= |s.log| && r == if a.call.fetched then s.log[pos].after else s.log[pos].before
  }

  /** Event `pos` is activity i's, after it began. */
  ghost predicate Took(s: State, i: nat, pos: nat)
    requires i < |s.acts|
  {
    s.acts[i].startedAt <= pos < |s.log| && s.log[pos].actor == i && s.log[pos].call == s.acts[i].call
  }

  /** Every event of an activity is the one its phase records. */
  ghost predicate Attributed(s: State)
  {
    forall p :: 0 <= p < |s.log| && s.log[p].actor >= 0 ==>
      s.log[p].actor < |s.acts| && PosIs(s.acts[s.log[p].actor].phase, p)
  }

  ghost predicate PosIs(f: Phase, p: int)
  {
    (f.Exchanged? && f.pos == p) || (f.Returned? && f.pos == p)
  }

  ghost predicate Inv(w: nat, x: nat, s: State)
  {
    && Sound(w, x, s.log, s.cell) && Attributed(s)
    && forall i :: 0 <= i < |s.acts| ==> Placed(w, x, s, i)
  }

  lemma ValueAppend(w: nat, x: nat, log: seq<Event>, e: Event)
    ensures Value(w, x, log + [e]) == Apply(w, e.call, Value(w, x, log))
  {
    assert (log + [e])[..|log|] == log;
  }

  /** Appending an event that found the cell as it was. */
  lemma SoundAppend(w: nat, x: nat, log: seq<Event>, cell: nat, e: Event)
    requires Sound(w, x, log, cell) && e.before == cell && e.after == Apply(w, e.call, cell)
    ensures Sound(w, x, log + [e], e.after)
  {
    var log' := log + [e];
    ValueAppend(w, x, log, e);
    assert log'[..|log'|] == log' && log'[..|log|] == log;
    forall p | 0 <= p < |log'|
      ensures log'[p].before == Value(w, x, log'[..p]) && log'[p].after == Value(w, x, log'[..p + 1])
    {
      if p < |log| { assert log'[..p] == log[..p] && log'[..p + 1] == log[..p + 1]; }
    }
  }

  /** A longer log, other activities' phases: an activity is placed as before. */
  lemma PlacedKept(w: nat, x: nat, s: State, s': State, i: nat)
    requires i < |s.acts| && i < |s'.acts| && s'.acts[i] == s.acts[i] && Placed(w, x, s, i)
    requires |s.log| <= |s'.log| && s'.log[..|s.log|] == s.log
    ensures Placed(w, x, s', i)
  {
    assert forall p :: 0 <= p < |s.log| ==> s'.log[p] == s.log[p];
    if s.acts[i].phase.Trying? {
      var at := s.acts[i].phase.loadedAt;
      assert s'.log[..at] == s.log[..at];
    }
  }

  /** Everything but the activity that moved. */
  lemma OthersPlaced(w: nat, x: nat, s: State, s': State, i: int)
    requires |s.acts| <= |s'.acts| && (forall j :: 0 <= j < |s.acts| ==> Placed(w, x, s, j))
    requires forall j :: 0 <= j < |s.acts| && j != i ==> s'.acts[j] == s.acts[j]
    requires |s.log| <= |s'.log| && s'.log[..|s.log|] == s.log
    ensures forall j :: 0 <= j < |s.acts| && j != i ==> Placed(w, x, s', j)
  {
    forall j | 0 <= j < |s.acts| && j != i
      ensures Placed(w, x, s', j)
    {
      PlacedKept(w, x, s, s', j);
    }
  }

  /** A load, or a failed exchange, which loads as well. */
  lemma LoadKeeps(w: nat, x: nat, s: State, i: nat)
    requires Inv(w, x, s) && i < |s.acts| && (s.acts[i].phase.Entered? || s.acts[i].phase.Trying?)
    ensures Inv(w, x, Moved(s, i, Trying(s.cell, |s.log|)))
  {
    var s' := Moved(s, i, Trying(s.cell, |s.log|));
    assert s.log[..|s.log|] == s.log;
    hide Pow2, Raw, Value;
    OthersPlaced(w, x, s, s', i);
    assert Placed(w, x, s, i) && Placed(w, x, s', i);
    forall p | 0 <= p < |s.log| && s.log[p].actor >= 0
      ensures s.log[p].actor < |s'.acts| && PosIs(s'.acts[s.log[p].actor].phase, p)
    {
      assert PosIs(s.acts[s.log[p].actor].phase, p);
    }
  }

  lemma StoreIs(w: nat, v: nat, cell: nat)
    requires v < Pow2(w)
    ensures Apply(w, Call(Exchange, v, false), cell) == v
  {
    hide Pow2;
    DivUnique(v, Pow2(w), 0, v);
  }

  lemma StoreKeeps(w: nat, x: nat, s: State, v: nat)
    requires Inv(w, x, s) && v < Pow2(w)
    ensures Inv(w, x, Next(w, s, Store(v)))
  {
    var e := Event(-1, Call(Exchange, v, false), s.cell, v);
    StoreIs(w, v, s.cell);
    hide Pow2, Raw, Value, Apply;
    SoundAppend(w, x, s.log, s.cell, e);
    OthersPlaced(w, x, s, Next(w, s, Store(v)), -1);
  }

  lemma ExchangeKeeps(w: nat, x: nat, s: State, i: nat)
    requires Inv(w, x, s) && Enabled(s, Try(i, false)) && s.cell == s.acts[i].phase.cmp
    ensures Inv(w, x, Next(w, s, Try(i, false)))
  {
    var s' := Next(w, s, Try(i, false));
    var e := s'.log[|s.log|];
    assert Placed(w, x, s, i);
    hide Pow2, Raw, Value, Apply;
    SoundAppend(w, x, s.log, s.cell, e);
    OthersPlaced(w, x, s, s', i);
    assert s'.log[|s.log|] == e && s'.acts[i].phase.pos == |s.log|;
    assert Placed(w, x, s', i);
    forall p | 0 <= p < |s'.log| && s'.log[p].actor >= 0
      ensures s'.log[p].actor < |s'.acts| && PosIs(s'.acts[s'.log[p].actor].phase, p)
    {
      if p < |s.log| { assert s'.log[p] == s.log[p] && PosIs(s.acts[s.log[p].actor].phase, p); }
    }
  }

  lemma ReturnKeeps(w: nat, x: nat, s: State, i: nat)
    requires Inv(w, x, s) && Enabled(s, Return(i))
    ensures Inv(w, x, Next(w, s, Return(i)))
  {
    var s' := Next(w, s, Return(i));
    hide Pow2, Raw, Value, Apply;
    OthersPlaced(w, x, s, s', i);
    assert Placed(w, x, s, i) && Placed(w, x, s', i);
    forall p | 0 <= p < |s.log| && s.log[p].actor >= 0
      ensures s.log[p].actor < |s'.acts| && PosIs(s'.acts[s.log[p].actor].phase, p)
    {
      assert PosIs(s.acts[s.log[p].actor].phase, p);
    }
  }

  ghost predicate InType(w: nat, step: Step)
  {
    step.Store? ==> step.value < Pow2(w)
  }

  lemma StepKeeps(w: nat, x: nat, s: State, step: Step)
    requires Inv(w, x, s) && Enabled(s, step) && InType(w, step)
    ensures Inv(w, x, Next(w, s, step))
  {
    match step
    case Begin(c) => OthersPlaced(w, x, s, Next(w, s, step), -1);
    case Load(i) => LoadKeeps(w, x, s, i);
    case Return(i) => ReturnKeeps(w, x, s, i);
    case Store(v) => StoreKeeps(w, x, s, v);
    case Try(i, spurious) =>
      if s.cell == s.acts[i].phase.cmp && !spurious {
        ExchangeKeeps(w, x, s, i);
      } else {
        LoadKeeps(w, x, s, i);
      }
  }

  /** Every interleaving, of any calls, with any spurious failures. */
  lemma {:induction false} RunKeeps(w: nat, x: nat, s: State, steps: seq<Step>)
    requires Inv(w, x, s) && Possible(w, s, steps) && forall k :: 0 <= k < |steps| ==> InType(w, steps[k])
    ensures Inv(w, x, Run(w, s, steps))
    decreases steps
  {
    if steps != [] {
      StepKeeps(w, x, s, steps[0]);
      RunKeeps(w, x, Next(w, s, steps[0]), steps[1..]);
    }
  }

  ghost predicate Reached(w: nat, x: nat, s: State)
  {
    exists steps: seq<Step> ::
      Possible(w, Start(x), steps) && (forall k :: 0 <= k < |steps| ==> InType(w, steps[k])) && Run(w, Start(x), steps) == s
  }

  // What a caller can rely on.

  lemma ReachedInv(w: nat, x: nat, s: State)
    requires Reached(w, x, s)
    ensures Inv(w, x, s)
  {
    var steps: seq<Step> :| Possible(w, Start(x), steps) && (forall k :: 0 <= k < |steps| ==> InType(w, steps[k]))
      && Run(w, Start(x), steps) == s;
    RunKeeps(w, x, Start(x), steps);
  }

  /** The cell is the fold of the operations in the order of their exchanges. */
  lemma CellIsFold(w: nat, x: nat, s: State)
    requires Reached(w, x, s)
    ensures s.cell == Value(w, x, s.log)
  {
    ReachedInv(w, x, s);
  }

  /** A call that has returned took effect at exactly one exchange, between its start and its return, and returned what the
      cell held just before it or just after it. */
  lemma OneEffect(w: nat, x: nat, s: State, i: nat)
    requires Reached(w, x, s) && i < |s.acts| && s.acts[i].phase.Returned?
    ensures var a := s.acts[i];
      var p := a.phase.pos;
      && a.startedAt <= p < a.phase.doneAt <= |s.log| && s.log[p].actor == i && s.log[p].call == a.call
      && (forall r :: 0 <= r < |s.log| && s.log[r].actor == i ==> r == p)
      && a.phase.result == (if a.call.fetched then Apply(w, a.call, Value(w, x, s.log[..p])) else Value(w, x, s.log[..p]))
      && a.phase.result == (if a.call.fetched then s.log[p].after else s.log[p].before)
  {
    hide Pow2, Raw, Apply, Value, Reached;
    ReachedInv(w, x, s);
    assert Placed(w, x, s, i);
    var p := s.acts[i].phase.pos;
    assert s.log[..p + 1] == s.log[..p] + [s.log[p]];
    ValueAppend(w, x, s.log[..p], s.log[p]);
  }

  /** A call that has not got past its loop has had no effect. */
  lemma NoEffectYet(w: nat, x: nat, s: State, i: nat)
    requires Reached(w, x, s) && i < |s.acts| && (s.acts[i].phase.Entered? || s.acts[i].phase.Trying?)
    ensures forall r :: 0 <= r < |s.log| ==> s.log[r].actor != i
  {
    ReachedInv(w, x, s);
  }

  /** Effects respect real time. */
  lemma RealTime(w: nat, x: nat, s: State, i: nat, j: nat)
    requires Reached(w, x, s) && i < |s.acts| && j < |s.acts| && s.acts[i].phase.Returned? && s.acts[j].phase.Returned?
    requires s.acts[i].phase.doneAt <= s.acts[j].startedAt
    ensures s.acts[i].phase.pos < s.acts[j].phase.pos
  {
    OneEffect(w, x, s, i);
    OneEffect(w, x, s, j);
  }

  /** An exchange fails without a spurious failure only if another operation took effect since the value was loaded. */
  lemma LockFree(w: nat, x: nat, s: State, i: nat)
    requires Reached(w, x, s) && Enabled(s, Try(i, false)) && Next(w, s, Try(i, false)).acts[i].phase.Trying?
    ensures s.acts[i].phase.loadedAt < |s.log|
  {
    ReachedInv(w, x, s);
    assert Placed(w, x, s, i);
    assert s.log[..|s.log|] == s.log;
  }

  // What the operations do, without reference to how they are computed.

  ghost function Bit(n: nat, k: nat): nat
  {
    if k == 0 then n % 2 else Bit(n / 2, k - 1)
  }

  lemma AndHalves(a: nat, b: nat)
    ensures And(a, b) / 2 == And(a / 2, b / 2) && (And(a, b) % 2 == 1 <==> a % 2 == 1 && b % 2 == 1)
  {}

  lemma OrHalves(a: nat, b: nat)
    ensures Or(a, b) / 2 == Or(a / 2, b / 2) && (Or(a, b) % 2 == 1 <==> a % 2 == 1 || b % 2 == 1)
  {
    OrUnfold(a, b);
    hide Or;
  }

  lemma XorHalves(a: nat, b: nat)
    ensures Xor(a, b) / 2 == Xor(a / 2, b / 2) && Xor(a, b) % 2 == (a + b) % 2
  {
    if a == 0 && b == 0 { assert Xor(0, 0) == 0; }
  }

  lemma {:induction false} AndBit(a: nat, b: nat, k: nat)
    ensures Bit(And(a, b), k) == 1 <==> Bit(a, k) == 1 && Bit(b, k) == 1
  {
    hide And;
    AndHalves(a, b);
    if k > 0 { AndBit(a / 2, b / 2, k - 1); }
  }

  lemma {:induction false} OrBit(a: nat, b: nat, k: nat)
    ensures Bit(Or(a, b), k) == 1 <==> Bit(a, k) == 1 || Bit(b, k) == 1
  {
    hide Or;
    OrHalves(a, b);
    if k > 0 { OrBit(a / 2, b / 2, k - 1); }
  }

  lemma {:induction false} XorBit(a: nat, b: nat, k: nat)
    ensures Bit(Xor(a, b), k) == 1 <==> (Bit(a, k) == 1) != (Bit(b, k) == 1)
  {
    hide Xor;
    XorHalves(a, b);
    if k > 0 { XorBit(a / 2, b / 2, k - 1); }
  }

  lemma {:induction false} BitIsBit(n: nat, k: nat)
    ensures Bit(n, k) == 0 || Bit(n, k) == 1
  {
    if k > 0 { BitIsBit(n / 2, k - 1); }
  }

  /** Taking the low w bits halves to taking the low w - 1 bits. */
  lemma HalfMod(n: nat, p: nat)
    requires p > 0
    ensures n % (2 * p) == 2 * (n / 2 % p) + n % 2
  {
    var h := n / 2;
    DivMod(h, p);
    MulAssoc(h / p, 2, p);
    DivUnique(n, 2 * p, h / p, 2 * (h % p) + n % 2);
  }

  lemma {:induction false} ModBit(n: nat, w: nat, k: nat)
    requires k < w
    ensures Bit(n % Pow2(w), k) == Bit(n, k)
  {
    HalfMod(n, Pow2(w - 1));
    if k > 0 {
      ModBit(n / 2, w - 1, k - 1);
      assert n % Pow2(w) / 2 == n / 2 % Pow2(w - 1);
    }
  }

  lemma {:induction false} NotBit(a: nat, w: nat, k: nat)
    requires k < w && a < Pow2(w)
    ensures Bit(Pow2(w) - 1 - a, k) == 1 <==> Bit(a, k) == 0
  {
    var p, h := Pow2(w - 1), a / 2;
    assert Pow2(w) - 1 - a == 2 * (p - 1 - h) + (1 - a % 2);
    if k > 0 { NotBit(h, w - 1, k - 1); }
  }

  lemma ModNot(a: nat, p: nat)
    requires p > 0
    ensures a % p < p && (0 - a - 1) % p == p - 1 - a % p
  {
    DivMod(a, p);
    Distrib(-(a / p), -1, p);
    DivUnique(0 - a - 1, p, -(a / p) - 1, p - 1 - a % p);
  }

  /** before and after an operation in a type of w bits. */
  ghost predicate Effect(w: nat, c: Call, before: nat, after: nat)
  {
    && after < Pow2(w)
    && match c.op
       case Exchange => Congruent(after, c.value, Pow2(w))
       case Add => Congruent(after, before + c.value, Pow2(w))
       case Sub => Congruent(after, before - c.value, Pow2(w))
       case And_ => forall k: nat :: k < w ==> (Bit(after, k) == 1 <==> Bit(before, k) == 1 && Bit(c.value, k) == 1)
       case Or_ => forall k: nat :: k < w ==> (Bit(after, k) == 1 <==> Bit(before, k) == 1 || Bit(c.value, k) == 1)
       case Xor_ => forall k: nat :: k < w ==> (Bit(after, k) == 1 <==> (Bit(before, k) == 1) != (Bit(c.value, k) == 1))
       case Nand => forall k: nat :: k < w ==> (Bit(after, k) == 1 <==> !(Bit(before, k) == 1 && Bit(c.value, k) == 1))
  }

  ghost predicate Congruent(a: int, b: int, p: nat)
  {
    exists t: int :: a + Turns(t, p) == b
  }

  ghost function Turns(t: int, p: nat): int { t * p }

  lemma ApplyEffect(w: nat, c: Call, before: nat)
    ensures Effect(w, c, before, Apply(w, c, before))
  {
    var p, after := Pow2(w), Apply(w, c, before);
    match c.op
    case Exchange => ModTurns(c.value, p);
    case Add => ModTurns(before + c.value, p);
    case Sub => ModTurns(before - c.value, p);
    case And_ => BitsApply(w, c, before);
    case Or_ => BitsApply(w, c, before);
    case Xor_ => BitsApply(w, c, before);
    case Nand => NandApply(w, c, before);
  }

  lemma ModTurns(n: int, p: nat)
    requires p > 0
    ensures Congruent(n % p, n, p)
  {
    DivMod(n, p);
    assert n % p + Turns(n / p, p) == n;
  }

  lemma BitsApply(w: nat, c: Call, before: nat)
    requires c.op == And_ || c.op == Or_ || c.op == Xor_
    ensures Effect(w, c, before, Apply(w, c, before))
  {
    hide Pow2, And, Or, Xor, Bit;
    forall k: nat | k < w
      ensures Bit(Apply(w, c, before), k) == Bit(Raw(c, before), k)
      ensures Bit(And(before, c.value), k) == 1 <==> Bit(before, k) == 1 && Bit(c.value, k) == 1
      ensures Bit(Or(before, c.value), k) == 1 <==> Bit(before, k) == 1 || Bit(c.value, k) == 1
      ensures Bit(Xor(before, c.value), k) == 1 <==> (Bit(before, k) == 1) != (Bit(c.value, k) == 1)
    {
      ModBit(Raw(c, before), w, k);
      AndBit(before, c.value, k);
      OrBit(before, c.value, k);
      XorBit(before, c.value, k);
    }
  }

  lemma NandApply(w: nat, c: Call, before: nat)
    requires c.op == Nand
    ensures Effect(w, c, before, Apply(w, c, before))
  {
    hide Pow2, And, Bit;
    var a := And(before, c.value);
    ModNot(a, Pow2(w));
    forall k: nat | k < w
      ensures Bit(Apply(w, c, before), k) == 1 <==> !(Bit(before, k) == 1 && Bit(c.value, k) == 1)
    {
      AndBit(before, c.value, k);
      BitIsBit(a, k);
      ModBit(a, w, k);
      NotBit(a % Pow2(w), w, k);
    }
  }

  /** Each operation has its effect on what the one before it left, from x to the cell. */
  ghost predicate Chained(w: nat, x: nat, log: seq<Event>, cell: nat)
  {
    && (forall p :: 0 <= p < |log| ==> Effect(w, log[p].call, log[p].before, log[p].after))
    && (forall p :: 0 < p < |log| ==> log[p].before == log[p - 1].after)
    && if log == [] then cell == x else log[0].before == x && cell == log[|log| - 1].after
  }

  /** The whole history of the cell in every reachable state. */
  lemma History(w: nat, x: nat, s: State)
    requires Reached(w, x, s)
    ensures Chained(w, x, s.log, s.cell)
  {
    hide Effect, Apply, Raw, Pow2, Reached;
    ReachedInv(w, x, s);
    hide Placed, Attributed;
    var log := s.log;
    assert log[..|log|] == log && log[..0] == [];
    assert Value(w, x, []) == x;
    hide Value;
    forall p | 0 <= p < |log|
      ensures Effect(w, log[p].call, log[p].before, log[p].after)
    {
      assert log[..p + 1] == log[..p] + [log[p]];
      ValueAppend(w, x, log[..p], log[p]);
      ApplyEffect(w, log[p].call, log[p].before);
    }
  }

  ghost function Signed(c: Call): int { if c.op == Add then c.value else if c.op == Sub then 0 - c.value else 0 }

  /** What the additions and subtractions of a history come to. */
  ghost function Net(log: seq<Event>): int
  {
    if log == [] then 0
    else
      var c := log[|log| - 1].call;
      Net(log[..|log| - 1]) + Signed(c)
  }

  lemma CongruentSum(a: int, b: int, c: int, d: int, p: nat)
    requires Congruent(a, b, p) && Congruent(c, a + d, p)
    ensures Congruent(c, b + d, p)
  {
    var t: int :| a + Turns(t, p) == b;
    var u: int :| c + Turns(u, p) == a + d;
    Distrib(t, u, p);
    assert c + Turns(t + u, p) == b + d;
  }

  lemma {:induction false} NetOf(w: nat, x: nat, log: seq<Event>, cell: nat)
    requires Chained(w, x, log, cell) && OnlySums(log)
    ensures Congruent(cell, x + Net(log), Pow2(w))
  {
    hide Congruent, Pow2;
    if log == [] {
      NoTurns(x, Pow2(w));
    } else {
      var n := |log| - 1;
      var e := log[n];
      NetOf(w, x, log[..n], e.before);
      assert Effect(w, e.call, e.before, e.after);
      CongruentSum(e.before, x + Net(log[..n]), e.after, Signed(e.call), Pow2(w));
    }
  }

  lemma NoTurns(x: int, p: nat)
    ensures Congruent(x, x, p)
  {
    assert x + Turns(0, p) == x;
  }

  ghost predicate OnlySums(log: seq<Event>)
  {
    forall p :: 0 <= p < |log| ==> log[p].call.op == Add || log[p].call.op == Sub
  }

  /** Conservation: when only additions and subtractions have taken effect, the cell is the start value plus all that was
      added less all that was subtracted, modulo 2^w, however the calls were interleaved. */
  lemma Conserved(w: nat, x: nat, s: State)
    requires Reached(w, x, s) && x < Pow2(w) && OnlySums(s.log)
    ensures s.cell < Pow2(w) && Congruent(s.cell, x + Net(s.log), Pow2(w))
  {
    hide Reached, Pow2, Net, Congruent, OnlySums;
    History(w, x, s);
    NetOf(w, x, s.log, s.cell);
    var n := |s.log| - 1;
    if n >= 0 { assert Effect(w, s.log[n].call, s.log[n].before, s.log[n].after); }
  }
}
