/** The written slice. */
module ConeOutput {
  // Marking, ordering and writing the surviving gates, and the whole extractor's theorem.

  import opened ConeSlice
  import opened ConeEmit
  import Dfs

  // ---------------------------------------------------------------- marking

  type Drivers = map<Net, NGate>

  /** A set of gates closed under the arguments that are gates. */
  ghost predicate GateClosed(newg: Drivers, s: set<Net>) {
    forall k, a :: k in s && k in newg && a in newg[k].args && a in newg ==> a in s
  }

  /** A marked gate's argument is marked, declared, or nothing anyone defines. */
  predicate ArgMarked(newg: Drivers, pis: set<nat>, usedg: set<Net>, usedpi: set<nat>, a: Net) {
    if a in newg then a in usedg else a.Sig? && a.id in pis ==> a.id in usedpi
  }

  ghost predicate MarkedFrom(newg: Drivers, pis: set<nat>, g0: set<Net>, usedg: set<Net>, usedpi: set<nat>) {
    forall k, a :: k in usedg && k !in g0 && k in newg && a in newg[k].args ==> ArgMarked(newg, pis, usedg, usedpi, a)
  }

  /** Only what a gate in `roots` needs was marked. */
  ghost predicate MarkedOnly(newg: Drivers, g0: set<Net>, usedg: set<Net>, root: Net) {
    forall s :: GateClosed(newg, s) && (root in newg ==> root in s) ==> usedg <= g0 + s
  }

  ghost predicate Grew(newg: Drivers, pis: set<nat>, g0: set<Net>, p0: set<nat>, g1: set<Net>, p1: set<nat>) {
    g0 <= g1 <= newg.Keys && p0 <= p1 <= pis
  }

  method Mark(newg: Drivers, pis: set<nat>, k: Net, g0: set<Net>, p0: set<nat>)
    returns (usedg: set<Net>, usedpi: set<nat>)
    requires g0 <= newg.Keys && p0 <= pis
    ensures Grew(newg, pis, g0, p0, usedg, usedpi) && ArgMarked(newg, pis, usedg, usedpi, k)
    ensures MarkedFrom(newg, pis, g0, usedg, usedpi) && MarkedOnly(newg, g0, usedg, k)
    decreases |newg.Keys - g0|, 1
  {
    usedg, usedpi := g0, p0;
    if k in usedg { return; }
    if k !in newg {
      if k.Sig? && k.id in pis { usedpi := usedpi + {k.id}; }
      return;
    }
    Dfs.SmallerSet(newg.Keys - (g0 + {k}), newg.Keys - g0);
    usedg, usedpi := MarkArgs(newg, pis, k, g0, p0);
  }

  ghost predicate ArgsMarked(newg: Drivers, pis: set<nat>, usedg: set<Net>, usedpi: set<nat>, args: seq<Net>, n: nat) {
    n <= |args| && forall j :: 0 <= j < n ==> ArgMarked(newg, pis, usedg, usedpi, args[j])
  }

  lemma ArgsMarkedMore(newg: Drivers, pis: set<nat>, g: set<Net>, p: set<nat>, usedg: set<Net>, usedpi: set<nat>,
                       args: seq<Net>, n: nat)
    requires ArgsMarked(newg, pis, g, p, args, n) && Grew(newg, pis, g, p, usedg, usedpi) && n < |args|
    requires ArgMarked(newg, pis, usedg, usedpi, args[n])
    ensures ArgsMarked(newg, pis, usedg, usedpi, args, n + 1)
  {
    forall j | 0 <= j < n + 1 ensures ArgMarked(newg, pis, usedg, usedpi, args[j]) {
      if j < n { assert ArgMarked(newg, pis, g, p, args[j]); }
    }
  }

  lemma MarkDone(newg: Drivers, pis: set<nat>, k: Net, g0: set<Net>, usedg: set<Net>, usedpi: set<nat>)
    requires k in newg && MarkedFrom(newg, pis, g0 + {k}, usedg, usedpi)
    requires ArgsMarked(newg, pis, usedg, usedpi, newg[k].args, |newg[k].args|)
    ensures MarkedFrom(newg, pis, g0, usedg, usedpi)
  {
  }

  /** The loop over the arguments of `k`, newly marked. */
  method MarkArgs(newg: Drivers, pis: set<nat>, k: Net, g0: set<Net>, p0: set<nat>)
    returns (usedg: set<Net>, usedpi: set<nat>)
    requires g0 <= newg.Keys && p0 <= pis && k in newg && k !in g0
    ensures Grew(newg, pis, g0 + {k}, p0, usedg, usedpi)
    ensures MarkedFrom(newg, pis, g0, usedg, usedpi) && MarkedOnly(newg, g0, usedg, k)
    decreases |newg.Keys - (g0 + {k})|, 2
  {
    usedg, usedpi := g0 + {k}, p0;
    var args := newg[k].args;
    var i := 0;
    while i < |args|
      invariant 0 <= i <= |args| && Grew(newg, pis, g0 + {k}, p0, usedg, usedpi)
      invariant MarkedFrom(newg, pis, g0 + {k}, usedg, usedpi) && MarkedOnly(newg, g0, usedg, k)
      invariant ArgsMarked(newg, pis, usedg, usedpi, args, i)
    {
      ghost var g, p := usedg, usedpi;
      Dfs.SubsetSize(newg.Keys - g, newg.Keys - (g0 + {k}));
      usedg, usedpi := Mark(newg, pis, args[i], usedg, usedpi);
      MarkMore(newg, pis, k, i, g0, g, p, usedg, usedpi);
      ArgsMarkedMore(newg, pis, g, p, usedg, usedpi, args, i);
      i := i + 1;
    }
    MarkDone(newg, pis, k, g0, usedg, usedpi);
  }

  lemma MarkMore(newg: Drivers, pis: set<nat>, k: Net, i: nat, g0: set<Net>,
                 g: set<Net>, p: set<nat>, usedg: set<Net>, usedpi: set<nat>)
    requires k in newg && i < |newg[k].args| && Grew(newg, pis, g, p, usedg, usedpi)
    requires MarkedFrom(newg, pis, g0 + {k}, g, p) && MarkedFrom(newg, pis, g, usedg, usedpi)
    requires MarkedOnly(newg, g0, g, k) && MarkedOnly(newg, g, usedg, newg[k].args[i])
    ensures MarkedFrom(newg, pis, g0 + {k}, usedg, usedpi) && MarkedOnly(newg, g0, usedg, k)
  {
    forall x, a | x in usedg && x !in g0 + {k} && x in newg && a in newg[x].args
      ensures ArgMarked(newg, pis, usedg, usedpi, a)
    {
      if x in g { assert ArgMarked(newg, pis, g, p, a); }
    }
    forall s | GateClosed(newg, s) && k in s ensures usedg <= g0 + s {
      assert newg[k].args[i] in newg ==> newg[k].args[i] in s;
      assert g <= g0 + s;
    }
  }

  // ---------------------------------------------------------------- the written bench

  datatype Line = Line(net: Net, gate: NGate)

  datatype Slice = Slice(pis: set<nat>, lines: seq<Line>)

  datatype Option<T> = None | Some(value: T)

  predicate Look(env: map<Net, bool>, k: Net) { k in env && env[k] }

  /** Reading the written bench: inputs first, then the gates in the order written. */
  ghost function Run(sl: Slice, other: Meaning, asg: nat -> bool, n: nat): (env: map<Net, bool>)
    requires n <= |sl.lines|
    decreases n
  {
    if n == 0 then map k: Net | k.Sig? && k.id in sl.pis && k in Sources(sl.pis) :: asg(k.id)
    else
      var env := Run(sl, other, asg, n - 1);
      var g := sl.lines[n - 1].gate;
      env[sl.lines[n - 1].net :=
        GateFn(other, g.op, seq(|g.args|, i requires 0 <= i < |g.args| => Look(env, g.args[i])))]
  }

  ghost function Sources(pis: set<nat>): (s: set<Net>) { set p | p in pis :: Sig(p) }

  /** The target's bit in the written bench. */
  ghost predicate SliceBit(sl: Slice, other: Meaning, asg: nat -> bool, target: nat) {
    Look(Run(sl, other, asg, |sl.lines|), Sig(target))
  }

  /** The nets line `n` may read: declared inputs and earlier lines. */
  ghost predicate Defined(sl: Slice, n: nat, a: Net)
    requires n <= |sl.lines|
  {
    (a.Sig? && a.id in sl.pis) || exists j :: 0 <= j < n && sl.lines[j].net == a
  }

  /** Every gate reads only declared inputs or earlier gates. */
  ghost predicate SelfContained(sl: Slice) {
    forall i: nat, a :: i < |sl.lines| && a in sl.lines[i].gate.args ==> Defined(sl, i, a)
  }

  /** No unknown gate was left reading a folded constant. */
  ghost predicate NoUnknownConst(sl: Slice) {
    forall i: nat, a :: i < |sl.lines| && sl.lines[i].gate.op.Other? && a in sl.lines[i].gate.args ==> a != K0 && a != K1
  }

  /** The lines are the needed part of a driver table, in dependency order. */
  ghost predicate Written(newg: Drivers, support: set<nat>, rank: nat -> nat, target: nat, sl: Slice) {
    && Placed(support, rank, newg)
    && Dfs.Distinct(LineNets(sl)) && sl.pis !! NetIds(newg)
    && (forall i :: 0 <= i < |sl.lines| ==> sl.lines[i].net in newg && sl.lines[i].gate == newg[sl.lines[i].net])
    && (forall i: nat, a :: i < |sl.lines| && a in sl.lines[i].gate.args ==>
      Defined(sl, i, a) || (a !in newg && (a == K0 || a == K1) && sl.lines[i].gate.op.Other?))
    && Defined(sl, |sl.lines|, Sig(target))
  }

  ghost function NetIds(newg: Drivers): set<nat> { set k | k in newg && k.Sig? :: k.id }

  function LineNets(sl: Slice): (ns: seq<Net>)
    ensures |ns| == |sl.lines| && forall i :: 0 <= i < |ns| ==> ns[i] == sl.lines[i].net
  {
    seq(|sl.lines|, i requires 0 <= i < |sl.lines| => sl.lines[i].net)
  }

  // ---------------------------------------------------------------- what it computes

  /** The environment agrees with the tables' values on every net defined so far. */
  ghost predicate Agrees(sl: Slice, w: Net -> bool, env: map<Net, bool>, n: nat)
    requires n <= |sl.lines|
  {
    forall a :: Defined(sl, n, a) ==> Look(env, a) == w(a)
  }

  /** A line whose arguments are all defined computes its net's value. */
  lemma LineRight(sl: Slice, other: Meaning, w: Net -> bool, env: map<Net, bool>, n: nat)
    requires n < |sl.lines| && SelfContained(sl) && Agrees(sl, w, env, n)
    requires GateHolds(other, w, sl.lines[n].net, sl.lines[n].gate)
    ensures var g := sl.lines[n].gate;
      GateFn(other, g.op, seq(|g.args|, i requires 0 <= i < |g.args| => Look(env, g.args[i]))) == w(sl.lines[n].net)
  {
    var g := sl.lines[n].gate;
    var x := seq(|g.args|, i requires 0 <= i < |g.args| => Look(env, g.args[i]));
    forall i | 0 <= i < |x| ensures x[i] == w(g.args[i]) {
      assert g.args[i] in g.args;
      assert Defined(sl, n, g.args[i]);
    }
    assert x == NetVals(w, g.args);
  }

  lemma AgreesMore(sl: Slice, w: Net -> bool, env: map<Net, bool>, n: nat)
    requires n < |sl.lines| && Agrees(sl, w, env, n)
    ensures var k := sl.lines[n].net; Agrees(sl, w, env[k := w(k)], n + 1)
  {
    var k := sl.lines[n].net;
    forall a | Defined(sl, n + 1, a) ensures Look(env[k := w(k)], a) == w(a) {
      if a != k { assert Defined(sl, n, a); }
    }
  }

  ghost predicate LinesHold(sl: Slice, other: Meaning, w: Net -> bool) {
    forall i :: 0 <= i < |sl.lines| ==> GateHolds(other, w, sl.lines[i].net, sl.lines[i].gate)
  }

  lemma RunNext(sl: Slice, other: Meaning, asg: nat -> bool, w: Net -> bool, n: nat)
    requires SelfContained(sl) && n < |sl.lines| && LinesHold(sl, other, w) && Agrees(sl, w, Run(sl, other, asg, n), n)
    ensures Agrees(sl, w, Run(sl, other, asg, n + 1), n + 1)
  {
    var env := Run(sl, other, asg, n);
    LineRight(sl, other, w, env, n);
    AgreesMore(sl, w, env, n);
  }

  lemma RunStart(sl: Slice, other: Meaning, asg: nat -> bool, w: Net -> bool)
    requires forall p :: p in sl.pis ==> w(Sig(p)) == asg(p)
    ensures Agrees(sl, w, Run(sl, other, asg, 0), 0)
  {
    var env := Run(sl, other, asg, 0);
    forall a | Defined(sl, 0, a) ensures Look(env, a) == w(a) {
      assert a in Sources(sl.pis) && a in env;
    }
  }

  lemma {:induction false} RunFrom(sl: Slice, other: Meaning, asg: nat -> bool, w: Net -> bool, n: nat)
    requires SelfContained(sl) && n <= |sl.lines| && LinesHold(sl, other, w)
    requires Agrees(sl, w, Run(sl, other, asg, 0), 0)
    ensures Agrees(sl, w, Run(sl, other, asg, n), n)
    decreases n
  {
    if n == 0 {
    } else {
      RunFrom(sl, other, asg, w, n - 1);
      RunNext(sl, other, asg, w, n - 1);
    }
  }

  lemma RunAgrees(sl: Slice, other: Meaning, asg: nat -> bool, w: Net -> bool, n: nat)
    requires SelfContained(sl) && n <= |sl.lines| && LinesHold(sl, other, w)
    requires forall p :: p in sl.pis ==> w(Sig(p)) == asg(p)
    ensures Agrees(sl, w, Run(sl, other, asg, n), n)
  {
    RunStart(sl, other, asg, w);
    RunFrom(sl, other, asg, w, n);
  }

  /** The added nets' meaning on top of the bench's. */
  ghost function NetMeaning(b: Bench, rank: nat -> nat, other: Meaning, asg: nat -> bool): (w: Net -> bool)
    requires Acyclic(b, rank)
  {
    (k: Net) => match k
                case Sig(n) => Full(b, rank, other, asg, n)
                case Xaux(n) => !Full(b, rank, other, asg, n)
                case K0 => false
                case K1 => true
  }

  lemma MeaningSolves(b: Bench, rank: nat -> nat, other: Meaning, asg: nat -> bool, s: set<nat>)
    requires Acyclic(b, rank) && forall n :: n in s ==> IsGate(b, n)
    ensures Solves(b, other, NetMeaning(b, rank, other, asg), s)
  {
    var w := NetMeaning(b, rank, other, asg);
    forall n | n in s ensures n in b.gates && SolvesAt(b, other, w, n) {
      var g := b.gates[n];
      assert NetVals(w, Sigs(g.args)) ==
        seq(|g.args|, i requires 0 <= i < |g.args| => Full(b, rank, other, asg, g.args[i]));
    }
  }

  lemma TablesRight(b: Bench, rank: nat -> nat, topo: seq<nat>, target: nat, pi0: nat, other: Meaning, asg: nat -> bool)
    requires BenchOk(b) && Acyclic(b, rank) && forall x :: x in topo ==> x in b.gates && IsGate(b, x)
    ensures var newg := ConeEmit.Drivers(FoldTo(b, topo, |topo|), target, pi0);
      forall k :: k in newg ==> GateHolds(other, NetMeaning(b, rank, other, asg), k, newg[k])
  {
    var w := NetMeaning(b, rank, other, asg);
    MeaningSolves(b, rank, other, asg, set x | x in topo);
    FoldSound(b, other, w, topo, |topo|);
    DriversSound(other, w, FoldTo(b, topo, |topo|), target, pi0);
  }

  /** The folded, alias-free slice computes the target's bit of the full bench. */
  lemma SliceRight(b: Bench, rank: nat -> nat, topo: seq<nat>, newg: Drivers, support: set<nat>, target: nat, pi0: nat,
                   sl: Slice, other: Meaning, asg: nat -> bool)
    requires BenchOk(b) && Acyclic(b, rank) && forall x :: x in topo ==> x in b.gates && IsGate(b, x)
    requires forall p :: p in sl.pis ==> !IsGate(b, p)
    requires newg == ConeEmit.Drivers(FoldTo(b, topo, |topo|), target, pi0)
    requires Written(newg, support, rank, target, sl) && SelfContained(sl)
    ensures SliceBit(sl, other, asg, target) == Full(b, rank, other, asg, target)
  {
    var w := NetMeaning(b, rank, other, asg);
    TablesRight(b, rank, topo, target, pi0, other, asg);
    assert LinesHold(sl, other, w);
    RunAgrees(sl, other, asg, w, |sl.lines|);
    assert w(Sig(target)) == Full(b, rank, other, asg, target);
  }
}
