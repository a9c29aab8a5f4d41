/** The folded tables. */
module ConeEmit {
  // The second half of the cone extractor: the output driver, the surviving gates in order, and
  // what the emitted bench computes.

  import opened ConeSlice
  import Dfs

  // ---------------------------------------------------------------- where folded arguments come from

  lemma {:induction false} KeysFrom(ns: seq<nat>, n: nat, x: nat)
    requires n <= |ns| && x in Keys(ns, n)
    ensures x in ns
    decreases n
  {
    if x in Keys(ns, n - 1) { KeysFrom(ns, n - 1, x); }
  }

  lemma {:induction false} OddKeysFrom(ks: seq<nat>, k: nat, ns: seq<nat>, x: nat)
    requires k <= |ks| && x in OddKeys(ks, k, ns)
    ensures x in ks
    decreases k
  {
    if x in OddKeys(ks, k - 1, ns) { OddKeysFrom(ks, k - 1, ns, x); }
  }

  /** A net kept by a folded gate is one of the resolved arguments; a constant survives only in an unknown gate. */
  ghost predicate FromArgs(r: seq<Res>, s: Simp) {
    match s
    case Known(_) => true
    case Same(m) => N(m) in r
    case Keep(op, args) => forall a :: a in args ==> KeptArg(r, op, a)
    case Flip(nets) => forall m :: m in nets ==> N(m) in r
  }

  predicate KeptArg(r: seq<Res>, op: Op, a: Net) {
    match a
    case Sig(m) => N(m) in r
    case Xaux(_) => false
    case _ => op.Other?
  }

  lemma NetsFrom(r: seq<Res>, m: nat)
    requires m in Nets(r, |r|)
    ensures N(m) in r
  {
    NetsIn(r, |r|, m);
    assert r[..|r|] == r;
  }

  lemma SimplifyFrom(op: Op, r: seq<Res>)
    requires |r| > 0
    ensures FromArgs(r, Simplify(op, r))
  {
    var ns := Nets(r, |r|);
    forall m | m in ns ensures N(m) in r { NetsFrom(r, m); }
    var ks := Keys(ns, |ns|);
    var os := OddKeys(ks, |ks|, ns);
    forall m | m in os ensures N(m) in r {
      OddKeysFrom(ks, |ks|, ns, m);
      KeysFrom(ns, |ns|, m);
    }
    if op.Other? {
      var s := Simplify(op, r);
      forall a | a in s.args ensures KeptArg(r, op, a) {
        var i :| 0 <= i < |s.args| && s.args[i] == a;
        assert a == ArgNet(r[i]);
      }
    }
  }

  // ---------------------------------------------------------------- the tables are tidy

  /** A net that survives: undriven, or with a gate of its own. */
  predicate Settled(support: set<nat>, st: Fold, m: nat) { m in support || Sig(m) in st.newg }

  ghost predicate Lower(support: set<nat>, rank: nat -> nat, m: nat, x: nat) { m in support || rank(m) < rank(x) }

  /** An argument of the gate kept for `x`. */
  ghost predicate ArgTidy(support: set<nat>, rank: nat -> nat, st: Fold, x: nat, op: Op, a: Net) {
    match a
    case Sig(m) => Settled(support, st, m) && Lower(support, rank, m, x)
    case Xaux(y) => y == x && a in st.newg
    case _ => op.Other?
  }

  ghost predicate GateTidy(support: set<nat>, rank: nat -> nat, st: Fold, k: Net, g: NGate) {
    match k
    case Sig(x) => forall a :: a in g.args ==> ArgTidy(support, rank, st, x, g.op, a)
    case Xaux(x) => !g.op.Other? && forall a :: a in g.args ==> a.Sig? && ArgTidy(support, rank, st, x, g.op, a)
    case _ => false
  }

  /** Each folded gate is in exactly one table. */
  ghost predicate Parts(st: Fold, done: set<nat>) {
    && (forall x :: x in done ==> x in st.val || x in st.alias || Sig(x) in st.newg)
    && (forall x :: x in st.val ==> x in done && x !in st.alias && Sig(x) !in st.newg)
    && (forall x :: x in st.alias ==> x in done && Sig(x) !in st.newg)
    && (forall x :: Sig(x) in st.newg ==> x in done)
    && (forall x :: Xaux(x) in st.newg ==> x in done)
  }

  ghost predicate Tidy(support: set<nat>, rank: nat -> nat, st: Fold, done: set<nat>) {
    && Parts(st, done)
    && (forall x :: x in st.alias ==> Settled(support, st, st.alias[x]) && Lower(support, rank, st.alias[x], x))
    && forall k :: k in st.newg ==> GateTidy(support, rank, st, k, st.newg[k])
  }

  /** Resolving an argument of `x` lands on a surviving net below it. */
  lemma ResolveTidy(support: set<nat>, rank: nat -> nat, st: Fold, done: set<nat>, x: nat, a: nat)
    requires Tidy(support, rank, st, done) && done !! support && (a in support || (a in done && rank(a) < rank(x)))
    ensures var r := Resolve(st, a, {}); r.N? ==> Settled(support, st, r.net) && Lower(support, rank, r.net, x)
  {
    if a in st.alias {
      var m := st.alias[a];
      assert m !in st.alias && m !in st.val;
      assert Resolve(st, a, {}) == Resolve(st, m, {} + {a}) == N(m);
    }
  }

  /** The new entry's arguments are tidy. */
  ghost predicate NewTidy(support: set<nat>, rank: nat -> nat, st: Fold, x: nat, s: Simp) {
    match s
    case Known(_) => true
    case Same(m) => Settled(support, st, m) && Lower(support, rank, m, x)
    case Keep(op, args) => forall a :: a in args ==> a.Xaux? == false && ArgTidy(support, rank, st, x, op, a)
    case Flip(nets) => forall m :: m in nets ==> Settled(support, st, m) && Lower(support, rank, m, x)
  }

  lemma GrowTidy(support: set<nat>, rank: nat -> nat, st: Fold, st': Fold, k: Net, g: NGate)
    requires GateTidy(support, rank, st, k, g) && st.newg.Keys <= st'.newg.Keys
    ensures GateTidy(support, rank, st', k, g)
  {
    match k {
      case Sig(x) =>
        forall a | a in g.args ensures ArgTidy(support, rank, st', x, g.op, a) {
          assert ArgTidy(support, rank, st, x, g.op, a);
        }
      case Xaux(x) =>
        forall a | a in g.args ensures ArgTidy(support, rank, st', x, g.op, a) {
          assert ArgTidy(support, rank, st, x, g.op, a);
        }
      case _ =>
    }
  }

  lemma RecordTidy(support: set<nat>, rank: nat -> nat, st: Fold, done: set<nat>, x: nat, s: Simp)
    requires Tidy(support, rank, st, done) && x !in done && x !in support && NewTidy(support, rank, st, x, s)
    ensures Tidy(support, rank, Record(st, x, s), done + {x})
  {
    var st' := Record(st, x, s);
    assert st.newg.Keys <= st'.newg.Keys;
    forall k | k in st'.newg ensures GateTidy(support, rank, st', k, st'.newg[k]) {
      if k in st.newg { GrowTidy(support, rank, st, st', k, st.newg[k]); }
      if s.Keep? && k == Sig(x) {
        assert GateTidy(support, rank, st, k, NGate(s.op, s.args));
        GrowTidy(support, rank, st, st', k, st'.newg[k]);
      }
      if s.Flip? && k == Xaux(x) { FlipTidy(support, rank, st, st', x, s.nets); }
    }
    assert forall y :: y in st.alias ==> Settled(support, st', st.alias[y]);
  }

  lemma FlipTidy(support: set<nat>, rank: nat -> nat, st: Fold, st': Fold, x: nat, nets: seq<nat>)
    requires forall m :: m in nets ==> Settled(support, st, m) && Lower(support, rank, m, x)
    requires st.newg.Keys <= st'.newg.Keys
    ensures GateTidy(support, rank, st', Xaux(x), NGate(Xor, Sigs(nets)))
  {
    forall a | a in Sigs(nets) ensures a.Sig? && ArgTidy(support, rank, st', x, Xor, a) {
      var i :| 0 <= i < |nets| && Sigs(nets)[i] == a;
      assert nets[i] in nets;
    }
  }

  lemma FoldNewTidy(support: set<nat>, rank: nat -> nat, st: Fold, x: nat, r: seq<Res>, s: Simp)
    requires FromArgs(r, s)
    requires forall m :: N(m) in r ==> Settled(support, st, m) && Lower(support, rank, m, x)
    ensures NewTidy(support, rank, st, x, s)
  {
    if s.Keep? {
      forall a | a in s.args ensures !a.Xaux? && ArgTidy(support, rank, st, x, s.op, a) {
        assert KeptArg(r, s.op, a);
      }
    }
  }

  /** The order lists gates of the cone, each after its gate arguments. */
  ghost predicate TopoOk(b: Bench, rank: nat -> nat, cone: set<nat>, support: set<nat>, topo: seq<nat>) {
    && BenchOk(b) && Acyclic(b, rank) && cone !! support && (forall x :: x in cone ==> IsGate(b, x))
    && (forall x, i :: x in cone && 0 <= i < |b.gates[x].args| ==> b.gates[x].args[i] in cone + support)
    && Dfs.Ordered(Args(b, cone), cone, topo)
  }

  function Args(b: Bench, cone: set<nat>): (g: map<nat, seq<nat>>) {
    map x | x in cone && x in b.gates :: b.gates[x].args
  }

  ghost function Done(topo: seq<nat>, n: nat): set<nat>
    requires n <= |topo|
  {
    set x | x in topo[..n]
  }

  lemma TopoGates(b: Bench, rank: nat -> nat, cone: set<nat>, support: set<nat>, topo: seq<nat>)
    requires TopoOk(b, rank, cone, support, topo)
    ensures forall x :: x in topo ==> x in cone && x in b.gates
  {
  }

  /** The arguments of gate `n` of the order are undriven or already folded, and below it. */
  lemma TopoArgs(b: Bench, rank: nat -> nat, cone: set<nat>, support: set<nat>, topo: seq<nat>, n: nat, i: nat)
    requires TopoOk(b, rank, cone, support, topo) && n < |topo|
    requires topo[n] in b.gates && i < |b.gates[topo[n]].args|
    ensures var a := b.gates[topo[n]].args[i];
      a in support || (a in Done(topo, n) && rank(a) < rank(topo[n]))
  {
    var x, g := topo[n], Args(b, cone);
    assert x in cone && g[x] == b.gates[x].args;
    var a := b.gates[x].args[i];
    assert a in cone + support;
    if a in cone { assert g[topo[n]][i] in topo[..n]; }
  }

  lemma DoneMore(b: Bench, rank: nat -> nat, cone: set<nat>, support: set<nat>, topo: seq<nat>, n: nat)
    requires TopoOk(b, rank, cone, support, topo) && n < |topo|
    ensures Done(topo, n) !! support && topo[n] !in Done(topo, n) && topo[n] !in support
    ensures Done(topo, n + 1) == Done(topo, n) + {topo[n]}
  {
    TopoGates(b, rank, cone, support, topo);
    assert topo[..n + 1] == topo[..n] + [topo[n]];
    forall y | y in Done(topo, n) ensures y in topo && y != topo[n] {
      var j :| 0 <= j < n && topo[..n][j] == y;
      assert topo[j] == y;
    }
  }

  /** One turn of the fold pass keeps the tables tidy. */
  lemma FoldTurn(b: Bench, rank: nat -> nat, cone: set<nat>, support: set<nat>, topo: seq<nat>, n: nat, st: Fold)
    requires TopoOk(b, rank, cone, support, topo) && n < |topo| && topo[n] in b.gates
    requires Tidy(support, rank, st, Done(topo, n))
    ensures var g := b.gates[topo[n]];
      |g.args| > 0 && Tidy(support, rank, Record(st, topo[n], Simplify(g.op, Resolved(st, g.args))), Done(topo, n + 1))
  {
    var x, done, g := topo[n], Done(topo, n), b.gates[topo[n]];
    var r := Resolved(st, g.args);
    DoneMore(b, rank, cone, support, topo, n);
    forall m | N(m) in r ensures Settled(support, st, m) && Lower(support, rank, m, x) {
      var i :| 0 <= i < |r| && r[i] == N(m);
      TopoArgs(b, rank, cone, support, topo, n, i);
      ResolveTidy(support, rank, st, done, x, g.args[i]);
    }
    SimplifyFrom(g.op, r);
    FoldNewTidy(support, rank, st, x, r, Simplify(g.op, r));
    RecordTidy(support, rank, st, done, x, Simplify(g.op, r));
  }

  ghost predicate TidyAt(b: Bench, rank: nat -> nat, support: set<nat>, topo: seq<nat>, n: nat)
    requires BenchOk(b) && n <= |topo| && forall x :: x in topo ==> x in b.gates
  {
    Tidy(support, rank, FoldTo(b, topo, n), Done(topo, n))
  }

  lemma FoldTidy(b: Bench, rank: nat -> nat, cone: set<nat>, support: set<nat>, topo: seq<nat>, n: nat)
    requires TopoOk(b, rank, cone, support, topo) && n <= |topo|
    ensures (forall x :: x in topo ==> x in b.gates)
    ensures Tidy(support, rank, FoldTo(b, topo, n), Done(topo, n))
  {
    TopoGates(b, rank, cone, support, topo);
    TidyNone(b, rank, support, topo, 0);
    for k := 0 to n
      invariant TidyAt(b, rank, support, topo, k)
    {
      FoldNext(b, rank, cone, support, topo, k);
    }
  }

  lemma TidyNone(b: Bench, rank: nat -> nat, support: set<nat>, topo: seq<nat>, n: nat)
    requires BenchOk(b) && n == 0 && forall x :: x in topo ==> x in b.gates
    ensures TidyAt(b, rank, support, topo, n)
  {
    TidyStart(support, rank);
    assert Done(topo, n) == {};
  }

  lemma TidyStart(support: set<nat>, rank: nat -> nat)
    ensures Tidy(support, rank, Fold(map[], map[], map[]), {})
  {
  }

  lemma FoldNext(b: Bench, rank: nat -> nat, cone: set<nat>, support: set<nat>, topo: seq<nat>, n: nat)
    requires TopoOk(b, rank, cone, support, topo) && n < |topo| && forall x :: x in topo ==> x in b.gates
    requires TidyAt(b, rank, support, topo, n)
    ensures TidyAt(b, rank, support, topo, n + 1)
  {
    var st, g := FoldTo(b, topo, n), b.gates[topo[n]];
    FoldTurn(b, rank, cone, support, topo, n, st);
    assert FoldTo(b, topo, n + 1) == Record(st, topo[n], Simplify(g.op, Resolved(st, g.args)));
  }

  // ---------------------------------------------------------------- the output driver

  /** The surviving gates with the output's driver and, if it is constant, the constant sources. */
  function Drivers(st: Fold, target: nat, pi0: nat): (newg: map<Net, NGate>) {
    match Resolve(st, target, {})
    case C(bit) =>
      var m := st.newg[Sig(target) := NGate(Buf, [ConstNet(bit)])][K0 := NGate(Xor, [Sig(pi0), Sig(pi0)])];
      if bit then m[K1 := NGate(Not, [K0])] else m
    case N(m) =>
      if m != target then st.newg[Sig(target) := NGate(Buf, [Sig(m)])] else st.newg
  }

  lemma DriversSound(other: Meaning, w: Net -> bool, st: Fold, target: nat, pi0: nat)
    requires Sound(other, w, st) && !w(K0) && w(K1)
    ensures forall k :: k in Drivers(st, target, pi0) ==> GateHolds(other, w, k, Drivers(st, target, pi0)[k])
  {
    var newg := Drivers(st, target, pi0);
    ResolveRight(other, w, st, target, {});
    forall k | k in newg ensures GateHolds(other, w, k, newg[k]) {
      if k == K0 && newg[k] == NGate(Xor, [Sig(pi0), Sig(pi0)]) {
        var v := w(Sig(pi0));
        assert NetVals(w, [Sig(pi0), Sig(pi0)]) == [v, v];
        assert Parity([v, v], 2) == (Parity([v, v], 1) != v) && Parity([v, v], 1) == (Parity([v, v], 0) != v);
      } else if k == K1 && newg[k] == NGate(Not, [K0]) {
        assert NetVals(w, [K0]) == [w(K0)];
      } else if newg[k].op.Buf? && |newg[k].args| == 1 && k == Sig(target) {
        assert NetVals(w, newg[k].args) == [w(newg[k].args[0])];
      }
    }
  }

  /** A rank for the surviving gates. */
  ghost function NetRank(rank: nat -> nat): (r: Net -> nat) {
    (k: Net) => match k
                case Sig(x) => 2 * rank(x) + 3
                case Xaux(x) => 2 * rank(x) + 2
                case K1 => 1
                case K0 => 0
  }

  /** Every argument is undriven, a surviving gate of smaller rank, or a constant read by an unknown gate. */
  ghost predicate ArgPlaced(support: set<nat>, rank: nat -> nat, newg: map<Net, NGate>, k: Net, a: Net)
    requires k in newg
  {
    && (a in newg ==> NetRank(rank)(a) < NetRank(rank)(k))
    && (a in newg || (a.Sig? && a.id in support) || ((a == K0 || a == K1) && newg[k].op.Other?))
  }

  ghost predicate Placed(support: set<nat>, rank: nat -> nat, newg: map<Net, NGate>) {
    && (forall x :: Sig(x) in newg ==> x !in support)
    && forall k, a :: k in newg && a in newg[k].args ==> ArgPlaced(support, rank, newg, k, a)
  }

  lemma DriversPlaced(support: set<nat>, rank: nat -> nat, st: Fold, done: set<nat>, target: nat, pi0: nat)
    requires Tidy(support, rank, st, done) && done !! support && (target in done || target in support)
    requires support != {} ==> pi0 in support
    requires target in done ==> support != {}
    ensures Placed(support, rank, Drivers(st, target, pi0))
  {
    var newg := Drivers(st, target, pi0);
    TargetTidy(support, rank, st, done, target);
    forall k, a | k in newg && a in newg[k].args ensures ArgPlaced(support, rank, newg, k, a) {
      if k in st.newg && newg[k] == st.newg[k] {
        assert GateTidy(support, rank, st, k, st.newg[k]);
        assert k.Sig? || k.Xaux?;
        assert ArgTidy(support, rank, st, k.id, newg[k].op, a);
      }
    }
  }

  /** What the target resolves to. */
  lemma TargetTidy(support: set<nat>, rank: nat -> nat, st: Fold, done: set<nat>, target: nat)
    requires Tidy(support, rank, st, done) && done !! support && (target in done || target in support)
    ensures var r := Resolve(st, target, {});
      && (r.C? ==> target in done && Sig(target) !in st.newg)
      && (r.N? && r.net != target ==>
        target in done && Sig(target) !in st.newg && Settled(support, st, r.net) && Lower(support, rank, r.net, target))
      && (r.N? && r.net == target ==> target in support || Sig(target) in st.newg)
  {
    if target in st.alias {
      var m := st.alias[target];
      assert m !in st.alias && m !in st.val;
      assert Resolve(st, target, {}) == Resolve(st, m, {} + {target}) == N(m);
    }
  }
}
