/** The extractor from end to end. */
module ConeExtract {
  import opened ConeSlice
  import opened ConeEmit
  import opened ConeOutput
  import Dfs

  // ---------------------------------------------------------------- the order of the cone

  /** The cone in dependency order, reaching the target. */
  ghost predicate Prepared(b: Bench, rank: nat -> nat, cone: set<nat>, support: set<nat>, topo: seq<nat>, target: nat) {
    && IsCone(b, target, cone, support) && TopoOk(b, rank, cone, support, topo)
    && (target in cone ==> target in topo)
  }

  lemma ConeRanked(b: Bench, rank: nat -> nat, target: nat, cone: set<nat>, support: set<nat>)
    requires BenchOk(b) && Acyclic(b, rank) && IsCone(b, target, cone, support)
    ensures Dfs.Ranked(Args(b, cone), cone, rank)
    ensures cone !! support
    ensures forall x, i :: x in cone && 0 <= i < |b.gates[x].args| ==> b.gates[x].args[i] in cone + support
  {
    var g := Args(b, cone);
    forall n, i | n in cone && 0 <= i < |g[n]| && g[n][i] in cone ensures rank(g[n][i]) < rank(n) {
      assert IsGate(b, n) && IsGate(b, b.gates[n].args[i]);
    }
    forall x, i | x in cone && 0 <= i < |b.gates[x].args| ensures b.gates[x].args[i] in cone + support {
      assert x in cone + support && IsGate(b, x);
    }
  }

  /** The first gate of the order reads only undriven nets, so there is one. */
  lemma SupportExists(b: Bench, rank: nat -> nat, cone: set<nat>, support: set<nat>, topo: seq<nat>)
    requires TopoOk(b, rank, cone, support, topo) && topo != []
    ensures support != {}
  {
    var x := topo[0];
    assert x in topo && x in cone && |b.gates[x].args| > 0;
    TopoArgs(b, rank, cone, support, topo, 0, 0);
    assert Done(topo, 0) == {};
  }

  // ---------------------------------------------------------------- the surviving gates

  function ArgMap(newg: ConeOutput.Drivers): (g: map<Net, seq<Net>>) { map k | k in newg :: newg[k].args }

  lemma SurvivorsRanked(newg: ConeOutput.Drivers, support: set<nat>, rank: nat -> nat, usedg: set<Net>)
    requires Placed(support, rank, newg) && usedg <= newg.Keys
    ensures Dfs.Ranked(ArgMap(newg), usedg, NetRank(rank))
  {
    var g := ArgMap(newg);
    forall n, i | n in usedg && 0 <= i < |g[n]| && g[n][i] in usedg ensures NetRank(rank)(g[n][i]) < NetRank(rank)(n) {
      assert g[n][i] in newg[n].args;
      assert ArgPlaced(support, rank, newg, n, g[n][i]);
    }
  }

  function Lines(newg: ConeOutput.Drivers, order: seq<Net>): (ls: seq<Line>)
    requires forall k :: k in order ==> k in newg
    ensures |ls| == |order|
    ensures forall i :: 0 <= i < |order| ==> order[i] in newg && ls[i] == Line(order[i], newg[order[i]])
  {
    seq(|order|, i requires 0 <= i < |order| => (assert order[i] in order; Line(order[i], newg[order[i]])))
  }

  /** A marked gate earlier in the order is an earlier line. */
  lemma EarlierLine(newg: ConeOutput.Drivers, order: seq<Net>, pis: set<nat>, i: nat, a: Net)
    requires (forall k :: k in order ==> k in newg) && i <= |order| && a in order[..i]
    ensures Defined(Slice(pis, Lines(newg, order)), i, a)
  {
    var j :| 0 <= j < i && order[..i][j] == a;
    assert Slice(pis, Lines(newg, order)).lines[j].net == a;
  }

  /** What line `i` reads. */
  lemma LineReads(newg: ConeOutput.Drivers, support: set<nat>, rank: nat -> nat, all: set<nat>, usedg: set<Net>,
                  usedpi: set<nat>, order: seq<Net>, i: nat, a: Net)
    requires Placed(support, rank, newg) && support <= all && usedg <= newg.Keys
    requires MarkedFrom(newg, all, {}, usedg, usedpi) && Dfs.Ordered(ArgMap(newg), usedg, order)
    requires (forall k :: k in order ==> k in newg) && i < |order| && a in newg[order[i]].args
    ensures var sl := Slice(usedpi, Lines(newg, order));
      Defined(sl, i, a) || (a !in newg && (a == K0 || a == K1) && sl.lines[i].gate.op.Other?)
  {
    var k, g := order[i], ArgMap(newg);
    assert k in usedg;
    assert ArgPlaced(support, rank, newg, k, a);
    assert ArgMarked(newg, all, usedg, usedpi, a);
    if a in newg {
      var j :| 0 <= j < |g[k]| && g[k][j] == a;
      assert g[order[i]][j] in order[..i];
      EarlierLine(newg, order, usedpi, i, a);
    }
  }

  lemma WrittenOk(newg: ConeOutput.Drivers, support: set<nat>, rank: nat -> nat, all: set<nat>, usedg: set<Net>,
                  usedpi: set<nat>, order: seq<Net>, target: nat)
    requires Placed(support, rank, newg) && support <= all && usedg <= newg.Keys && usedpi <= all && all !! NetIds(newg)
    requires MarkedFrom(newg, all, {}, usedg, usedpi) && Dfs.Ordered(ArgMap(newg), usedg, order)
    requires forall k :: k in order ==> k in newg
    requires ArgMarked(newg, all, usedg, usedpi, Sig(target)) && (Sig(target) in usedg ==> Sig(target) in order)
    requires Sig(target) in newg || target in all
    ensures Written(newg, support, rank, target, Slice(usedpi, Lines(newg, order)))
  {
    var sl := Slice(usedpi, Lines(newg, order));
    assert LineNets(sl) == order;
    forall i: nat, a | i < |sl.lines| && a in sl.lines[i].gate.args
      ensures Defined(sl, i, a) || (a !in newg && (a == K0 || a == K1) && sl.lines[i].gate.op.Other?)
    {
      LineReads(newg, support, rank, all, usedg, usedpi, order, i, a);
    }
    if Sig(target) in newg {
      assert order[..|order|] == order;
      EarlierLine(newg, order, usedpi, |order|, Sig(target));
    }
  }

  // ---------------------------------------------------------------- constants

  /** The tables never hold a constant source. */
  lemma NoConstKeys(st: Fold, support: set<nat>, rank: nat -> nat, done: set<nat>)
    requires Tidy(support, rank, st, done)
    ensures forall k :: k in st.newg ==> k.Sig? || k.Xaux?
  {
    forall k | k in st.newg ensures k.Sig? || k.Xaux? { assert GateTidy(support, rank, st, k, st.newg[k]); }
  }

  /** When the output is constant, only its driver and the constant sources are reached. */
  lemma ConstReach(st: Fold, support: set<nat>, rank: nat -> nat, done: set<nat>, target: nat, pi0: nat, usedg: set<Net>)
    requires Tidy(support, rank, st, done) && pi0 in support && done !! support && (target in done || target in support)
    requires Resolve(st, target, {}).C? && MarkedOnly(ConeEmit.Drivers(st, target, pi0), {}, usedg, Sig(target))
    ensures usedg <= {Sig(target), K0, K1}
  {
    var newg, s := ConeEmit.Drivers(st, target, pi0), {Sig(target), K0, K1};
    NoConstKeys(st, support, rank, done);
    assert Sig(pi0) !in newg by { TargetTidy(support, rank, st, done, target); }
    assert GateClosed(newg, s);
    assert Sig(target) in newg;
  }

  /** A known gate that reads a constant, or a defined constant source, means the output is constant. */
  lemma ConstOnlyAtOutput(st: Fold, support: set<nat>, rank: nat -> nat, done: set<nat>, target: nat, pi0: nat, k: Net)
    requires Tidy(support, rank, st, done) && k in ConeEmit.Drivers(st, target, pi0)
    requires var g := ConeEmit.Drivers(st, target, pi0)[k]; k == K0 || k == K1 || (!g.op.Other? && (K0 in g.args || K1 in g.args))
    ensures Resolve(st, target, {}).C?
  {
    if k in st.newg { assert GateTidy(support, rank, st, k, st.newg[k]); }
  }

  /** An output that folds to a constant is that constant under every assignment. */
  lemma ConstOutput(b: Bench, rank: nat -> nat, topo: seq<nat>, target: nat, other: Meaning, asg: nat -> bool)
    requires BenchOk(b) && Acyclic(b, rank) && forall x :: x in topo ==> x in b.gates && IsGate(b, x)
    requires Resolve(FoldTo(b, topo, |topo|), target, {}).C?
    ensures Full(b, rank, other, asg, target) == Resolve(FoldTo(b, topo, |topo|), target, {}).bit
  {
    var w := NetMeaning(b, rank, other, asg);
    MeaningSolves(b, rank, other, asg, set x | x in topo);
    FoldSound(b, other, w, topo, |topo|);
    ResolveRight(other, w, FoldTo(b, topo, |topo|), target, {});
  }

  /** An order without unknown gates folds to tables without unknown gates. */
  lemma {:induction false} FoldKnown(b: Bench, topo: seq<nat>, n: nat)
    requires BenchOk(b) && n <= |topo| && forall x :: x in topo ==> x in b.gates
    requires forall x :: x in topo ==> !b.gates[x].op.Other?
    ensures forall k :: k in FoldTo(b, topo, n).newg ==> !FoldTo(b, topo, n).newg[k].op.Other?
    decreases n
  {
    if n == 0 {
    } else {
      FoldKnown(b, topo, n - 1);
      assert topo[n - 1] in topo;
    }
  }

  // ---------------------------------------------------------------- the extractor

  /** The slice computes the target's bit of the full bench for every meaning and assignment. */
  ghost predicate SameBit(b: Bench, rank: nat -> nat, target: nat, sl: Slice)
    requires Acyclic(b, rank)
  {
    forall other: Meaning, asg: nat -> bool :: SliceBit(sl, other, asg, target) == Full(b, rank, other, asg, target)
  }

  /** The target has one value under every meaning and assignment. */
  ghost predicate ConstantOutput(b: Bench, rank: nat -> nat, target: nat)
    requires Acyclic(b, rank)
  {
    exists v :: AlwaysIs(b, rank, target, v)
  }

  ghost predicate AlwaysIs(b: Bench, rank: nat -> nat, target: nat, v: bool)
    requires Acyclic(b, rank)
  {
    forall other: Meaning, asg: nat -> bool :: Full(b, rank, other, asg, target) == v
  }

  /** Every gate the target depends on is of a known kind. */
  ghost predicate KnownBelow(b: Bench, target: nat) {
    exists s :: ClosedFrom(b, target, s) && KnownIn(b, s)
  }

  ghost predicate KnownIn(b: Bench, s: set<nat>) {
    forall x :: x in s && IsGate(b, x) ==> !b.gates[x].op.Other?
  }

  /** Gates of a known kind that read a constant source. */
  ghost predicate ReadsConstant(sl: Slice) {
    exists i: nat :: i < |sl.lines| && !sl.lines[i].gate.op.Other? && (K0 in sl.lines[i].gate.args || K1 in sl.lines[i].gate.args)
  }

  lemma NoUnknownAtConst(st: Fold, support: set<nat>, rank: nat -> nat, done: set<nat>, target: nat, pi0: nat,
                         usedg: set<Net>, sl: Slice)
    requires Tidy(support, rank, st, done) && pi0 in support && done !! support && (target in done || target in support)
    requires Resolve(st, target, {}).C? && usedg <= {Sig(target), K0, K1}
    requires var newg := ConeEmit.Drivers(st, target, pi0);
      forall i :: 0 <= i < |sl.lines| ==> sl.lines[i].net in usedg && sl.lines[i].net in newg && sl.lines[i].gate == newg[sl.lines[i].net]
    ensures NoUnknownConst(sl)
  {
    var newg := ConeEmit.Drivers(st, target, pi0);
    NoConstKeys(st, support, rank, done);
    forall i: nat | i < |sl.lines| ensures !sl.lines[i].gate.op.Other? {
      assert sl.lines[i].net in usedg;
    }
  }

  /** What the extractor works with on the way to a slice. */
  datatype Work = Work(cone: set<nat>, support: set<nat>, topo: seq<nat>, st: Fold, newg: ConeOutput.Drivers,
                       pi0: nat, usedg: set<Net>)

  ghost predicate MadeBy(b: Bench, rank: nat -> nat, target: nat, sl: Slice, k: Work) {
    && Built(b, rank, k.cone, k.support, k.topo, target, k.st, k.newg, k.pi0)
    && MarkedOnly(k.newg, {}, k.usedg, Sig(target)) && sl.pis <= b.inputs + k.support
    && Written(k.newg, k.support, rank, target, sl)
    && forall i :: 0 <= i < |sl.lines| ==> sl.lines[i].net in k.usedg
  }

  /** A slice the extractor can write. */
  ghost predicate Sliced(b: Bench, rank: nat -> nat, target: nat, sl: Slice) {
    exists k :: MadeBy(b, rank, target, sl, k)
  }

  /** The slice's target bit is what the target's kind makes of its arguments in the full bench. */
  ghost predicate TargetObeys(b: Bench, rank: nat -> nat, target: nat, sl: Slice)
    requires Acyclic(b, rank) && IsGate(b, target)
  {
    forall other: Meaning, asg: nat -> bool :: Obeys(b, rank, other, asg, target, SliceBit(sl, other, asg, target))
  }

  ghost predicate SliceAlways(sl: Slice, target: nat, v: bool) {
    forall other: Meaning, asg: nat -> bool :: SliceBit(sl, other, asg, target) == v
  }

  /** An OR (AND) with an argument that is always true (false) gives a slice that always is; NOR and NAND the opposite. */
  ghost predicate TargetForced(b: Bench, rank: nat -> nat, target: nat, sl: Slice)
    requires Acyclic(b, rank) && IsGate(b, target)
  {
    var g := b.gates[target];
    && ((exists i :: 0 <= i < |g.args| && AlwaysIs(b, rank, g.args[i], true)) ==>
          (g.op.Or? ==> SliceAlways(sl, target, true)) && (g.op.Nor? ==> SliceAlways(sl, target, false)))
    && ((exists i :: 0 <= i < |g.args| && AlwaysIs(b, rank, g.args[i], false)) ==>
          (g.op.And? ==> SliceAlways(sl, target, false)) && (g.op.Nand? ==> SliceAlways(sl, target, true)))
  }

  lemma TargetLaws(b: Bench, rank: nat -> nat, target: nat, sl: Slice)
    requires Acyclic(b, rank) && IsGate(b, target) && SameBit(b, rank, target, sl)
    ensures TargetObeys(b, rank, target, sl) && TargetForced(b, rank, target, sl)
  {
    var g := b.gates[target];
    forall other: Meaning, asg: nat -> bool ensures Obeys(b, rank, other, asg, target, SliceBit(sl, other, asg, target)) {
      FullMeans(b, rank, other, asg, target);
    }
    forall v: bool, i | 0 <= i < |g.args| && AlwaysIs(b, rank, g.args[i], v)
      ensures v && g.op.Or? ==> SliceAlways(sl, target, true)
      ensures v && g.op.Nor? ==> SliceAlways(sl, target, false)
      ensures !v && g.op.And? ==> SliceAlways(sl, target, false)
      ensures !v && g.op.Nand? ==> SliceAlways(sl, target, true)
    {
      Forced(b, rank, target, sl, i, v);
    }
  }

  lemma Forced(b: Bench, rank: nat -> nat, target: nat, sl: Slice, i: nat, v: bool)
    requires Acyclic(b, rank) && IsGate(b, target) && TargetObeys(b, rank, target, sl)
    requires i < |b.gates[target].args| && AlwaysIs(b, rank, b.gates[target].args[i], v)
    ensures var op := b.gates[target].op;
      && (v && op.Or? ==> SliceAlways(sl, target, true)) && (v && op.Nor? ==> SliceAlways(sl, target, false))
      && (!v && op.And? ==> SliceAlways(sl, target, false)) && (!v && op.Nand? ==> SliceAlways(sl, target, true))
  {
    forall other: Meaning, asg: nat -> bool
      ensures Obeys(b, rank, other, asg, target, SliceBit(sl, other, asg, target))
      ensures Full(b, rank, other, asg, b.gates[target].args[i]) == v
    {
    }
  }

  method Extract(b: Bench, target: nat, ghost rank: nat -> nat) returns (r: Option<Slice>)
    requires BenchOk(b) && Acyclic(b, rank)
    ensures r.None? <==> target !in b.gates && target !in b.inputs
    ensures r.Some? ==> forall p :: p in r.value.pis ==> !IsGate(b, p)
    ensures r.Some? ==> (SelfContained(r.value) <==> NoUnknownConst(r.value))
    ensures r.Some? && NoUnknownConst(r.value) ==> SameBit(b, rank, target, r.value)
    ensures r.Some? && ReadsConstant(r.value) ==> ConstantOutput(b, rank, target)
    ensures r.Some? && KnownBelow(b, target) ==> SelfContained(r.value)
    ensures r.Some? ==> Sliced(b, rank, target, r.value)
    ensures r.Some? && NoUnknownConst(r.value) && IsGate(b, target) ==> TargetObeys(b, rank, target, r.value)
    ensures r.Some? && NoUnknownConst(r.value) && IsGate(b, target) ==> TargetForced(b, rank, target, r.value)
  {
    if target !in b.gates && target !in b.inputs { return None; }
    var cone, support := BackCone(b, target);
    ConeRanked(b, rank, target, cone, support);
    var seen, topo := Dfs.Visit(Args(b, cone), cone, target, {}, [], rank);
    assert Prepared(b, rank, cone, support, topo, target);
    var sl := SliceOf(b, target, cone, support, topo, rank);
    if NoUnknownConst(sl) && IsGate(b, target) { TargetLaws(b, rank, target, sl); }
    return Some(sl);
  }

  /** The tables and the driver table the extractor builds. */
  ghost predicate Built(b: Bench, rank: nat -> nat, cone: set<nat>, support: set<nat>, topo: seq<nat>, target: nat,
                        st: Fold, newg: ConeOutput.Drivers, pi0: nat)
  {
    && Prepared(b, rank, cone, support, topo, target)
    && (forall x :: x in topo ==> x in b.gates && IsGate(b, x) && x in cone)
    && st == FoldTo(b, topo, |topo|) && newg == ConeEmit.Drivers(st, target, pi0)
    && Tidy(support, rank, st, cone * Done(topo, |topo|)) && cone * Done(topo, |topo|) !! support
    && (target in cone * Done(topo, |topo|) || target in support)
    && (topo != [] ==> pi0 in support)
  }

  lemma BuiltPlaced(b: Bench, rank: nat -> nat, cone: set<nat>, support: set<nat>, topo: seq<nat>, target: nat,
                    st: Fold, newg: ConeOutput.Drivers, pi0: nat)
    requires Built(b, rank, cone, support, topo, target, st, newg, pi0)
    ensures Placed(support, rank, newg) && (b.inputs + support) !! NetIds(newg)
    ensures Sig(target) in newg || target in b.inputs + support
  {
    var done := cone * Done(topo, |topo|);
    if target in done { assert topo != []; }
    if topo == [] { assert done == {}; PlacedEmpty(support, rank, st, target, newg, pi0); }
    else { DriversPlaced(support, rank, st, done, target, pi0); }
    TargetTidy(support, rank, st, done, target);
    forall k | k in newg && k.Sig? ensures k.id in cone && IsGate(b, k.id) {
      assert k.id in done;
    }
  }

  lemma PlacedEmpty(support: set<nat>, rank: nat -> nat, st: Fold, target: nat, newg: ConeOutput.Drivers, pi0: nat)
    requires Tidy(support, rank, st, {}) && target in support && newg == ConeEmit.Drivers(st, target, pi0)
    ensures Placed(support, rank, newg)
  {
    TargetTidy(support, rank, st, {}, target);
    NoConstKeys(st, support, rank, {});
    assert forall k :: k !in st.newg;
  }

  /** Orders the marked gates and pairs each with its function. */
  method Emit(b: Bench, ghost rank: nat -> nat, ghost cone: set<nat>, support: set<nat>, ghost topo: seq<nat>, target: nat,
              ghost st: Fold, newg: ConeOutput.Drivers, ghost pi0: nat, usedg: set<Net>, usedpi: set<nat>)
    returns (sl: Slice)
    requires Built(b, rank, cone, support, topo, target, st, newg, pi0)
    requires Grew(newg, b.inputs + support, {}, {}, usedg, usedpi)
    requires ArgMarked(newg, b.inputs + support, usedg, usedpi, Sig(target))
    requires MarkedFrom(newg, b.inputs + support, {}, usedg, usedpi)
    ensures Written(newg, support, rank, target, sl) && sl.pis == usedpi
    ensures forall i :: 0 <= i < |sl.lines| ==> sl.lines[i].net in usedg
  {
    BuiltPlaced(b, rank, cone, support, topo, target, st, newg, pi0);
    SurvivorsRanked(newg, support, rank, usedg);
    var seen, order := Dfs.Visit(ArgMap(newg), usedg, Sig(target), {}, [], NetRank(rank));
    assert forall k :: k in order ==> k in usedg;
    sl := Slice(usedpi, Lines(newg, order));
    WrittenOk(newg, support, rank, b.inputs + support, usedg, usedpi, order, target);
  }

  /** What the written bench guarantees. */
  lemma Conclude(b: Bench, rank: nat -> nat, cone: set<nat>, support: set<nat>, topo: seq<nat>, target: nat,
                 st: Fold, newg: ConeOutput.Drivers, pi0: nat, usedg: set<Net>, sl: Slice)
    requires BenchOk(b) && Acyclic(b, rank) && Built(b, rank, cone, support, topo, target, st, newg, pi0)
    requires MarkedOnly(newg, {}, usedg, Sig(target)) && sl.pis <= b.inputs + support
    requires Written(newg, support, rank, target, sl) && forall i :: 0 <= i < |sl.lines| ==> sl.lines[i].net in usedg
    ensures SelfContained(sl) <==> NoUnknownConst(sl)
    ensures NoUnknownConst(sl) ==> SameBit(b, rank, target, sl)
    ensures ReadsConstant(sl) ==> ConstantOutput(b, rank, target)
    ensures KnownBelow(b, target) ==> SelfContained(sl)
  {
    ConcludeContained(b, rank, cone, support, topo, target, st, newg, pi0, usedg, sl);
    if NoUnknownConst(sl) {
      forall other: Meaning, asg: nat -> bool
        ensures SliceBit(sl, other, asg, target) == Full(b, rank, other, asg, target)
      {
        SliceRight(b, rank, topo, newg, support, target, pi0, sl, other, asg);
      }
    }
    if ReadsConstant(sl) { ConcludeReads(b, rank, cone, support, topo, target, st, newg, pi0, sl); }
    if KnownBelow(b, target) { ConcludeKnown(b, rank, cone, support, topo, target, st, newg, pi0, sl); }
  }

  lemma ConcludeConst(b: Bench, rank: nat -> nat, cone: set<nat>, support: set<nat>, topo: seq<nat>, target: nat,
                      st: Fold, newg: ConeOutput.Drivers, pi0: nat, usedg: set<Net>, sl: Slice)
    requires Built(b, rank, cone, support, topo, target, st, newg, pi0)
    requires MarkedOnly(newg, {}, usedg, Sig(target))
    requires Written(newg, support, rank, target, sl) && forall i :: 0 <= i < |sl.lines| ==> sl.lines[i].net in usedg
    ensures (K0 in newg || K1 in newg) ==> NoUnknownConst(sl)
  {
    var done := cone * Done(topo, |topo|);
    if K0 in newg || K1 in newg {
      ConstOnlyAtOutput(st, support, rank, done, target, pi0, if K0 in newg then K0 else K1);
      TargetTidy(support, rank, st, done, target);
      assert topo != [];
      ConstReach(st, support, rank, done, target, pi0, usedg);
      NoUnknownAtConst(st, support, rank, done, target, pi0, usedg, sl);
    }
  }

  /** The slice is self-contained exactly when no unknown gate in it reads a folded constant. */
  lemma ConcludeContained(b: Bench, rank: nat -> nat, cone: set<nat>, support: set<nat>, topo: seq<nat>, target: nat,
                          st: Fold, newg: ConeOutput.Drivers, pi0: nat, usedg: set<Net>, sl: Slice)
    requires Built(b, rank, cone, support, topo, target, st, newg, pi0)
    requires MarkedOnly(newg, {}, usedg, Sig(target))
    requires Written(newg, support, rank, target, sl) && forall i :: 0 <= i < |sl.lines| ==> sl.lines[i].net in usedg
    ensures SelfContained(sl) <==> NoUnknownConst(sl)
  {
    ConcludeConst(b, rank, cone, support, topo, target, st, newg, pi0, usedg, sl);
    if NoUnknownConst(sl) {
      forall i: nat, a | i < |sl.lines| && a in sl.lines[i].gate.args ensures Defined(sl, i, a) {
      }
    } else {
      var i: nat, a :| i < |sl.lines| && sl.lines[i].gate.op.Other? && a in sl.lines[i].gate.args && (a == K0 || a == K1);
      assert a !in newg;
      assert !Defined(sl, i, a);
    }
  }

  /** With known gates only below the target, no unknown gate survives. */
  lemma ConcludeKnown(b: Bench, rank: nat -> nat, cone: set<nat>, support: set<nat>, topo: seq<nat>, target: nat,
                      st: Fold, newg: ConeOutput.Drivers, pi0: nat, sl: Slice)
    requires BenchOk(b) && Built(b, rank, cone, support, topo, target, st, newg, pi0)
    requires Written(newg, support, rank, target, sl) && KnownBelow(b, target)
    ensures NoUnknownConst(sl)
  {
    KnownOrder(b, target, cone, support, topo);
    FoldKnown(b, topo, |topo|);
    DriversKnown(st, target, pi0);
    forall i: nat | i < |sl.lines| ensures !sl.lines[i].gate.op.Other? { assert sl.lines[i].gate == newg[sl.lines[i].net]; }
  }

  lemma KnownOrder(b: Bench, target: nat, cone: set<nat>, support: set<nat>, topo: seq<nat>)
    requires IsCone(b, target, cone, support) && KnownBelow(b, target)
    requires forall x :: x in topo ==> x in b.gates && IsGate(b, x) && x in cone
    ensures forall x :: x in topo ==> !b.gates[x].op.Other?
  {
    var s :| ClosedFrom(b, target, s) && KnownIn(b, s);
    assert cone + support <= s;
    forall x | x in topo ensures !b.gates[x].op.Other? { assert x in s && IsGate(b, x); }
  }

  lemma DriversKnown(st: Fold, target: nat, pi0: nat)
    requires forall k :: k in st.newg ==> !st.newg[k].op.Other?
    ensures var newg := ConeEmit.Drivers(st, target, pi0); forall k :: k in newg ==> !newg[k].op.Other?
  {
  }

  lemma ConcludeReads(b: Bench, rank: nat -> nat, cone: set<nat>, support: set<nat>, topo: seq<nat>, target: nat,
                      st: Fold, newg: ConeOutput.Drivers, pi0: nat, sl: Slice)
    requires BenchOk(b) && Acyclic(b, rank) && Built(b, rank, cone, support, topo, target, st, newg, pi0)
    requires Written(newg, support, rank, target, sl) && ReadsConstant(sl)
    ensures ConstantOutput(b, rank, target)
  {
    var i: nat :| i < |sl.lines| && !sl.lines[i].gate.op.Other? && (K0 in sl.lines[i].gate.args || K1 in sl.lines[i].gate.args);
    var k := sl.lines[i].net;
    assert k in newg && sl.lines[i].gate == newg[k];
    ConstOnlyAtOutput(st, support, rank, cone * Done(topo, |topo|), target, pi0, k);
    AlwaysConstant(b, rank, topo, target);
  }

  lemma AlwaysConstant(b: Bench, rank: nat -> nat, topo: seq<nat>, target: nat)
    requires BenchOk(b) && Acyclic(b, rank) && forall x :: x in topo ==> x in b.gates && IsGate(b, x)
    requires Resolve(FoldTo(b, topo, |topo|), target, {}).C?
    ensures ConstantOutput(b, rank, target)
  {
    var st := FoldTo(b, topo, |topo|);
    var v := Resolve(st, target, {}).bit;
    forall other: Meaning, asg: nat -> bool ensures Full(b, rank, other, asg, target) == v {
      ConstOutput(b, rank, topo, target, other, asg);
    }
    assert AlwaysIs(b, rank, target, v);
  }

  /** From the ordered cone to the written bench. */
  method SliceOf(b: Bench, target: nat, cone: set<nat>, support: set<nat>, topo: seq<nat>, ghost rank: nat -> nat)
    returns (sl: Slice)
    requires BenchOk(b) && Acyclic(b, rank) && Prepared(b, rank, cone, support, topo, target)
    requires target in cone + support
    ensures Sliced(b, rank, target, sl)
    ensures forall p :: p in sl.pis ==> !IsGate(b, p)
    ensures SelfContained(sl) <==> NoUnknownConst(sl)
    ensures NoUnknownConst(sl) ==> SameBit(b, rank, target, sl)
    ensures ReadsConstant(sl) ==> ConstantOutput(b, rank, target)
    ensures KnownBelow(b, target) ==> SelfContained(sl)
  {
    FoldTidy(b, rank, cone, support, topo, |topo|);
    var st := FoldPass(b, topo);
    var pi0 := 0;
    if topo != [] {
      SupportExists(b, rank, cone, support, topo);
      pi0 :| pi0 in support;
    }
    var newg := ConeEmit.Drivers(st, target, pi0);
    BuiltOk(b, rank, cone, support, topo, target, pi0);
    var usedg, usedpi := Mark(newg, b.inputs + support, Sig(target), {}, {});
    sl := Emit(b, rank, cone, support, topo, target, st, newg, pi0, usedg, usedpi);
    Conclude(b, rank, cone, support, topo, target, st, newg, pi0, usedg, sl);
    assert MadeBy(b, rank, target, sl, Work(cone, support, topo, st, newg, pi0, usedg));
  }

  lemma BuiltOk(b: Bench, rank: nat -> nat, cone: set<nat>, support: set<nat>, topo: seq<nat>, target: nat, pi0: nat)
    requires Prepared(b, rank, cone, support, topo, target) && target in cone + support
    requires topo != [] ==> pi0 in support
    ensures forall x :: x in topo ==> x in b.gates
    ensures var st := FoldTo(b, topo, |topo|);
      Built(b, rank, cone, support, topo, target, st, ConeEmit.Drivers(st, target, pi0), pi0)
  {
    FoldTidy(b, rank, cone, support, topo, |topo|);
    assert topo[..|topo|] == topo;
    assert Done(topo, |topo|) == cone * Done(topo, |topo|);
  }
}
