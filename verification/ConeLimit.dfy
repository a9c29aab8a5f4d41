/** Unknown gate kinds. */
module ConeLimit {
  // For which gate kinds the extractor's slices are self-contained, exactly.

  import opened ConeSlice
  import opened ConeEmit
  import opened ConeOutput
  import opened ConeExtract
  import Dfs

  /** Every gate is of a known kind or of kind `op`. */
  ghost predicate OnlyUnknown(b: Bench, op: Op) {
    forall x :: x in b.gates ==> !b.gates[x].op.Other? || b.gates[x].op == op
  }

  /** Every slice of every bench that uses `op` beside the known kinds is self-contained. */
  ghost predicate KindSafe(op: Op) {
    forall b: Bench, rank: nat -> nat, target: nat, sl: Slice ::
      BenchOk(b) && Acyclic(b, rank) && OnlyUnknown(b, op) && Sliced(b, rank, target, sl) ==> SelfContained(sl)
  }

  // ---------------------------------------------------------------- a bench for each unknown kind

  /** `d = XOR(p, p); t = op(p, d)` with p = 0, d = 1, t = 2. */
  function Unlucky(code: nat): (b: Bench)
    ensures BenchOk(b)
  {
    Bench({0}, map[1 := Gate(Xor, [0, 0]), 2 := Gate(Other(code), [0, 1])])
  }

  lemma XorOfSame(a: nat)
    ensures Simplify(Xor, [N(a), N(a)]) == Known(false)
  {
    var r := [N(a), N(a)];
    assert Nets(r, 1) == Nets(r, 0) + [a] == [a];
    assert Nets(r, 2) == Nets(r, 1) + [a] == [a, a];
    var ns := [a, a];
    assert Keys(ns, 1) == Keys(ns, 0) + [a] == [a];
    assert Keys(ns, 2) == [a];
    assert !OddCount(ns, 2, a) by { assert OddCount(ns, 1, a) == (OddCount(ns, 0, a) != true); }
    assert OddKeys([a], 1, ns) == OddKeys([a], 0, ns) == [];
    assert !ConstParity(r, 2) by { assert !ConstParity(r, 1) by { assert !ConstParity(r, 0); } }
  }

  /** The unknown gate is kept, reading a constant source that no gate defines. */
  lemma UnknownReadsConstant(code: nat, pi0: nat)
    ensures var b := Unlucky(code);
      && (forall x :: x in [1, 2] ==> x in b.gates)
      && ConeEmit.Drivers(FoldTo(b, [1, 2], 2), 2, pi0) == map[Sig(2) := NGate(Other(code), [Sig(0), K0])]
  {
    var b, topo := Unlucky(code), [1, 2];
    var s0 := FoldTo(b, topo, 0);
    assert Resolved(s0, [0, 0]) == [N(0), N(0)];
    XorOfSame(0);
    var s1 := FoldTo(b, topo, 1);
    assert s1 == Fold(map[1 := false], map[], map[]);
    assert Resolved(s1, [0, 1]) == [N(0), C(false)];
    var s2 := FoldTo(b, topo, 2);
    assert Simplify(Other(code), [N(0), C(false)]) == Keep(Other(code), [Sig(0), K0]);
    assert s2.newg == map[Sig(2) := NGate(Other(code), [Sig(0), K0])];
    assert Resolve(s2, 2, {}) == N(2);
  }

  lemma UnluckyCone(code: nat, cone: set<nat>, support: set<nat>)
    requires IsCone(Unlucky(code), 2, cone, support)
    ensures cone == {1, 2} && support == {0}
  {
    var b := Unlucky(code);
    assert IsGate(b, 2) && IsGate(b, 1) && !IsGate(b, 0);
    assert b.gates[2].args[0] in cone + support && b.gates[2].args[1] in cone + support;
    assert ClosedFrom(b, 2, {0, 1, 2});
  }

  lemma UnluckyOrder(code: nat, topo: seq<nat>)
    requires Dfs.Ordered(Args(Unlucky(code), {1, 2}), {1, 2}, topo) && 2 in topo
    ensures topo == [1, 2]
  {
    var g := Args(Unlucky(code), {1, 2});
    var i :| 0 <= i < |topo| && topo[i] == 2;
    assert g[2] == [0, 1];
    assert g[topo[i]][1] in topo[..i];
    var j :| 0 <= j < i && topo[j] == 1;
    UnluckyIndex(topo, i, j, 0);
    UnluckyIndex(topo, i, j, i - 1);
    UnluckyIndex(topo, i, j, |topo| - 1);
  }

  lemma UnluckyIndex(topo: seq<nat>, i: nat, j: nat, k: nat)
    requires Dfs.Distinct(topo) && j < i < |topo| && topo[i] == 2 && topo[j] == 1 && k < |topo|
    requires forall m :: 0 <= m < |topo| ==> topo[m] in {1, 2}
    ensures k == i || k == j
  {
    assert topo[k] in {1, 2};
  }

  lemma UnluckyDrivers(code: nat, rank: nat -> nat, sl: Slice, k: Work)
    requires MadeBy(Unlucky(code), rank, 2, sl, k)
    ensures k.newg == map[Sig(2) := NGate(Other(code), [Sig(0), K0])]
  {
    UnluckyCone(code, k.cone, k.support);
    UnluckyOrder(code, k.topo);
    UnknownReadsConstant(code, k.pi0);
  }

  /** No slice of this bench is self-contained. */
  lemma UnluckyNever(code: nat, rank: nat -> nat, sl: Slice)
    requires Sliced(Unlucky(code), rank, 2, sl)
    ensures !SelfContained(sl)
  {
    var k :| MadeBy(Unlucky(code), rank, 2, sl, k);
    UnluckyDrivers(code, rank, sl, k);
    UnluckyReads(code, k.newg, k.support, rank, sl);
  }

  lemma UnluckyReads(code: nat, newg: ConeOutput.Drivers, support: set<nat>, rank: nat -> nat, sl: Slice)
    requires newg == map[Sig(2) := NGate(Other(code), [Sig(0), K0])] && Written(newg, support, rank, 2, sl)
    ensures !SelfContained(sl)
  {
    assert 2 in NetIds(newg) by { assert Sig(2) in newg; }
    var i :| 0 <= i < |sl.lines| && sl.lines[i].net == Sig(2);
    assert sl.lines[i].gate.args[1] == K0;
    assert K0 in sl.lines[i].gate.args && !Defined(sl, i, K0);
  }

  /** The extractor does write a slice of it. */
  lemma UnluckySliced(code: nat) returns (rank: nat -> nat, sl: Slice)
    ensures Acyclic(Unlucky(code), rank) && Sliced(Unlucky(code), rank, 2, sl)
  {
    var b, cone, support, topo := Unlucky(code), {1, 2}, {0}, [1, 2];
    rank := (n: nat) => n;
    sl := Slice({0}, [Line(Sig(2), NGate(Other(code), [Sig(0), K0]))]);
    UnluckyPrepared(code, rank);
    BuiltOk(b, rank, cone, support, topo, 2, 0);
    UnknownReadsConstant(code, 0);
    var st := FoldTo(b, topo, 2);
    var newg := ConeEmit.Drivers(st, 2, 0);
    BuiltPlaced(b, rank, cone, support, topo, 2, st, newg, 0);
    UnluckyWritten(code, rank, newg);
    assert MarkedOnly(newg, {}, {Sig(2)}, Sig(2));
    assert MadeBy(b, rank, 2, sl, Work(cone, support, topo, st, newg, 0, {Sig(2)}));
  }

  lemma UnluckyPrepared(code: nat, rank: nat -> nat)
    requires forall n :: rank(n) == n
    ensures Acyclic(Unlucky(code), rank) && Prepared(Unlucky(code), rank, {1, 2}, {0}, [1, 2], 2)
  {
    var b := Unlucky(code);
    assert IsCone(b, 2, {1, 2}, {0}) by {
      assert IsGate(b, 2) && IsGate(b, 1) && !IsGate(b, 0);
      forall s | ClosedFrom(b, 2, s) ensures {1, 2} + {0} <= s {
        assert b.gates[2].args[0] in s && b.gates[2].args[1] in s;
      }
    }
    var g, topo: seq<nat> := Args(b, {1, 2}), [1, 2];
    assert topo[..1] == [1];
    assert Dfs.Ordered(g, {1, 2}, topo);
  }

  lemma UnluckyWritten(code: nat, rank: nat -> nat, newg: ConeOutput.Drivers)
    requires newg == map[Sig(2) := NGate(Other(code), [Sig(0), K0])] && Placed({0}, rank, newg)
    ensures Written(newg, {0}, rank, 2, Slice({0}, [Line(Sig(2), NGate(Other(code), [Sig(0), K0]))]))
  {
    var sl := Slice({0}, [Line(Sig(2), NGate(Other(code), [Sig(0), K0]))]);
    assert sl.lines[0].net == Sig(2);
    assert NetIds(newg) == {2};
    forall i: nat, a | i < |sl.lines| && a in sl.lines[i].gate.args
      ensures Defined(sl, i, a) || (a !in newg && (a == K0 || a == K1) && sl.lines[i].gate.op.Other?)
    {
      assert i == 0 && (a == Sig(0) || a == K0);
    }
  }

  // ---------------------------------------------------------------- the exact condition

  /** The extractor's slices of benches that use a gate kind beside the known ones are self-contained,
      for every such bench and target, exactly when that kind is itself known. */
  lemma KindSafeExact(op: Op)
    ensures KindSafe(op) <==> !op.Other?
  {
    if op.Other? {
      var rank, sl := UnluckySliced(op.code);
      UnluckyNever(op.code, rank, sl);
      assert OnlyUnknown(Unlucky(op.code), op);
    } else {
      forall b: Bench, rank: nat -> nat, target: nat, sl: Slice |
        BenchOk(b) && Acyclic(b, rank) && OnlyUnknown(b, op) && Sliced(b, rank, target, sl)
        ensures SelfContained(sl)
      {
        var k :| MadeBy(b, rank, target, sl, k);
        assert ClosedFrom(b, target, k.cone + k.support) && KnownIn(b, k.cone + k.support);
        Conclude(b, rank, k.cone, k.support, k.topo, target, k.st, k.newg, k.pi0, k.usedg, sl);
      }
    }
  }
}
