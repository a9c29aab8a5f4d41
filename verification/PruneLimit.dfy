/** The 256-output limit. */
module PruneLimit {
  // Why pruning is limited to 256 outputs: past the mask, `HasBit` answers true, the walk stops
  // early, and a cell shared with a numbered output can be taken for exclusive to it.

  import opened Netlist
  import opened Clocking
  import opened OutCone

  /** Every live output of every design with `n` outputs is right under every live mask. */
  ghost predicate PruningSafe(n: nat) {
    forall d: Design, order: seq<nat>, live: seq<bool>, st: Env, inp: Env, mem: Mem, o: nat ::
      WellFormed(d) && Topological(d, order) && |d.outputs| == n && o < n && Live(live, o) ==>
      PortBits(d, Sweep(d, Pruned(d, Analyze(d), order, live), Base(d, st, inp), mem), o) ==
      PortBits(d, Eval(d, order, st, inp, mem), o)
  }

  function Buf(ins: seq<bool>, j: nat): bool { |ins| > 0 && ins[0] }

  /** Input bit 0 drives bit 1 through a buffer; bit 1 drives bit 2 (output 0) and bit 3
      (output 256) through one buffer each; all other outputs show the undriven bit 4. */
  function Fanout(n: nat): Design {
    Design([0, 1, 2, 3, 4], [Input, Comb, Comb, Comb, Comb],
           [Logic(Buf, [Net(0)], [1]), Logic(Buf, [Net(1)], [2]), Logic(Buf, [Net(1)], [3])],
           [], [], seq(n, o => if o == 0 then [2] else if o == 256 then [3] else [4]))
  }

  lemma FanoutOk(n: nat)
    ensures WellFormed(Fanout(n)) && Topological(Fanout(n), [0, 1, 2])
  {
    var d := Fanout(n);
    assert forall c: nat :: c < 3 ==> |d.cells[c].outs| == 1 && d.cells[c].outs[0] == c + 1;
    assert forall c: nat, b: nat :: Drives(d, c, b) ==> b == c + 1;
    assert forall c: nat, b: nat :: Reads(d, c, b) ==> b == (if c == 0 then 0 else 1);
    forall i | 0 <= i < 3 ensures ReadyAt(d, [0, 1, 2], i) {
      forall b: nat, p: nat | Reads(d, [0, 1, 2][i], b) && Drives(d, p, b)
        ensures p in [0, 1, 2][..i]
      {
        assert p == 0 && [0, 1, 2][0] == 0;
        assert i != 0;
        assert [0, 1, 2][..i][0] == 0;
      }
    }
  }

  lemma FanoutFacts(n: nat)
    ensures var d := Fanout(n);
      && DriverOf(d, 1) == 0 && DriverOf(d, 2) == 1 && DriverOf(d, 3) == 2 && DriverOf(d, 4) == 3
      && NetBits(d.cells[0].ins) == [0] && NetBits(d.cells[1].ins) == [1] && NetBits(d.cells[2].ins) == [1]
  {
    var d := Fanout(n);
    assert Drives(d, 0, 1) && Drives(d, 1, 2) && Drives(d, 2, 3);
    assert [Net(0)][1..] == [] && [Net(1)][1..] == [];
  }

  /** The walk over a one-entry worklist. */
  lemma WalkOne(d: Design, o: nat, b: nat, seen: set<nat>, a: Analysis)
    requires |a.feeds| == |d.cells| && b < |d.wireOf| && b !in seen && KindOf(d, b) == Comb
    ensures var c := DriverOf(d, b);
      Walk(d, o, [b], seen, a) ==
      if c == |d.cells| || (HasBit(a.feeds[c], o) && c in a.cone) then a
      else Walk(d, o, NetBits(d.cells[c].ins), seen + {b},
                a.(feeds := a.feeds[c := SetBit(a.feeds[c], o)], cone := a.cone + {c}))
  {
    assert b in Unseen(d, seen);
    assert [b][..0] == [];
    var c := DriverOf(d, b);
    if c < |d.cells| { assert [] + NetBits(d.cells[c].ins) == NetBits(d.cells[c].ins); }
  }

  lemma WalkInput(d: Design, o: nat, b: nat, seen: set<nat>, a: Analysis)
    requires |a.feeds| == |d.cells| && b < |d.wireOf| && KindOf(d, b) == Input
    ensures Walk(d, o, [b], seen, a) == a
  {
    assert b !in seen ==> b in Unseen(d, seen);
    assert [b][..0] == [];
  }

  /** An undriven bit changes nothing. */
  lemma WalkUndriven(n: nat, o: nat, a: Analysis)
    requires |a.feeds| == 3
    ensures Walk(Fanout(n), o, [4], {}, a) == a
  {
    FanoutFacts(n);
    WalkOne(Fanout(n), o, 4, {}, a);
  }

  lemma WalkFirst(n: nat, a: Analysis)
    requires a == Analysis([{}, {}, {}], {}, {})
    ensures Walk(Fanout(n), 0, [2], {}, a) == Analysis([{0}, {0}, {}], {0, 1}, {})
  {
    var d := Fanout(n);
    FanoutFacts(n);
    var a1 := Analysis([{}, {0}, {}], {1}, {});
    var a2 := Analysis([{0}, {0}, {}], {0, 1}, {});
    WalkOne(d, 0, 2, {}, a);
    assert {} + {2} == {2} && SetBit({}, 0) == {0};
    assert a.(feeds := a.feeds[1 := SetBit({}, 0)], cone := a.cone + {1}) == a1;
    WalkOne(d, 0, 1, {2}, a1);
    assert a1.(feeds := a1.feeds[0 := SetBit({}, 0)], cone := a1.cone + {0}) == a2;
    WalkInput(d, 0, 0, {2} + {1}, a2);
  }

  lemma WalkBeyond(n: nat, a: Analysis)
    requires a == Analysis([{0}, {0}, {}], {0, 1}, {})
    ensures Walk(Fanout(n), 256, [3], {}, a) == Analysis([{0}, {0}, FullMask()], {0, 1, 2}, {})
  {
    FanoutFacts(n);
    WalkOne(Fanout(n), 256, 3, {}, a);
    WalkOne(Fanout(n), 256, 1, {3}, Analysis([{0}, {0}, FullMask()], {0, 1, 2}, {}));
  }

  lemma {:induction false} FanoutAnalysis(n: nat, k: nat)
    requires 1 <= k <= n
    ensures AnalyzeUpTo(Fanout(n), k) ==
      if k <= 256 then Analysis([{0}, {0}, {}], {0, 1}, {})
      else Analysis([{0}, {0}, FullMask()], {0, 1, 2}, {})
  {
    var d := Fanout(n);
    if k == 1 {
      assert AnalyzeUpTo(d, 0) == Analysis([{}, {}, {}], {}, {});
      WalkFirst(n, AnalyzeUpTo(d, 0));
    } else {
      FanoutAnalysis(n, k - 1);
      if k == 257 { WalkBeyond(n, AnalyzeUpTo(d, k - 1)); }
      else { WalkUndriven(n, k - 1, AnalyzeUpTo(d, k - 1)); }
    }
  }

  lemma FanoutParts(a: Analysis)
    requires a == Analysis([{0}, {0}, FullMask()], {0, 1, 2}, {})
    ensures SharedCells(a) == {2}
    ensures forall k :: k != 0 ==> Bucket(a, k) == {}
  {
    if Exclusive(FullMask()) { SingletonMask(FullMask(), 0, 1); }
    assert Exclusive({0});
  }

  lemma {:induction false} OnlyShared(order: seq<nat>, groups: seq<set<nat>>, k: nat)
    requires 1 <= k <= |groups| && forall g :: 1 <= g < k ==> Filter(order, groups[g]) == []
    ensures Concat(order, groups, k) == Filter(order, groups[0])
    decreases k
  {
    if k > 1 { OnlyShared(order, groups, k - 1); }
    else { assert Concat(order, groups, 0) == []; }
  }

  lemma FilterThree(keep: set<nat>)
    ensures Filter([0, 1, 2], keep) ==
      (if 0 in keep then [0] else []) + (if 1 in keep then [1] else []) + (if 2 in keep then [2] else [])
  {
    var order: seq<nat> := [0, 1, 2];
    assert FilterTo(order, keep, 1) == if 0 in keep then [0] else [];
    assert FilterTo(order, keep, 3) == FilterTo(order, keep, 2) + if 2 in keep then [2] else [];
  }

  lemma BufStep(ins: seq<Sig>, outs: seq<nat>, env: Env, x: nat, y: nat)
    requires ins == [Net(x)] && outs == [y] && x < |env| && y < |env|
    ensures Step(Logic(Buf, ins, outs), env, []) == env[y := env[x]]
  {
    assert Values(ins, env) == [env[x]];
  }

  lemma FanoutEval(n: nat)
    ensures Eval(Fanout(n), [0, 1, 2], [], [true], []) == [true, true, true, true, false]
    ensures Sweep(Fanout(n), [2], Base(Fanout(n), [], [true]), []) == [true, false, false, false, false]
  {
    var d, base := Fanout(n), Base(Fanout(n), [], [true]);
    assert base == [true, false, false, false, false];
    BufStep([Net(0)], [1], base, 0, 1);
    BufStep([Net(1)], [2], [true, true, false, false, false], 1, 2);
    BufStep([Net(1)], [3], [true, true, true, false, false], 1, 3);
    BufStep([Net(1)], [3], base, 1, 3);
    var order: seq<nat> := [0, 1, 2];
    assert SweepTo(d, order, 1, base, []) == [true, true, false, false, false];
    assert SweepTo(d, order, 2, base, []) == [true, true, true, false, false];
    assert SweepTo(d, [2], 0, base, []) == base;
  }

  /** With only the shared group {2} and dead bucket 0, cell 2 alone runs. */
  lemma OnlyCellTwo(d: Design, a: Analysis, live: seq<bool>, order: seq<nat>)
    requires SharedCells(a) == {2} && forall k :: k != 0 ==> Bucket(a, k) == {}
    requires live == [false] && Filter(order, {2}) == [2] && Filter(order, {}) == []
    ensures Pruned(d, a, order, live) == [2]
  {
    var groups := Groups(d, a, live);
    forall g | 1 <= g < |groups| ensures groups[g] == {} {
      assert groups[g] == groups[(g - 1) + 1];
    }
    OnlyShared(order, groups, |groups|);
  }

  lemma FanoutSchedule(n: nat)
    requires n > 256
    ensures Pruned(Fanout(n), Analyze(Fanout(n)), [0, 1, 2], [false]) == [2]
  {
    FanoutAnalysis(n, n);
    FanoutParts(Analyze(Fanout(n)));
    FilterThree({2});
    FilterThree({});
    OnlyCellTwo(Fanout(n), Analyze(Fanout(n)), [false], [0, 1, 2]);
  }

  /** One wrong live output refutes the claim. */
  lemma Refutes(d: Design, order: seq<nat>, live: seq<bool>, st: Env, inp: Env, mem: Mem, o: nat)
    requires WellFormed(d) && Topological(d, order) && o < |d.outputs| && Live(live, o)
    requires PortBits(d, Sweep(d, Pruned(d, Analyze(d), order, live), Base(d, st, inp), mem), o) !=
             PortBits(d, Eval(d, order, st, inp, mem), o)
    ensures !PruningSafe(|d.outputs|)
  {
  }

  lemma FanoutShows(n: nat)
    requires n > 256
    ensures PortBits(Fanout(n), [true, false, false, false, false], 256) == [false]
    ensures PortBits(Fanout(n), [true, true, true, true, false], 256) == [true]
  {
  }

  /** With output 0 dead, output 256 misses the shared buffer and shows 0 instead of 1. */
  lemma BeyondLimitWrong(n: nat)
    requires n > 256
    ensures !PruningSafe(n)
  {
    var live: seq<bool> := [false];
    FanoutOk(n);
    FanoutSchedule(n);
    FanoutEval(n);
    FanoutShows(n);
    assert Live(live, 256);
    Refutes(Fanout(n), [0, 1, 2], live, [], [true], [], 256);
  }

  /** Dead-output pruning is right for every design with `n` outputs exactly when `n <= 256`. */
  lemma PruningLimit(n: nat)
    ensures PruningSafe(n) <==> n <= 256
  {
    if n > 256 {
      BeyondLimitWrong(n);
    } else {
      forall d: Design, order: seq<nat>, live: seq<bool>, st: Env, inp: Env, mem: Mem, o: nat |
        WellFormed(d) && Topological(d, order) && |d.outputs| == n && o < n && Live(live, o)
        ensures PortBits(d, Sweep(d, Pruned(d, Analyze(d), order, live), Base(d, st, inp), mem), o) ==
                PortBits(d, Eval(d, order, st, inp, mem), o)
      {
        PruningCorrect(d, order, live, st, inp, mem, o);
      }
    }
  }
}
