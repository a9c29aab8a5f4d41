/** Stack contents that reach an output. */
module GatedLimits {
  // Two designs on which the contents of the stack reach an output: an undriven bit of an uninitialised
  // local, and the bits above the width of one that is driven in slices and read as a whole.

  import opened Bits
  import opened Netlist
  import opened Clocking
  import opened CombSplit
  import opened Gated
  import opened Storage
  import opened StorageRun
  import GatedJunk
  import OutCone

  function Buf(ins: seq<bool>, j: nat): bool { |ins| > 0 && ins[0] }

  /** Wire 1 has two bits of which only bit 1 is driven; a buffer shows the undriven bit 2. */
  function HalfDriven(): Design {
    Design([0, 1, 1, 2], [Input, Comb, Comb],
           [Logic(Buf, [Net(0)], [1]), Logic(Buf, [Net(2)], [3])], [], [], [[3]])
  }

  function HalfSplit(): Split { Split(HalfDriven(), [0, 1], 1, [0, 2]) }

  lemma HalfCell(w: nat)
    ensures var s := HalfSplit();
      && (s.CellWrites(0, w) <==> w == 1) && (s.CellWrites(1, w) <==> w == 2)
      && (OutputWire(s, w) <==> w == 2)
  {
    var s := HalfSplit();
    assert |s.d.cells[0].outs| == 1 && s.d.cells[0].outs[0] == 1;
    assert |s.d.cells[1].outs| == 1 && s.d.cells[1].outs[0] == 3;
    assert s.WireIs(1, w) <==> w == 1;
    assert s.WireIs(3, w) <==> w == 2;
    assert s.OutputHas(0, w) <==> w == 2 by { assert s.d.outputs[0][0] == 3; }
  }

  lemma HalfBlock(w: nat)
    ensures HalfSplit().Shaped()
    ensures HalfSplit().WritesIn(0, w) <==> w == 1 || w == 2
  {
    var s := HalfSplit();
    HalfCell(w);
    assert s.order[0] == 0 && s.order[1] == 1 && s.cuts[0] == 0 && s.cuts[1] == 2;
  }

  lemma HalfWire(w: nat)
    ensures var s := HalfSplit();
      && s.Shaped()
      && (Written(s, w) <==> w == 1 || w == 2) && (Boundary(s, w) <==> w == 2)
  {
    var s := HalfSplit();
    HalfBlock(w);
    HalfCell(w);
    HalfNoSeq(w);
    assert Written(s, w) <==> s.WritesIn(0, w);
    assert !CrossBlock(s, w);
  }

  lemma HalfNoSeq(w: nat)
    ensures !HalfSplit().SeqWire(w)
  {
    forall b: nat ensures !SeqReads(HalfDriven(), b) {}
  }

  lemma BufStep(c: Cell, env: Env, x: nat, y: nat)
    requires c == Logic(Buf, [Net(x)], [y]) && x < |env| && y < |env|
    ensures Step(c, env, []) == env[y := env[x]]
  {
    assert Values([Net(x)], env) == [env[x]];
  }

  lemma HalfSweep(env: Env)
    requires |env| == 4
    ensures Sweep(HalfDriven(), [0, 1], env, []) == [env[0], env[0], env[2], env[2]]
  {
    var d := HalfDriven();
    var order: seq<nat> := [0, 1];
    BufStep(d.cells[0], env, 0, 1);
    var e1 := env[1 := env[0]];
    assert SweepTo(d, order, 1, env, []) == e1;
    BufStep(d.cells[1], e1, 2, 3);
  }

  /** An undriven bit of an uninitialised local reads as whatever the stack held. */
  lemma JunkRead(m: Machine, junk: Env)
    requires m.st == [false, false, false, false] && m.mem == []
    requires junk == [false, false, true, false]
    ensures var s := HalfSplit();
      var c := CombCall([false, false, false, false], [], junk);
      GatedStep(s, m, ColdStart(s), c).0.outs == [[true]] && RefStep(s, m, c).outs == [[false]]
  {
    var s, inp := HalfSplit(), [false, false, false, false];
    HalfWire(0);
    var g := ColdStart(s);
    var g1 := Compare(s, Input, Initialised(g), inp);
    HalfLocals(g1.nets, junk);
    assert IsDirty(Initialised(g).dirty, 0);
    HalfPass(Pass(Locals(s, g1.nets, m.st, inp, junk), g1.sh, g1.dirty));
    HalfEmit([false, false, true, true], m.outs);
    HalfSweep(inp);
    assert Base(s.d, m.st, inp) == inp;
    HalfEmit(inp, m.outs);
  }

  lemma HalfPass(x: Pass)
    requires HalfSplit().Shaped() && x.vals == [false, false, true, false] && IsDirty(x.dirty, 0)
    ensures RunPass(HalfSplit(), 1, x, []).vals == [false, false, true, true]
  {
    assert RunPass(HalfSplit(), 0, x, []) == x;
    assert BlockCells(HalfSplit(), 0) == [0, 1];
    HalfSweep(x.vals);
  }

  lemma HalfEmit(nets: Env, prev: seq<seq<bool>>)
    requires |nets| == 4
    ensures OutCone.EmitOutputs(HalfDriven(), nets, [], prev) == [[nets[3]]]
  {
    assert PortBits(HalfDriven(), nets, 0) == [nets[3]];
  }

  lemma HalfLocals(nets: Env, junk: Env)
    requires HalfSplit().Shaped() && nets == [false, false, false, false] && junk == [false, false, true, false]
    ensures Locals(HalfSplit(), nets, nets, nets, junk) == junk
  {
    var s := HalfSplit();
    forall b | 0 <= b < 4 ensures Locals(s, nets, nets, nets, junk)[b] == junk[b] {
      HalfWire(s.d.wireOf[b]);
      assert b == 0 || b == 1 || b == 2 || b == 3;
    }
  }

  // ---------------------------------------------------------------- above the width

  function Any(ins: seq<bool>, j: nat): bool { j == 0 && exists i :: 0 <= i < |ins| && ins[i] }

  /** Wire 1 has five bits, driven in two slices by cells 0 and 1; cell 2 reduces the whole wire to wire 2. */
  function TwoSlices(): Design {
    Design([0, 1, 1, 1, 1, 1, 2], [Input, Comb, Comb],
           [Logic(Buf, [Net(0)], [1, 2]), Logic(Buf, [Net(0)], [3, 4, 5]),
            Logic(Any, [Net(1), Net(2), Net(3), Net(4), Net(5)], [6])], [], [], [[6]])
  }

  function TwoSplit(): (s: Split)
    ensures s.Shaped()
  {
    Split(TwoSlices(), [0, 1, 2], 1, [0, 3])
  }

  /** Cell 2 reads the bare word. */
  function TwoWords(): Words { Words(false, [[], [], [[Net(1), Net(2), Net(3), Net(4), Net(5)]]]) }

  function TwoFns(): (fns: Fns)
    ensures |fns| == 3
  {
    GatedJunk.PlainFns(TwoSlices())[2 := Any]
  }

  lemma TwoPins(c: nat, b: nat)
    ensures Drives(TwoSlices(), c, b) <==> (c == 0 && 1 <= b <= 2) || (c == 1 && 3 <= b <= 5) || (c == 2 && b == 6)
    ensures Reads(TwoSlices(), c, b) <==> (c < 2 && b == 0) || (c == 2 && 1 <= b <= 5)
  {
    var d := TwoSlices();
    if c < 2 { assert d.cells[c].ins == [Net(0)]; }
  }

  lemma TwoDriven(b: nat)
    ensures Driven(TwoSlices(), b) <==> 1 <= b <= 6
  {
    forall c: nat ensures Drives(TwoSlices(), c, b) ==> 1 <= b <= 6 { TwoPins(c, b); }
    if 1 <= b <= 6 {
      TwoPins(if b <= 2 then 0 else if b <= 5 then 1 else 2, b);
    }
  }

  lemma TwoFormed()
    ensures WellFormed(TwoSlices())
  {
    var d := TwoSlices();
    forall c: nat, b: nat
      ensures Drives(d, c, b) <==> (c == 0 && 1 <= b <= 2) || (c == 1 && 3 <= b <= 5) || (c == 2 && b == 6)
      ensures Reads(d, c, b) <==> (c < 2 && b == 0) || (c == 2 && 1 <= b <= 5)
    {
      TwoPins(c, b);
    }
    assert forall b: nat :: 1 <= b <= 6 ==> KindOf(d, b) == Comb;
  }

  lemma TwoValid()
    ensures TwoSplit().Valid()
  {
    TwoFormed();
    TwoReady();
  }

  lemma TwoReady()
    ensures Topological(TwoSlices(), [0, 1, 2])
  {
    var d, order: seq<nat> := TwoSlices(), [0, 1, 2];
    forall i | 0 <= i < 3 ensures ReadyAt(d, order, i) {
      forall b: nat, p: nat | Reads(d, order[i], b) && Drives(d, p, b) ensures p in order[..i] {
        TwoPins(order[i], b);
        TwoPins(p, b);
        assert order[..i] == [0, 1, 2][..i] && (p < i ==> order[..i][p] == p);
      }
    }
    assert order[0] in order && order[1] in order && order[2] in order;
  }

  /** Wire 1 is an uninitialised local. */
  lemma TwoLocal()
    ensures LocalWire(TwoSplit(), 1)
  {
    var s := TwoSplit();
    assert s.order[0] == 0 && s.order[1] == 1 && s.order[2] == 2 && s.cuts[0] == 0 && s.cuts[1] == 3;
    assert s.d.cells[0].outs[0] == 1 && s.WireIs(1, 1);
    assert s.CellWrites(s.order[0], 1);
    assert s.WritesIn(0, 1);
    assert !CrossBlock(s, 1);
    forall b: nat ensures !SeqReads(s.d, b) {}
    assert !OutputWire(s, 1) by { assert s.d.outputs[0][0] == 6 && !s.WireIs(6, 1); }
  }

  lemma TwoWire()
    ensures WireBits(TwoSlices(), 1) == [1, 2, 3, 4, 5]
  {
    var f := TwoSlices().wireOf;
    assert BitsOf(f, 1, 1) == [];
    assert BitsOf(f, 1, 2) == [1];
    assert BitsOf(f, 1, 3) == [1, 2];
    assert BitsOf(f, 1, 4) == [1, 2, 3];
    assert BitsOf(f, 1, 5) == [1, 2, 3, 4];
    assert BitsOf(f, 1, 6) == [1, 2, 3, 4, 5];
  }

  lemma TwoBits()
    ensures Padded(TwoSlices(), TwoWords(), 1) && ReadsWhole(TwoSlices(), TwoWords(), 2, 1)
    ensures !StoredSomewhere(TwoSlices(), 1)
  {
    TwoWire();
    TwoWhole(WireBits(TwoSlices(), 1));
  }

  lemma TwoWhole(q: seq<nat>)
    requires q == [1, 2, 3, 4, 5]
    ensures Within(Nets(q), TwoWords().scalars[2][0])
    ensures forall c: nat :: c < 3 ==> !Within(q, TwoSlices().cells[c].outs)
  {
    assert Nets(q) == TwoWords().scalars[2][0];
    assert StandsAt(Nets(q), TwoWords().scalars[2][0], 0);
  }

  lemma TwoStorage()
    ensures StorageOk(TwoSplit(), TwoWords(), TwoFns())
  {
    var s, k, fns := TwoSplit(), TwoWords(), TwoFns();
    TwoValid();
    forall b: nat ensures !SeqReads(s.d, b) {}
    forall c: nat, x: seq<bool>, j: nat | c < |s.d.cells| && |x| == |s.d.cells[c].ins| + |PadsRead(s.d, k, c)| &&
      NoneSet(x, |s.d.cells[c].ins|) && j < |s.d.cells[c].outs| + |PadsStored(s.d, k, c)|
      ensures fns[c](x, j) == (j < |s.d.cells[c].outs| && s.d.cells[c].fn(x[..|s.d.cells[c].ins|], j))
    {
      if c == 2 { AnyPrefix(x, 5, j); } else { assert fns[c] == GatedJunk.PlainFn(s.d.cells[c]); }
    }
  }

  lemma AnyPrefix(x: seq<bool>, n: nat, j: nat)
    requires n <= |x| && NoneSet(x, n)
    ensures Any(x, j) == Any(x[..n], j)
  {
    forall i | 0 <= i < |x| && x[i] ensures i < n && x[..n][i] {}
  }

  /** Its wiring reads no undriven bit, but a local that is only stored in slices as a whole. */
  lemma TwoUnsafe()
    ensures LocalReadsDriven(TwoSplit()) && !StorageSafe(TwoSplit(), TwoWords())
  {
    var s := TwoSplit();
    TwoValid();
    TwoLocal();
    TwoBits();
    forall c: nat, b: nat | DrivesSome(s.d, c) && Reads(s.d, c, b) && LocalWire(s, s.d.wireOf[b]) ensures Driven(s.d, b) {
      TwoPins(c, b);
      TwoDriven(b);
      if b == 0 { BoundaryIsComb(s, b); }
    }
    assert DrivesSome(s.d, 2);
  }

  /** Every solution on words with the padding of wire 1 set has the output set. */
  lemma PaddingShows(base: Env)
    requires |base| == 10 && base[8]
    ensures Sweep(Stored(TwoSlices(), TwoWords(), TwoFns()), [0, 1, 2], base, [])[6]
  {
    var s, k, fns := TwoSplit(), TwoWords(), TwoFns();
    var t := Stored(s.d, k, fns);
    TwoStorage();
    TwoBits();
    StoredValid(s, k, fns);
    var e := Sweep(t, s.order, base, []);
    SweepSolves(t, s.order, base, []);
    forall c: nat ensures !Drives(t, c, 8) { StoredPadPins(s.d, k, fns, c, 1); }
    StoredPadPins(s.d, k, fns, 2, 1);
    assert Reads(t, 2, 8) && e[8];
    WordSet(t.cells[2], e, 8);
    assert Holds(t, 2, e, []);
    assert t.cells[2].outs[0] == 6 && Pos(t.cells[2].outs, 6) == 0;
  }

  lemma WordSet(c: Cell, e: Env, b: nat)
    requires c.Logic? && c.fn == Any && Net(b) in c.ins && b < |e| && e[b]
    ensures OutBit(c, e, [], 0)
  {
    var i :| 0 <= i < |c.ins| && c.ins[i] == Net(b);
    assert Values(c.ins, e)[i];
  }

  lemma TwoZero(st: Env)
    ensures !Eval(TwoSlices(), [0, 1, 2], st, [], [])[6]
  {
    var d := TwoSlices();
    var base, e := Base(d, st, []), Eval(d, [0, 1, 2], st, [], []);
    TwoValid();
    SweepSolves(d, [0, 1, 2], base, []);
    TwoDriven(0);
    assert !e[0];
    assert Holds(d, 0, e, []) && Holds(d, 1, e, []) && Holds(d, 2, e, []);
    assert Values([Net(0)], e) == [false];
    forall b: nat | 1 <= b <= 5 ensures !e[b] { TwoPins(if b <= 2 then 0 else 1, b); }
    var ins := d.cells[2].ins;
    forall i | 0 <= i < 5 ensures !Values(ins, e)[i] { assert ins[i] == Net(i + 1); }
    TwoPins(2, 6);
  }

  /** The words above the width of a local stored in slices reach the output, though the wire is driven completely. */
  lemma JunkAboveWidth(m: Machine, junk: Env)
    requires |m.st| == 7 && m.mem == [] && junk == GatedJunk.OneBit(10, PadBit(TwoSlices(), 1))
    ensures var s, k, fns, c := TwoSplit(), TwoWords(), TwoFns(), CombCall([], [], junk);
      && StorageOk(s, k, fns) && LocalReadsDriven(s) && !StorageSafe(s, k) && StoredSplit(s, k, fns).Shaped()
      && (forall b: nat :: 1 <= b <= 5 ==> Driven(s.d, b))
      && GatedStep(StoredSplit(s, k, fns), StoredMachine(s.d, m), ColdStart(StoredSplit(s, k, fns)), c).0.outs == [[true]]
      && RefStep(s, m, c).outs == [[false]]
  {
    var s, k, fns := TwoSplit(), TwoWords(), TwoFns();
    TwoValid();
    TwoStorage();
    TwoUnsafe();
    forall b: nat ensures Driven(s.d, b) <==> 1 <= b <= 6 { TwoDriven(b); }
    var t, st := StoredSplit(s, k, fns), StoredState(s.d, m.st);
    StoredValid(s, k, fns);
    var nets := GatedJunk.ColdSettle(t, st, [], [], junk);
    TwoStart(nets, st, junk);
    PaddingShows(Locals(t, nets, st, [], junk));
    TwoEmit(t.d, Settle(t, ColdStart(t), st, [], [], junk).nets, m.outs);
    TwoZero(m.st);
    TwoEmit(s.d, Eval(s.d, s.order, m.st, [], []), m.outs);
  }

  lemma TwoStart(nets: Env, st: Env, junk: Env)
    requires junk == GatedJunk.OneBit(10, PadBit(TwoSlices(), 1))
    ensures var t := StoredSplit(TwoSplit(), TwoWords(), TwoFns());
      t.Shaped() && |Locals(t, nets, st, [], junk)| == 10 && Locals(t, nets, st, [], junk)[8]
  {
    var s, k, fns := TwoSplit(), TwoWords(), TwoFns();
    TwoStorage();
    TwoLocal();
    StoredPlan(s, k, fns, 1);
    StoredPadKind(s.d, k, fns, 1);
    PadStart(StoredSplit(s, k, fns), nets, st, junk, PadBit(s.d, 1));
  }

  lemma PadStart(s: Split, nets: Env, st: Env, junk: Env, b: nat)
    requires s.Shaped() && b < |s.d.wireOf| && LocalWire(s, s.d.wireOf[b]) && b < |junk| && junk[b]
    ensures |Locals(s, nets, st, [], junk)| == |s.d.wireOf| && Locals(s, nets, st, [], junk)[b]
  {
  }

  lemma TwoEmit(d: Design, nets: Env, prev: seq<seq<bool>>)
    requires d.outputs == [[6]] && |nets| > 6
    ensures OutCone.EmitOutputs(d, nets, [], prev) == [[nets[6]]]
  {
    assert PortBits(d, nets, 0) == [nets[6]];
  }
}
