/** Runs on storage words. */
module StorageRun {
  // The storage form of a design computes what the design computes: by full evaluation always, and by
  // gated evaluation from consistent statics when its wiring is safe.

  import opened Bits
  import opened Netlist
  import opened Clocking
  import opened CombSplit
  import opened Gated
  import opened Storage
  import OutCone

  // ---------------------------------------------------------------- full evaluation

  /** A design whose storage is laid out as `k` and `fns` say. */
  ghost predicate StorageOk(s: Split, k: Words, fns: Fns) {
    s.Valid() && Closed(s.d) && ScalarsOk(s.d, k) && WordFns(s.d, k, fns)
  }

  /** `r` holds `e` on the bits of the design. */
  ghost predicate Mirrors(d: Design, r: Env, e: Env) {
    |r| == |d.wireOf| + |d.kind| && |e| == |d.wireOf| && r[..|d.wireOf|] == e
  }

  /** The padding of combinational wires is clear. */
  ghost predicate PadsClear(d: Design, r: Env) {
    |r| == |d.wireOf| + |d.kind| && forall w: nat :: w < |d.kind| && d.kind[w] == Comb ==> !r[PadBit(d, w)]
  }

  lemma MirrorBit(d: Design, r: Env, e: Env, b: nat)
    requires Mirrors(d, r, e) && b < |d.wireOf|
    ensures r[b] == e[b]
  {
    assert r[b] == r[..|d.wireOf|][b];
  }

  lemma MirrorValue(d: Design, r: Env, e: Env, x: Sig)
    requires Mirrors(d, r, e) && (x.Net? ==> x.bit < |d.wireOf|)
    ensures Value(x, r) == Value(x, e)
  {
    if x.Net? { MirrorBit(d, r, e, x.bit); }
  }

  /** What a stored cell reads: the design's values and clear padding. */
  lemma StoredValues(d: Design, k: Words, fns: Fns, c: nat, r: Env, e: Env)
    requires |d.cells| == |fns| && WellFormed(d) && c < |d.cells| && Mirrors(d, r, e) && PadsClear(d, r)
    ensures var x := Values(StoredCell(d, k, fns, c).ins, r);
      && |x| >= |d.cells[c].ins| && x[..|d.cells[c].ins|] == Values(d.cells[c].ins, e) && NoneSet(x, |d.cells[c].ins|)
  {
    var ins, q := d.cells[c].ins, StoredCell(d, k, fns, c).ins;
    var x := Values(q, r);
    forall i | 0 <= i < |ins| ensures x[i] == Value(ins[i], e) {
      assert q[i] == ins[i];
      if ins[i].Net? { assert Reads(d, c, ins[i].bit); }
      MirrorValue(d, r, e, ins[i]);
    }
    var ws := PadsRead(d, k, c);
    forall i | |ins| <= i < |q| ensures !x[i] {
      var w := ws[i - |ins|];
      assert w in ws && q[i] == Net(PadBit(d, w));
      assert Padded(d, k, w);
    }
  }

  /** What it computes: the design's output bits, and clear padding. */
  lemma StoredOut(d: Design, k: Words, fns: Fns, c: nat, r: Env, e: Env, mem: Mem, j: nat)
    requires WordFns(d, k, fns) && WellFormed(d) && c < |d.cells| && Mirrors(d, r, e) && PadsClear(d, r) && MemFits(d, mem)
    requires j < |d.cells[c].outs| + |PadsStored(d, k, c)|
    ensures OutBit(StoredCell(d, k, fns, c), r, mem, j) == (j < |d.cells[c].outs| && OutBit(d.cells[c], e, mem, j))
  {
    StoredValues(d, k, fns, c, r, e);
    var x := Values(StoredCell(d, k, fns, c).ins, r);
    if d.cells[c].Logic? {
      assert |x| == |d.cells[c].ins| + |PadsRead(d, k, c)|;
    } else {
      assert x == Values(d.cells[c].ins, e);
      assert |WordAt(mem, d.cells[c].mem, Num(x))| <= |d.cells[c].outs|;
    }
  }

  lemma StoredBase(d: Design, k: Words, fns: Fns, r: Env, st: Env, inp: Env)
    requires |d.cells| == |fns| && WellFormed(d) && Mirrors(d, r, st)
    ensures Mirrors(d, Base(Stored(d, k, fns), r, inp), Base(d, st, inp)) && PadsClear(d, Base(Stored(d, k, fns), r, inp))
  {
    var s := Stored(d, k, fns);
    forall b: nat | b < |d.wireOf| ensures Base(s, r, inp)[b] == Base(d, st, inp)[b] {
      StoredKind(d, k, fns, b);
      MirrorBit(d, r, st, b);
    }
    forall w: nat | w < |d.kind| && d.kind[w] == Comb ensures !Base(s, r, inp)[PadBit(d, w)] {
      StoredPadKind(d, k, fns, w);
    }
    assert Base(s, r, inp)[..|d.wireOf|] == Base(d, st, inp);
  }

  /** The first place of an output bit does not move when padding is appended. */
  lemma {:induction false} PosPrefix(a: seq<nat>, b: seq<nat>, x: nat)
    requires x in a
    ensures x in a + b && Pos(a + b, x) == Pos(a, x)
    decreases |a|
  {
    if a[0] == x {
    } else {
      assert (a + b)[1..] == a[1..] + b;
      PosPrefix(a[1..], b, x);
    }
  }

  lemma WordsHold(d: Design, k: Words, fns: Fns, c: nat, sol: Env, e: Env, mem: Mem)
    requires WordFns(d, k, fns) && WellFormed(d) && c < |d.cells| && MemFits(d, mem)
    requires Mirrors(d, sol, e) && PadsClear(d, sol) && Holds(d, c, e, mem)
    ensures Holds(Stored(d, k, fns), c, sol, mem)
  {
    var s := Stored(d, k, fns);
    var outs, q := d.cells[c].outs, PadBits(d, PadsStored(d, k, c));
    forall b: nat | b in s.cells[c].outs && b < |sol|
      ensures sol[b] == OutBit(s.cells[c], sol, mem, Pos(s.cells[c].outs, b))
    {
      assert s.cells[c].outs == outs + q;
      var j := Pos(outs + q, b);
      StoredOut(d, k, fns, c, sol, e, mem, j);
      if b in outs {
        PosPrefix(outs, q, b);
        assert Drives(d, c, b);
        MirrorBit(d, sol, e, b);
      } else {
        assert j >= |outs|;
        var w := PadsStored(d, k, c)[j - |outs|];
        assert w in PadsStored(d, k, c) && b == PadBit(d, w);
        assert Padded(d, k, w);
      }
    }
  }

  lemma WordsUndriven(d: Design, k: Words, fns: Fns, sol: Env, e: Env, base: Env, base0: Env, mem: Mem, b: nat)
    requires |d.cells| == |fns| && WellFormed(d) && Mirrors(d, sol, e) && Mirrors(d, base, base0) && Solves(d, e, base0, mem)
    requires sol[|d.wireOf|..] == base[|d.wireOf|..] && b < |sol| && !Driven(Stored(d, k, fns), b)
    ensures sol[b] == base[b]
  {
    if b < |d.wireOf| {
      forall c: nat ensures !Drives(d, c, b) {
        StoredPins(d, k, fns, c, b);
        assert !Drives(Stored(d, k, fns), c, b);
      }
      MirrorBit(d, sol, e, b);
      MirrorBit(d, base, base0, b);
    } else {
      assert sol[b] == sol[|d.wireOf|..][b - |d.wireOf|];
    }
  }

  /** Full evaluation of the storage form is full evaluation of the design, with clear padding. */
  lemma StoredEval(s: Split, k: Words, fns: Fns, r: Env, st: Env, inp: Env, mem: Mem)
    requires s.Valid() && ScalarsOk(s.d, k) && WordFns(s.d, k, fns) && MemFits(s.d, mem) && Mirrors(s.d, r, st)
    ensures Mirrors(s.d, Eval(Stored(s.d, k, fns), s.order, r, inp, mem), Eval(s.d, s.order, st, inp, mem))
    ensures PadsClear(s.d, Eval(Stored(s.d, k, fns), s.order, r, inp, mem))
  {
    var d, t := s.d, Stored(s.d, k, fns);
    var e, base0, base := Eval(d, s.order, st, inp, mem), Base(d, st, inp), Base(t, r, inp);
    StoredBase(d, k, fns, r, st, inp);
    SweepSolves(d, s.order, base0, mem);
    var sol := e + base[|d.wireOf|..];
    assert sol[..|d.wireOf|] == e && sol[|d.wireOf|..] == base[|d.wireOf|..];
    WordsClear(d, sol, e, base);
    StoredValid(s, k, fns);
    forall c: nat | c < |t.cells| ensures Holds(t, c, sol, mem) { WordsHold(d, k, fns, c, sol, e, mem); }
    forall b: nat | b < |sol| && !Driven(t, b) ensures sol[b] == base[b] {
      WordsUndriven(d, k, fns, sol, e, base, base0, mem, b);
    }
    SolutionUnique(t, s.order, base, mem, sol);
  }

  lemma WordsClear(d: Design, sol: Env, e: Env, base: Env)
    requires PadsClear(d, base) && |e| == |d.wireOf| && sol == e + base[|d.wireOf|..]
    ensures PadsClear(d, sol)
  {
    forall w: nat | w < |d.kind| && d.kind[w] == Comb ensures !sol[PadBit(d, w)] {
      assert sol[PadBit(d, w)] == base[PadBit(d, w)];
    }
  }

  /** A gated settle of the words leaves every kept net with its full-evaluation value, whatever uninitialised
      locals hold above and below their width. */
  lemma StoredSettleCorrect(s: Split, k: Words, fns: Fns, g: Statics, r: Env, st: Env, inp: Env, mem: Mem, junk: Env, full: Env)
    requires StorageOk(s, k, fns) && MemFits(s.d, mem) && Mirrors(s.d, r, st)
    requires Inv(StoredSplit(s, k, fns), r, mem, g, full)
    ensures KeptRight(s, Settle(StoredSplit(s, k, fns), g, r, inp, mem, junk).nets, Eval(s.d, s.order, st, inp, mem))
  {
    var t := StoredSplit(s, k, fns);
    var nets, x, e := Settle(t, g, r, inp, mem, junk).nets, Eval(t.d, s.order, r, inp, mem), Eval(s.d, s.order, st, inp, mem);
    SettleCorrect(t, g, r, inp, mem, junk, full);
    StoredEval(s, k, fns, r, st, inp, mem);
    forall b: nat | b < |s.d.wireOf| && !LocalWire(s, s.d.wireOf[b]) ensures nets[b] == e[b] {
      StoredKind(s.d, k, fns, b);
      StoredPlan(s, k, fns, s.d.wireOf[b]);
      MirrorBit(s.d, x, e, b);
    }
  }

  ghost predicate KeptRight(s: Split, nets: Env, e: Env)
    requires s.Shaped()
  {
    |nets| >= |e| == |s.d.wireOf| && forall b: nat :: b < |e| && !LocalWire(s, s.d.wireOf[b]) ==> nets[b] == e[b]
  }

  // ---------------------------------------------------------------- the clock edge and the outputs

  lemma EdgeState(d: Design, k: Words, fns: Fns, r: Env, e: Env, rs: Env, st: Env)
    requires |d.cells| == |fns| && WellFormed(d) && Closed(d) && Mirrors(d, r, e) && Mirrors(d, rs, st)
    ensures Mirrors(d, NextState(Stored(d, k, fns), r, rs), NextState(d, e, st))
  {
    var t := Stored(d, k, fns);
    forall b: nat | b < |d.wireOf| ensures NextState(t, r, rs)[b] == NextState(d, e, st)[b] {
      var x := SliceOf(d.slices, b);
      MirrorBit(d, rs, st, b);
      if x < |d.slices| {
        var sl := d.slices[x];
        assert sl.en.Net? ==> SeqReads(d, sl.en.bit);
        MirrorValue(d, r, e, sl.en);
        var y := sl.d[Pos(sl.q, b)];
        assert y.Net? ==> SeqReads(d, y.bit);
        MirrorValue(d, r, e, y);
      }
    }
    assert NextState(t, r, rs)[..|d.wireOf|] == NextState(d, e, st);
  }

  lemma EdgePort(d: Design, r: Env, e: Env, w: MemWrite)
    requires Closed(d) && Mirrors(d, r, e) && w in d.writes
    ensures SamePort(w, r, e)
  {
    forall x | x in w.addr || x in w.data || x in w.en ensures Value(x, r) == Value(x, e) {
      assert x.Net? ==> SeqReads(d, x.bit);
      MirrorValue(d, r, e, x);
    }
    assert Values(w.addr, r) == Values(w.addr, e);
  }

  lemma EdgeMem(d: Design, k: Words, fns: Fns, r: Env, e: Env, mem: Mem)
    requires |d.cells| == |fns| && Closed(d) && Mirrors(d, r, e)
    ensures NextMem(Stored(d, k, fns), r, mem) == NextMem(d, e, mem)
  {
    SortedWritesAscending(d.writes);
    forall w | w in SortedWrites(d.writes) ensures SamePort(w, r, e) { EdgePort(d, r, e, w); }
    PortsFrame(SortedWrites(d.writes), r, e, mem);
  }

  /** A write changes no word's width. */
  lemma {:induction false} WordWidths(ws: seq<MemWrite>, env: Env, mem: Mem, m: nat, a: nat)
    ensures |WordAt(WritePorts(ws, env, mem), m, a)| == |WordAt(mem, m, a)|
  {
    if ws == [] {
    } else {
      WordWidths(ws[..|ws|-1], env, mem, m, a);
    }
  }

  lemma FitsAfterEdge(d: Design, env: Env, mem: Mem)
    requires MemFits(d, mem)
    ensures MemFits(d, NextMem(d, env, mem))
  {
    forall c: nat, a: nat | c < |d.cells| && d.cells[c].MemRead?
      ensures |WordAt(NextMem(d, env, mem), d.cells[c].mem, a)| <= |d.cells[c].outs|
    {
      WordWidths(SortedWrites(d.writes), env, mem, d.cells[c].mem, a);
    }
  }

  lemma EdgeOutputs(d: Design, k: Words, fns: Fns, r: Env, e: Env, live: seq<bool>, prev: seq<seq<bool>>)
    requires |d.cells| == |fns| && Closed(d) && Mirrors(d, r, e)
    ensures OutCone.EmitOutputs(Stored(d, k, fns), r, live, prev) == OutCone.EmitOutputs(d, e, live, prev)
  {
    var t := Stored(d, k, fns);
    forall o | 0 <= o < |d.outputs| ensures PortBits(t, r, o) == PortBits(d, e, o) {
      forall i | 0 <= i < |d.outputs[o]| ensures Value(Net(d.outputs[o][i]), r) == Value(Net(d.outputs[o][i]), e) {
        MirrorValue(d, r, e, Net(d.outputs[o][i]));
      }
    }
  }

  // ---------------------------------------------------------------- runs

  ghost predicate MachineMirrors(d: Design, r: Machine, m: Machine) {
    Mirrors(d, r.st, m.st) && r.mem == m.mem && r.outs == m.outs
  }

  lemma RefStepMirrors(s: Split, k: Words, fns: Fns, r: Machine, m: Machine, c: Call)
    requires StorageOk(s, k, fns) && MachineMirrors(s.d, r, m) && MemFits(s.d, m.mem)
    ensures MachineMirrors(s.d, RefStep(StoredSplit(s, k, fns), r, c), RefStep(s, m, c))
    ensures MemFits(s.d, RefStep(s, m, c).mem)
  {
    var t := Stored(s.d, k, fns);
    var x, e := Eval(t, s.order, r.st, c.inp, m.mem), Eval(s.d, s.order, m.st, c.inp, m.mem);
    StoredEval(s, k, fns, r.st, m.st, c.inp, m.mem);
    match c
    case CombCall(inp, live, _) => EdgeOutputs(s.d, k, fns, x, e, live, m.outs);
    case ClockCall(_, _) =>
      EdgeState(s.d, k, fns, x, e, r.st, m.st);
      EdgeMem(s.d, k, fns, x, e, m.mem);
      FitsAfterEdge(s.d, e, m.mem);
    case ClockOutCall(inp, live) =>
      EdgeState(s.d, k, fns, x, e, r.st, m.st);
      EdgeMem(s.d, k, fns, x, e, m.mem);
      FitsAfterEdge(s.d, e, m.mem);
      var rs, st, mem := NextState(t, x, r.st), NextState(s.d, e, m.st), NextMem(s.d, e, m.mem);
      StoredEval(s, k, fns, rs, st, inp, mem);
      EdgeOutputs(s.d, k, fns, Eval(t, s.order, rs, inp, mem), Eval(s.d, s.order, st, inp, mem), live, m.outs);
  }

  ghost predicate RunMirrors(d: Design, rs: seq<Machine>, ms: seq<Machine>) {
    |rs| == |ms| && forall i :: 0 <= i < |rs| ==> MachineMirrors(d, rs[i], ms[i])
  }

  lemma {:induction false} RefRunMirrors(s: Split, k: Words, fns: Fns, r: Machine, m: Machine, calls: seq<Call>)
    requires StorageOk(s, k, fns) && MachineMirrors(s.d, r, m) && MemFits(s.d, m.mem)
    ensures RunMirrors(s.d, RefRun(StoredSplit(s, k, fns), r, calls), RefRun(s, m, calls))
    decreases |calls|
  {
    if calls == [] {
    } else {
      RefStepMirrors(s, k, fns, r, m, calls[0]);
      RefRunMirrors(s, k, fns, RefStep(StoredSplit(s, k, fns), r, calls[0]), RefStep(s, m, calls[0]), calls[1..]);
    }
  }

  /** Over every sequence of calls the gated code on storage words has the registers, memories and outputs of
      full evaluation of the design, whatever its uninitialised locals hold above and below their width. */
  lemma StoredRunCorrect(s: Split, k: Words, fns: Fns, r: Machine, m: Machine, g: Statics, calls: seq<Call>)
    requires StorageOk(s, k, fns) && MachineMirrors(s.d, r, m) && MemFits(s.d, m.mem)
    requires StoredSplit(s, k, fns).Shaped() && Consistent(StoredSplit(s, k, fns), r, g)
    ensures RunMirrors(s.d, GatedRun(StoredSplit(s, k, fns), r, g, calls), RefRun(s, m, calls))
  {
    GatedRunCorrect(StoredSplit(s, k, fns), r, g, calls);
    RefRunMirrors(s, k, fns, r, m, calls);
  }

  /** A machine on words. */
  function StoredMachine(d: Design, m: Machine): (r: Machine) { m.(st := StoredState(d, m.st)) }

  lemma StoredMirrors(d: Design, m: Machine)
    requires |m.st| == |d.wireOf|
    ensures MachineMirrors(d, StoredMachine(d, m), m)
  {
  }

  lemma StoredRegistersZero(s: Split, k: Words, fns: Fns, m: Machine)
    requires StorageOk(s, k, fns) && |m.st| == |s.d.wireOf| && ReadRegistersZero(s, m.st)
    ensures var t := StoredSplit(s, k, fns); t.Valid() && ReadRegistersZero(t, StoredMachine(s.d, m).st)
  {
    var t, r := StoredSplit(s, k, fns), StoredMachine(s.d, m);
    StoredValid(s, k, fns);
    forall b: nat | b < |t.d.wireOf| && KindOf(t.d, b) == Register && ReadSomewhere(t, t.d.wireOf[b])
      ensures !Value(Net(b), r.st)
    {
      if b < |s.d.wireOf| {
        StoredKind(s.d, k, fns, b);
        StoredPlan(s, k, fns, s.d.wireOf[b]);
        assert r.st[b] == m.st[b] && !Value(Net(b), m.st);
      }
    }
  }

  /** A safe wiring whose read registers start at zero starts consistent. */
  lemma StoredColdStart(s: Split, k: Words, fns: Fns, m: Machine)
    requires StorageOk(s, k, fns) && StorageSafe(s, k) && |m.st| == |s.d.wireOf| && |s.d.outputs| <= OutCone.MASK_BITS
    requires ReadRegistersZero(s, m.st)
    ensures var t := StoredSplit(s, k, fns);
      t.Valid() && LocalReadsDriven(t) && Consistent(t, StoredMachine(s.d, m), ColdStart(t))
  {
    StoredReadsDriven(s, k, fns);
    StoredRegistersZero(s, k, fns, m);
    ColdStartConsistent(StoredSplit(s, k, fns), StoredMachine(s.d, m));
  }
}
