/** Uninitialised locals. */
module GatedJunk {
  // For which wirings the uninitialised locals of a gated call do no harm, exactly.
  //
  // A wiring fixes the order, the blocks, what every cell reads and drives, and which of its
  // operands are bare words; the functions of the cells are free, also on words with set padding.

  import opened Bits
  import opened Netlist
  import opened CombSplit
  import opened Gated
  import opened Storage
  import opened StorageRun
  import Clocking

  ghost predicate SameWiring(s: Split, s': Split) {
    && s'.order == s.order && s'.parts == s.parts && s'.cuts == s.cuts
    && |s'.d.cells| == |s.d.cells| && s'.d == s.d.(cells := s'.d.cells)
    && forall c: nat :: c < |s.d.cells| ==> SamePins(s.d.cells[c], s'.d.cells[c])
  }

  predicate SamePins(c: Cell, c': Cell) { c'.ins == c.ins && c'.outs == c.outs }

  /** After the first settle of the words every driven bit has its full-evaluation value. */
  ghost predicate SettlesRight(s: Split, k: Words, fns: Fns, st: Env, inp: Env, mem: Mem, junk: Env)
    requires |fns| == |s.d.cells| && StoredSplit(s, k, fns).Shaped()
  {
    forall b: nat :: Driven(s.d, b) ==>
      Value(Net(b), FirstNets(StoredSplit(s, k, fns), StoredState(s.d, st), inp, mem, junk)) ==
      Value(Net(b), Eval(s.d, s.order, st, inp, mem))
  }

  function FirstNets(s: Split, st: Env, inp: Env, mem: Mem, junk: Env): Env
    requires s.Shaped()
  {
    Settle(s, ColdStart(s), st, inp, mem, junk).nets
  }

  /** What a cell may compute, and what memory and registers hold. */
  ghost predicate Admissible(s: Split, s': Split, k: Words, fns: Fns, st: Env, mem: Mem) {
    s'.Valid() && SameWiring(s, s') && WordFns(s'.d, k, fns) && MemFits(s'.d, mem) && |st| == |s'.d.wireOf|
  }

  /** Whatever the cells compute and whatever the stack holds. */
  ghost predicate JunkSafe(s: Split, k: Words) {
    forall s': Split, fns: Fns, st: Env, inp: Env, mem: Mem, junk: Env :: Admissible(s, s', k, fns, st, mem) ==>
      SettlesRight(s', k, fns, st, inp, mem, junk)
  }

  // ---------------------------------------------------------------- what the wiring determines

  lemma SameCells(s: Split, s': Split, c: nat, x: nat)
    requires SameWiring(s, s')
    ensures Drives(s'.d, c, x) == Drives(s.d, c, x) && Reads(s'.d, c, x) == Reads(s.d, c, x)
    ensures DrivesSome(s'.d, c) == DrivesSome(s.d, c)
    ensures s'.CellWrites(c, x) == s.CellWrites(c, x) && s'.CellReads(c, x) == s.CellReads(c, x)
  {
    if c < |s.d.cells| { assert SamePins(s.d.cells[c], s'.d.cells[c]); }
    assert forall b: nat :: s'.WireIs(b, x) == s.WireIs(b, x);
  }

  lemma SameBlocks(s: Split, s': Split, p: nat, w: nat)
    requires SameWiring(s, s') && s.Shaped()
    ensures s'.Shaped() && s'.WritesIn(p, w) == s.WritesIn(p, w) && s'.ReadsIn(p, w) == s.ReadsIn(p, w)
  {
    forall i | 0 <= i < |s.order|
      ensures s'.CellWrites(s'.order[i], w) == s.CellWrites(s.order[i], w)
      ensures s'.CellReads(s'.order[i], w) == s.CellReads(s.order[i], w)
    {
      SameCells(s, s', s.order[i], w);
    }
  }

  lemma SameWires(s: Split, s': Split, w: nat)
    requires SameWiring(s, s') && s.Shaped()
    ensures s'.Shaped() && Written(s', w) == Written(s, w) && Boundary(s', w) == Boundary(s, w)
    ensures LocalWire(s', w) == LocalWire(s, w)
  {
    forall p: nat ensures s'.WritesIn(p, w) == s.WritesIn(p, w) && s'.ReadsIn(p, w) == s.ReadsIn(p, w) {
      SameBlocks(s, s', p, w);
    }
    SamePlan(s, s', w);
  }

  lemma SamePlan(s: Split, s': Split, w: nat)
    requires SameWiring(s, s') && s.Shaped() && s'.Shaped()
    requires forall p: nat :: s'.WritesIn(p, w) == s.WritesIn(p, w) && s'.ReadsIn(p, w) == s.ReadsIn(p, w)
    ensures Written(s', w) == Written(s, w) && Boundary(s', w) == Boundary(s, w)
  {
    assert CrossBlock(s', w) == CrossBlock(s, w);
    assert Written(s', w) == Written(s, w);
    SameEdges(s, s', w);
  }

  lemma SameEdges(s: Split, s': Split, w: nat)
    requires SameWiring(s, s')
    ensures s'.SeqWire(w) == s.SeqWire(w) && OutputWire(s', w) == OutputWire(s, w)
  {
    assert forall b: nat :: s'.WireIs(b, w) == s.WireIs(b, w);
    assert forall o: nat :: s'.OutputHas(o, w) == s.OutputHas(o, w);
    forall b: nat ensures Clocking.SeqReads(s'.d, b) == Clocking.SeqReads(s.d, b) {}
  }

  lemma SameValid(s: Split, s': Split)
    requires SameWiring(s, s') && s.Valid()
    ensures s'.Valid()
  {
    forall c: nat, x: nat ensures Drives(s'.d, c, x) == Drives(s.d, c, x) && Reads(s'.d, c, x) == Reads(s.d, c, x) {
      SameCells(s, s', c, x);
    }
    SameFormed(s.d, s'.d);
    assert forall b: nat :: KindOf(s'.d, b) == KindOf(s.d, b);
    forall i | 0 <= i < |s.order| ensures ReadyAt(s'.d, s'.order, i) { assert ReadyAt(s.d, s.order, i); }
  }

  lemma SameFormed(d: Design, d': Design)
    requires WellFormed(d) && |d'.cells| == |d.cells| && d' == d.(cells := d'.cells)
    requires forall c: nat :: c < |d.cells| ==> SamePins(d.cells[c], d'.cells[c])
    requires forall c: nat, x: nat :: Drives(d', c, x) == Drives(d, c, x) && Reads(d', c, x) == Reads(d, c, x)
    ensures WellFormed(d')
  {
    assert d'.slices == d.slices && d'.wireOf == d.wireOf && d'.kind == d.kind;
    assert SlicesOk(d');
  }

  lemma SameReadsDriven(s: Split, s': Split)
    requires SameWiring(s, s') && s.Shaped() && LocalReadsDriven(s)
    ensures s'.Shaped() && LocalReadsDriven(s')
  {
    forall c: nat, b: nat | DrivesSome(s'.d, c) && Reads(s'.d, c, b) && b < |s'.d.wireOf| && LocalWire(s', s'.d.wireOf[b])
      ensures Driven(s'.d, b)
    {
      SameCells(s, s', c, b);
      SameWires(s, s', s.d.wireOf[b]);
      var k: nat :| Drives(s.d, k, b);
      SameCells(s, s', k, b);
    }
  }

  // ---------------------------------------------------------------- the first settle

  ghost predicate AllDirty(s: Split, n: nat, dirty: seq<set<nat>>) {
    forall q: nat :: n <= q < s.parts ==> IsDirty(dirty, q)
  }

  /** A block run leaves the later blocks marked. */
  lemma StaysDirty(s: Split, p: nat, x: Pass, mem: Mem)
    requires s.Shaped() && p < s.parts && AllDirty(s, p, x.dirty)
    ensures AllDirty(s, p + 1, RunBlock(s, p, x, mem).dirty)
  {
  }

  /** One block of the sweep. */
  lemma BlockSweep(s: Split, p: nat, env: Env, mem: Mem)
    requires s.Shaped() && p < s.parts
    ensures Sweep(s.d, BlockCells(s, p), SweepTo(s.d, s.order, s.Lo(p), env, mem), mem) ==
      SweepTo(s.d, s.order, s.Lo(p + 1), env, mem)
  {
    var cells := BlockCells(s, p);
    s.LoMono(p);
    SweepSlice(s.d, s.order, s.Lo(p), cells, |cells|, env, mem);
  }

  /** A pass that has run every block below `n` and left the others marked. */
  ghost predicate Swept(s: Split, n: nat, x: Pass, y: Pass, mem: Mem)
    requires s.Shaped() && n <= s.parts
  {
    y.vals == SweepTo(s.d, s.order, s.Lo(n), x.vals, mem) && AllDirty(s, n, y.dirty)
  }

  lemma SweptNext(s: Split, n: nat, x: Pass, y: Pass, mem: Mem)
    requires s.Shaped() && n < s.parts && Swept(s, n, x, y, mem)
    ensures IsDirty(y.dirty, n) && Swept(s, n + 1, x, RunBlock(s, n, y, mem), mem)
  {
    StaysDirty(s, n, y, mem);
    BlockSweep(s, n, x.vals, mem);
  }

  /** With every block marked a pass is one sweep of the whole order. */
  lemma ColdPass(s: Split, n: nat, x: Pass, mem: Mem)
    requires s.Shaped() && n <= s.parts && AllDirty(s, 0, x.dirty)
    ensures RunPass(s, n, x, mem).vals == SweepTo(s.d, s.order, s.Lo(n), x.vals, mem)
  {
    assert RunPass(s, 0, x, mem) == x;
    for k := 0 to n
      invariant Swept(s, k, x, RunPass(s, k, x, mem), mem)
    {
      SweptNext(s, k, x, RunPass(s, k, x, mem), mem);
      assert RunPass(s, k + 1, x, mem) == RunBlock(s, k, RunPass(s, k, x, mem), mem);
    }
  }

  lemma ColdSettle(s: Split, st: Env, inp: Env, mem: Mem, junk: Env) returns (nets: Env)
    requires s.Valid()
    ensures |nets| == |s.d.wireOf| && NoneTrue(nets)
    ensures Settle(s, ColdStart(s), st, inp, mem, junk).nets == Sweep(s.d, s.order, Locals(s, nets, st, inp, junk), mem)
  {
    var g := ColdStart(s);
    var g1 := Compare(s, Input, Initialised(g), inp);
    nets := g1.nets;
    var x := Pass(Locals(s, nets, st, inp, junk), g1.sh, g1.dirty);
    assert AllDirty(s, 0, x.dirty);
    ColdPass(s, s.parts, x, mem);
  }

  ghost predicate NoneTrue(e: Env) { forall b :: 0 <= b < |e| ==> !e[b] }

  /** A bit a driving cell reads is driven before it, or starts at the value full evaluation gives it. */
  lemma StartsRight(s: Split, nets: Env, st: Env, inp: Env, mem: Mem, junk: Env, i: nat, b: nat)
    requires s.Valid() && LocalReadsDriven(s) && |nets| == |s.d.wireOf| && NoneTrue(nets)
    requires i < |s.order| && DrivesSome(s.d, s.order[i]) && Reads(s.d, s.order[i], b)
    ensures b < |s.d.wireOf|
    ensures Locals(s, nets, st, inp, junk)[b] == Eval(s.d, s.order, st, inp, mem)[b] ||
      exists k :: 0 <= k < i && Drives(s.d, s.order[k], b)
  {
    if Driven(s.d, b) {
      var p: nat :| Drives(s.d, p, b);
      assert ReadyAt(s.d, s.order, i);
      var k :| 0 <= k < i && s.order[k] == p;
    } else {
      SweepSolves(s.d, s.order, Base(s.d, st, inp), mem);
      if Boundary(s, s.d.wireOf[b]) { BoundaryIsComb(s, b); }
    }
  }

  lemma DrivenSafe(s: Split, st: Env, inp: Env, mem: Mem, junk: Env)
    requires s.Valid() && LocalReadsDriven(s)
    ensures BitsSettle(s, st, inp, mem, junk)
  {
    var nets := ColdSettle(s, st, inp, mem, junk);
    var env, sol := Locals(s, nets, st, inp, junk), Eval(s.d, s.order, st, inp, mem);
    SweepSolves(s.d, s.order, Base(s.d, st, inp), mem);
    forall i, b: nat | 0 <= i < |s.order| && DrivesSome(s.d, s.order[i]) && Reads(s.d, s.order[i], b)
      ensures b < |env| && (env[b] == sol[b] || exists k :: 0 <= k < i && Drives(s.d, s.order[k], b))
    {
      StartsRight(s, nets, st, inp, mem, junk, i, b);
    }
    RunRight(s.d, s.order, |s.order|, env, mem, sol);
    forall b: nat | Driven(s.d, b) && b < |env| ensures Sweep(s.d, s.order, env, mem)[b] == sol[b] {
      var p: nat :| Drives(s.d, p, b);
      assert p in s.order;
      var k :| 0 <= k < |s.order| && s.order[k] == p;
      assert Drives(s.d, s.order[k], b);
    }
  }

  /** On any design: after the first settle every driven bit has its full-evaluation value. */
  ghost predicate BitsSettle(s: Split, st: Env, inp: Env, mem: Mem, junk: Env)
    requires s.Shaped()
  {
    forall b: nat :: Driven(s.d, b) ==>
      Value(Net(b), FirstNets(s, st, inp, mem, junk)) == Value(Net(b), Eval(s.d, s.order, st, inp, mem))
  }

  // ---------------------------------------------------------------- safe wirings

  lemma SameStorage(s: Split, s': Split, k: Words)
    requires SameWiring(s, s') && s.Valid() && ScalarsOk(s.d, k) && Closed(s.d)
    ensures s'.Valid() && ScalarsOk(s'.d, k) && Closed(s'.d)
  {
    SameValid(s, s');
    forall b: nat ensures Clocking.SeqReads(s'.d, b) == Clocking.SeqReads(s.d, b) {}
    forall c, p, x | 0 <= c < |s'.d.cells| && 0 <= p < |k.scalars[c]| && x in k.scalars[c][p] ensures x in s'.d.cells[c].ins {
      assert SamePins(s.d.cells[c], s'.d.cells[c]);
    }
  }

  lemma SameStores(s: Split, s': Split, c: nat, w: nat)
    requires SameWiring(s, s')
    ensures StoresWhole(s'.d, c, w) == StoresWhole(s.d, c, w)
  {
    if c < |s.d.cells| { assert SamePins(s.d.cells[c], s'.d.cells[c]); }
  }

  lemma SameSafe(s: Split, s': Split, k: Words)
    requires SameWiring(s, s') && s.Valid() && StorageSafe(s, k)
    ensures s'.Shaped() && StorageSafe(s', k)
  {
    SameReadsDriven(s, s');
    forall c: nat, w: nat | DrivesSome(s'.d, c) && ReadsWhole(s'.d, k, c, w) && Padded(s'.d, k, w) && LocalWire(s', w)
      ensures StoredSomewhere(s'.d, w)
    {
      SameCells(s, s', c, w);
      SameWires(s, s', w);
      assert StoredSomewhere(s.d, w);
      var p: nat :| StoresWhole(s.d, p, w);
      SameStores(s, s', p, w);
    }
  }

  /** The first settle of a safe storage form is full evaluation of the design. */
  lemma SafeSettles(s: Split, k: Words, fns: Fns, st: Env, inp: Env, mem: Mem, junk: Env)
    requires StorageOk(s, k, fns) && StorageSafe(s, k) && MemFits(s.d, mem) && |st| == |s.d.wireOf|
    ensures StoredSplit(s, k, fns).Shaped() && SettlesRight(s, k, fns, st, inp, mem, junk)
  {
    var t, r := StoredSplit(s, k, fns), StoredState(s.d, st);
    StoredValid(s, k, fns);
    StoredReadsDriven(s, k, fns);
    DrivenSafe(t, r, inp, mem, junk);
    StoredEval(s, k, fns, r, st, inp, mem);
    forall b: nat | Driven(s.d, b)
      ensures Value(Net(b), FirstNets(t, r, inp, mem, junk)) == Value(Net(b), Eval(s.d, s.order, st, inp, mem))
    {
      StoredDriven(s, k, fns, b);
      MirrorValue(s.d, Eval(t.d, s.order, r, inp, mem), Eval(s.d, s.order, st, inp, mem), Net(b));
    }
  }

  lemma StoredDriven(s: Split, k: Words, fns: Fns, b: nat)
    requires |fns| == |s.d.cells| && s.Valid()
    ensures b < |s.d.wireOf| ==> Driven(Stored(s.d, k, fns), b) == Driven(s.d, b)
    ensures Driven(s.d, b) ==> b < |s.d.wireOf|
  {
    if b < |s.d.wireOf| {
      forall c: nat ensures Drives(Stored(s.d, k, fns), c, b) == Drives(s.d, c, b) { StoredPins(s.d, k, fns, c, b); }
    }
  }

  // ---------------------------------------------------------------- a wiring that reads junk

  function Projection(i: nat): (seq<bool>, nat) -> bool {
    (x: seq<bool>, j: nat) => i < |x| && x[i]
  }

  /** The word form of `Projection(i)` for a cell of `n` outputs. */
  function WordProjection(i: nat, n: nat): (seq<bool>, nat) -> bool {
    (x: seq<bool>, j: nat) => j < n && i < |x| && x[i]
  }

  /** A word function that ignores padding. */
  function PlainFn(c: Cell): (seq<bool>, nat) -> bool {
    if c.Logic? then (x: seq<bool>, j: nat) => j < |c.outs| && |x| >= |c.ins| && c.fn(x[..|c.ins|], j)
    else (x: seq<bool>, j: nat) => false
  }

  function PlainFns(d: Design): (fns: Fns)
    ensures |fns| == |d.cells| && forall c :: 0 <= c < |fns| ==> fns[c] == PlainFn(d.cells[c])
  {
    seq(|d.cells|, c requires 0 <= c < |d.cells| => PlainFn(d.cells[c]))
  }

  /** Cell `c` made to copy the word input `i`. */
  function Copying(s: Split, c: nat, i: nat): (s': Split)
    requires c < |s.d.cells|
  {
    var cell := Logic(Projection(i), s.d.cells[c].ins, s.d.cells[c].outs);
    s.(d := s.d.(cells := s.d.cells[c := cell]))
  }

  function CopyingFns(s: Split, c: nat, i: nat): (fns: Fns)
    requires c < |s.d.cells|
    ensures |fns| == |s.d.cells|
  {
    PlainFns(Copying(s, c, i).d)[c := WordProjection(i, |s.d.cells[c].outs|)]
  }

  lemma CopyingWired(s: Split, c: nat, i: nat)
    requires c < |s.d.cells|
    ensures SameWiring(s, Copying(s, c, i))
  {
  }

  /** Both word functions compute their cell on clear padding. */
  lemma CopyingWords(s: Split, k: Words, c: nat, i: nat)
    requires c < |s.d.cells|
    ensures WordFns(Copying(s, c, i).d, k, CopyingFns(s, c, i))
  {
    var d, fns := Copying(s, c, i).d, CopyingFns(s, c, i);
    forall e: nat, x: seq<bool>, j: nat | e < |d.cells| && d.cells[e].Logic? &&
      |x| == |d.cells[e].ins| + |PadsRead(d, k, e)| && NoneSet(x, |d.cells[e].ins|) &&
      j < |d.cells[e].outs| + |PadsStored(d, k, e)|
      ensures fns[e](x, j) == (j < |d.cells[e].outs| && d.cells[e].fn(x[..|d.cells[e].ins|], j))
    {
      if e == c { assert fns[e] == WordProjection(i, |d.cells[e].outs|); } else { assert fns[e] == PlainFn(d.cells[e]); }
    }
  }

  /** Cell `c` of `d` copies bit `b` to its first output. */
  ghost predicate CopiesBit(d: Design, c: nat, i: nat, b: nat) {
    && c < |d.cells| && d.cells[c].Logic? && DrivesSome(d, c)
    && i < |d.cells[c].ins| && d.cells[c].ins[i] == Net(b)
    && forall x: seq<bool> :: d.cells[c].fn(x, 0) == (i < |x| && x[i])
  }

  /** That bit is an undriven bit of a local. */
  ghost predicate CopiesJunk(s: Split, c: nat, i: nat, b: nat) {
    CopiesBit(s.d, c, i, b) && JunkBit(s, b)
  }

  ghost predicate JunkBit(s: Split, b: nat) {
    s.Shaped() && !Driven(s.d, b) && b < |s.d.wireOf| && LocalWire(s, s.d.wireOf[b])
  }

  /** In any solution the copying cell's output is its input. */
  lemma Copies(s: Split, c: nat, i: nat, b: nat, base: Env, mem: Mem)
    requires s.Valid() && CopiesBit(s.d, c, i, b) && !Driven(s.d, b) && |base| == |s.d.wireOf|
    ensures b < |base| && s.d.cells[c].outs[0] < |base|
    ensures Sweep(s.d, s.order, base, mem)[s.d.cells[c].outs[0]] == base[b]
  {
    var y, e := s.d.cells[c].outs[0], Sweep(s.d, s.order, base, mem);
    assert Drives(s.d, c, y) && Reads(s.d, c, b);
    SweepSolves(s.d, s.order, base, mem);
    assert Holds(s.d, c, e, mem);
    assert Values(s.d.cells[c].ins, e)[i] == e[b];
  }

  function OneBit(n: nat, b: nat): (e: Env) { seq(n, i => i == b) }

  /** A local that starts at 1 and is never driven makes a copy of it 1, where full evaluation gives 0. */
  lemma JunkCopied(s: Split, c: nat, i: nat, b: nat, st: Env)
    requires s.Valid() && CopiesJunk(s, c, i, b)
    ensures var y := s.d.cells[c].outs[0];
      && Value(Net(y), FirstNets(s, st, [], [], OneBit(|s.d.wireOf|, b)))
      && !Value(Net(y), Eval(s.d, s.order, st, [], []))
  {
    var junk := OneBit(|s.d.wireOf|, b);
    var nets := ColdSettle(s, st, [], [], junk);
    var env, base := Locals(s, nets, st, [], junk), Base(s.d, st, []);
    Copies(s, c, i, b, env, []);
    Copies(s, c, i, b, base, []);
    BoundaryIsComb(s, b);
    assert env[b] && !base[b];
  }

  /** So the cell made to copy a word input that is never driven settles wrong. */
  lemma CopySettlesWrong(s: Split, k: Words, c: nat, i: nat, b: nat)
    requires s.Valid() && ScalarsOk(s.d, k) && Closed(s.d) && DrivesSome(s.d, c)
    requires CopiesJunk(StoredSplit(Copying(s, c, i), k, CopyingFns(s, c, i)), c, i, b)
    ensures !JunkSafe(s, k)
  {
    var s', fns := Copying(s, c, i), CopyingFns(s, c, i);
    var t, st := StoredSplit(s', k, fns), Zeros(|s.d.wireOf|);
    CopyingWired(s, c, i);
    CopyingWords(s, k, c, i);
    SameStorage(s, s', k);
    StoredValid(s', k, fns);
    var y, r, junk := s.d.cells[c].outs[0], StoredState(s'.d, st), OneBit(|t.d.wireOf|, b);
    JunkCopied(t, c, i, b, r);
    assert t.d.cells[c].outs[0] == y;
    StoredEval(s', k, fns, r, st, [], []);
    assert Drives(s'.d, c, y);
    MirrorValue(s'.d, Eval(t.d, s.order, r, [], []), Eval(s'.d, s.order, st, [], []), Net(y));
    assert Admissible(s, s', k, fns, st, []);
    assert Driven(s'.d, y);
    assert !SettlesRight(s', k, fns, st, [], [], junk);
  }

  lemma SameDriven(s: Split, s': Split, b: nat)
    requires SameWiring(s, s')
    ensures Driven(s'.d, b) == Driven(s.d, b)
  {
    forall c: nat ensures Drives(s'.d, c, b) == Drives(s.d, c, b) { SameCells(s, s', c, b); }
  }

  lemma CopyingCell(s: Split, k: Words, c: nat, i: nat, b: nat)
    requires c < |s.d.cells| && DrivesSome(s.d, c) && InputIs(s, k, c, i, b)
    ensures CopiesBit(Stored(Copying(s, c, i).d, k, CopyingFns(s, c, i)), c, i, b)
  {
    var s', fns := Copying(s, c, i), CopyingFns(s, c, i);
    var cell := StoredCell(s'.d, k, fns, c);
    assert cell.outs[0] == s.d.cells[c].outs[0];
    assert fns[c] == WordProjection(i, |s.d.cells[c].outs|);
  }

  /** An undriven bit of a local. */
  lemma JunkUnsafe(s: Split, k: Words, c: nat, b: nat)
    requires s.Valid() && ScalarsOk(s.d, k) && Closed(s.d) && DrivesSome(s.d, c) && Reads(s.d, c, b) && b < |s.d.wireOf|
    requires LocalWire(s, s.d.wireOf[b]) && !Driven(s.d, b)
    ensures !JunkSafe(s, k)
  {
    var i :| 0 <= i < |s.d.cells[c].ins| && s.d.cells[c].ins[i] == Net(b);
    var s', fns := Copying(s, c, i), CopyingFns(s, c, i);
    CopyingWired(s, c, i);
    SameStorage(s, s', k);
    SameWires(s, s', s.d.wireOf[b]);
    SameDriven(s, s', b);
    StoredDriven(s', k, fns, b);
    StoredPlan(s', k, fns, s.d.wireOf[b]);
    CopyingCell(s, k, c, i, b);
    CopySettlesWrong(s, k, c, i, b);
  }

  /** The padding of a local that is never stored whole is an undriven bit of a local. */
  lemma PadJunk(s: Split, s': Split, k: Words, fns: Fns, w: nat)
    requires s.Valid() && ScalarsOk(s.d, k) && Closed(s.d) && SameWiring(s, s') && |fns| == |s'.d.cells|
    requires Padded(s.d, k, w) && LocalWire(s, w) && !StoredSomewhere(s.d, w)
    ensures JunkBit(StoredSplit(s', k, fns), PadBit(s.d, w))
  {
    SameStorage(s, s', k);
    SameWires(s, s', w);
    forall e: nat ensures !Drives(Stored(s'.d, k, fns), e, PadBit(s.d, w)) {
      SameStores(s, s', e, w);
      StoredPadPins(s'.d, k, fns, e, w);
    }
    StoredPadKind(s'.d, k, fns, w);
    StoredPlan(s', k, fns, w);
  }

  lemma PaddingUnsafe(s: Split, k: Words, c: nat, w: nat)
    requires s.Valid() && ScalarsOk(s.d, k) && Closed(s.d) && DrivesSome(s.d, c)
    requires ReadsWhole(s.d, k, c, w) && Padded(s.d, k, w) && LocalWire(s, w) && !StoredSomewhere(s.d, w)
    ensures !JunkSafe(s, k)
  {
    var i := PadInput(s, k, c, w);
    CopyingWired(s, c, i);
    PadJunk(s, Copying(s, c, i), k, CopyingFns(s, c, i), w);
    CopyingCell(s, k, c, i, PadBit(s.d, w));
    CopySettlesWrong(s, k, c, i, PadBit(s.d, w));
  }

  /** Where a cell that reads a wire whole has its padding among its word inputs. */
  lemma PadInput(s: Split, k: Words, c: nat, w: nat) returns (i: nat)
    requires c < |s.d.cells| && ReadsWhole(s.d, k, c, w) && Padded(s.d, k, w)
    ensures InputIs(s, k, c, i, PadBit(s.d, w))
  {
    var ws := PadsRead(s.d, k, c);
    assert w in ws;
    var m :| 0 <= m < |ws| && ws[m] == w;
    i := |s.d.cells[c].ins| + m;
    CopyingWired(s, c, i);
    SamePads(s, Copying(s, c, i), k, c);
  }

  /** Word input `i` of cell `c`, made to copy it, is bit `b`. */
  ghost predicate InputIs(s: Split, k: Words, c: nat, i: nat, b: nat)
    requires c < |s.d.cells|
  {
    var s' := Copying(s, c, i);
    var ins := s.d.cells[c].ins + Nets(PadBits(s'.d, PadsRead(s'.d, k, c)));
    i < |ins| && ins[i] == Net(b)
  }

  lemma SamePads(s: Split, s': Split, k: Words, c: nat)
    requires SameWiring(s, s')
    ensures PadsRead(s'.d, k, c) == PadsRead(s.d, k, c)
  {
    SameSelect(|s.d.kind|, (w: nat) => Padded(s.d, k, w) && ReadsWhole(s.d, k, c, w),
               (w: nat) => Padded(s'.d, k, w) && ReadsWhole(s'.d, k, c, w));
  }

  lemma {:induction false} SameSelect(n: nat, f: nat -> bool, f': nat -> bool)
    requires forall w: nat :: f(w) == f'(w)
    ensures Select(n, f) == Select(n, f')
    decreases n
  {
    if n == 0 {
    } else {
      SameSelect(n - 1, f, f');
    }
  }

  /** For every wiring: the first settle of the words gives every driven bit its full-evaluation value, whatever
      the cells compute and whatever uninitialised locals hold, exactly when no driving cell reads an
      undriven bit of a local and none reads as a whole a local that is only stored in slices. */
  lemma JunkReadsExact(s: Split, k: Words)
    requires s.Valid() && ScalarsOk(s.d, k) && Closed(s.d)
    ensures JunkSafe(s, k) <==> StorageSafe(s, k)
  {
    if StorageSafe(s, k) {
      forall s': Split, fns: Fns, st: Env, inp: Env, mem: Mem, junk: Env | Admissible(s, s', k, fns, st, mem)
        ensures StoredSplit(s', k, fns).Shaped() && SettlesRight(s', k, fns, st, inp, mem, junk)
      {
        SameStorage(s, s', k);
        SameSafe(s, s', k);
        SafeSettles(s', k, fns, st, inp, mem, junk);
      }
    } else if !LocalReadsDriven(s) {
      var c: nat, b: nat :| DrivesSome(s.d, c) && Reads(s.d, c, b) && b < |s.d.wireOf| &&
        LocalWire(s, s.d.wireOf[b]) && !Driven(s.d, b);
      JunkUnsafe(s, k, c, b);
    } else {
      var c: nat, w: nat :| DrivesSome(s.d, c) && ReadsWhole(s.d, k, c, w) && Padded(s.d, k, w) && LocalWire(s, w) &&
        !StoredSomewhere(s.d, w);
      PaddingUnsafe(s, k, c, w);
    }
  }
}
