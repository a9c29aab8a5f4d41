/** Cold starts. */
module GatedCold {
  // From which register state a cold start of gated evaluation is right, exactly.
  //
  // The register shadows are zero statics.  A register that starts at 1 and then loads 0 meets its
  // shadow, the change goes unseen, and a net computed from it stays.

  import opened Netlist
  import opened Clocking
  import opened CombSplit
  import opened Gated
  import opened Storage
  import opened StorageRun
  import OutCone

  /** Gated evaluation on words and full evaluation agree over every run from this register state, for every
      design with these wires and every layout of its storage. */
  ghost predicate ColdSafe(wireOf: seq<nat>, kind: seq<Kind>, st: Env) {
    forall s: Split, k: Words, fns: Fns, mem: Mem, outs: seq<seq<bool>>, calls: seq<Call> ::
      StartsOk(wireOf, kind, s, k, fns, mem) ==> RunsAlike(s, k, fns, Machine(st, mem, outs), calls)
  }

  ghost predicate StartsOk(wireOf: seq<nat>, kind: seq<Kind>, s: Split, k: Words, fns: Fns, mem: Mem) {
    && StorageOk(s, k, fns) && StorageSafe(s, k) && MemFits(s.d, mem)
    && s.d.wireOf == wireOf && s.d.kind == kind && |s.d.outputs| <= OutCone.MASK_BITS
  }

  ghost predicate RunsAlike(s: Split, k: Words, fns: Fns, m: Machine, calls: seq<Call>)
    requires |fns| == |s.d.cells| && s.Shaped() && StoredSplit(s, k, fns).Shaped()
  {
    var t := StoredSplit(s, k, fns);
    RunMirrors(s.d, GatedRun(t, StoredMachine(s.d, m), ColdStart(t), calls), RefRun(s, m, calls))
  }

  ghost predicate HasKind(wireOf: seq<nat>, kind: seq<Kind>, b: nat, k: Kind) {
    b < |wireOf| && wireOf[b] < |kind| && kind[wireOf[b]] == k
  }

  // ---------------------------------------------------------------- the design that shows one register bit

  function Buf(ins: seq<bool>, j: nat): bool { j == 0 && |ins| > 0 && ins[0] }

  /** The register bits `q` load 0 at every edge; a buffer shows bit `b`, one of them, on bit `y`, the output,
      and clears the bits `extra` of the same wire. */
  datatype Show = Show(wireOf: seq<nat>, kind: seq<Kind>, b: nat, y: nat, q: seq<nat>, extra: seq<nat>) {
    ghost predicate Ok() {
      && (forall i :: 0 <= i < |wireOf| ==> wireOf[i] < |kind|)
      && HasKind(wireOf, kind, b, Register) && HasKind(wireOf, kind, y, Comb)
      && b in q && DistinctBits(q) && (forall i: nat :: i in q ==> i < |wireOf| && wireOf[i] == wireOf[b])
      && y !in extra && DistinctBits(extra) && (forall i: nat :: i in extra ==> i < |wireOf| && wireOf[i] == wireOf[y])
    }

    function Shown(): (d: Design) {
      Design(wireOf, kind, [Logic(Buf, [Net(b)], [y] + extra)],
             [RegSlice(q, seq(|q|, _ => Const(false)), Const(true))], [], [[y]])
    }

    function Plan(): (s: Split)
      ensures s.Shaped()
    {
      Split(Shown(), [0], 1, [0, 1])
    }

    /** The bits of the register that are not loaded are 0. */
    ghost predicate RestZero(st: Env) {
      |st| == |wireOf| && b < |wireOf| && forall i: nat :: i < |wireOf| && wireOf[i] == wireOf[b] && i !in q ==> !st[i]
    }
  }

  lemma ShownCell(x: Show, c: nat, i: nat)
    requires x.Ok()
    ensures var d := x.Shown(); (Drives(d, c, i) <==> c == 0 && (i == x.y || i in x.extra)) && (Reads(d, c, i) <==> c == 0 && i == x.b)
  {
    var d := x.Shown();
    if c == 0 {
      assert d.cells[0].outs == [x.y] + x.extra && d.cells[0].ins == [Net(x.b)];
    }
  }

  lemma ShownValid(x: Show)
    requires x.Ok()
    ensures x.Plan().Valid() && LocalReadsDriven(x.Plan())
  {
    var s := x.Plan();
    forall c: nat, i: nat
      ensures (Drives(s.d, c, i) <==> c == 0 && (i == x.y || i in x.extra)) && (Reads(s.d, c, i) <==> c == 0 && i == x.b)
    {
      ShownCell(x, c, i);
    }
    ShownFormed(x);
    assert s.order[0] == 0;
    ShownWire(x, x.wireOf[x.b]);
  }

  lemma ShownFormed(x: Show)
    requires x.Ok()
    requires forall c: nat, i: nat :: Drives(x.Shown(), c, i) <==> c == 0 && (i == x.y || i in x.extra)
    requires forall c: nat, i: nat :: Reads(x.Shown(), c, i) <==> c == 0 && i == x.b
    ensures WellFormed(x.Shown())
  {
    var d := x.Shown();
    assert DistinctBits(d.cells[0].outs);
    assert SliceFits(d.slices[0], d.wireOf, d.kind);
  }

  /** What the plan says of a wire. */
  lemma ShownWire(x: Show, w: nat)
    requires x.Ok()
    ensures var s := x.Plan();
      && (Written(s, w) <==> w == x.wireOf[x.y]) && (s.ReadsIn(0, w) <==> w == x.wireOf[x.b])
      && (ReadSomewhere(s, w) <==> w == x.wireOf[x.b]) && (Boundary(s, w) <==> w == x.wireOf[x.y]) && !Compared(s, w)
  {
    var s := x.Plan();
    assert s.order[0] == 0 && s.cuts[0] == 0 && s.cuts[1] == 1;
    ShownPins(x, w);
    assert s.WritesIn(0, w) <==> s.CellWrites(s.order[0], w);
    assert s.ReadsIn(0, w) <==> s.CellReads(s.order[0], w);
    assert Written(s, w) <==> s.WritesIn(0, w);
    assert ReadSomewhere(s, w) <==> s.ReadsIn(0, w);
    assert !CrossBlock(s, w);
    if w == x.wireOf[x.y] {
      assert s.d.outputs[0][0] == x.y;
      assert s.OutputHas(0, w);
    }
  }

  lemma ShownPins(x: Show, w: nat)
    requires x.Ok()
    ensures (x.Plan().CellWrites(0, w) <==> w == x.wireOf[x.y]) && (x.Plan().CellReads(0, w) <==> w == x.wireOf[x.b])
  {
    var s := x.Plan();
    var outs := s.d.cells[0].outs;
    assert outs[0] == x.y && s.d.cells[0].ins[0] == Net(x.b);
    forall j | 0 <= j < |outs| ensures s.WireIs(outs[j], w) <==> w == x.wireOf[x.y] {
      if j > 0 { assert outs[j] == x.extra[j - 1] && outs[j] in x.extra; }
    }
    assert s.CellWrites(0, w) <==> s.WireIs(outs[0], w);
    assert s.CellReads(0, w) <==> s.WireIs(x.b, w);
  }

  lemma ShownSweep(x: Show, env: Env)
    requires x.Ok() && |env| == |x.wireOf|
    ensures var r := Sweep(x.Shown(), [0], env, []);
      r[x.y] == env[x.b] && forall i: nat :: i < |env| && i != x.y && i !in x.extra ==> r[i] == env[i]
  {
    var d := x.Shown();
    var cell := d.cells[0];
    assert SweepTo(d, [0], 0, env, []) == env;
    assert Sweep(d, [0], env, []) == Step(cell, env, []);
    assert Values([Net(x.b)], env) == [env[x.b]];
    assert cell.outs[0] == x.y && Pos(cell.outs, x.y) == 0;
  }

  // ---------------------------------------------------------------- its calls

  ghost predicate Quiet(n: nat, g: Statics) {
    |g.nets| == n && |g.pv| == n && NoneSet(g.pv, 0) && |g.dirty| == 1
  }

  /** A settle runs the block when it is the first or marked, and else keeps the net. */
  lemma ShownSettle(x: Show, g: Statics, st: Env)
    requires x.Ok() && Quiet(|x.wireOf|, g) && |st| == |x.wireOf|
    ensures var g' := Settle(x.Plan(), g, st, [], [], []);
      && Quiet(|x.wireOf|, g') && g'.init && !IsDirty(g'.dirty, 0)
      && g'.nets[x.y] == (if !g.init || IsDirty(g.dirty, 0) then st[x.b] else g.nets[x.y])
  {
    var s := x.Plan();
    var g0 := Initialised(g);
    var g1 := Compare(s, Input, g0, []);
    ShownCompare(x, Input, g0, []);
    var p := Pass(Locals(s, g1.nets, st, [], []), g1.sh, g1.dirty);
    ShownWire(x, x.wireOf[x.y]);
    ShownWire(x, x.wireOf[x.b]);
    assert p.vals[x.b] == st[x.b] && p.vals[x.y] == g.nets[x.y];
    assert RunPass(s, 0, p, []) == p;
    if IsDirty(p.dirty, 0) {
      assert BlockCells(s, 0) == [0];
      ShownSweep(x, p.vals);
      assert !Marks(s, ChangedNets(s, 0, RunBlock(s, 0, p, []).vals, p.sh), 0, 0);
    }
  }

  /** Comparing zeros with zeros marks nothing. */
  lemma ShownCompare(x: Show, k: Kind, g: Statics, now: Env)
    requires x.Ok() && NoneSet(g.pv, 0)
    requires forall i: nat :: i < |x.wireOf| && x.wireOf[i] == x.wireOf[x.b] && k == Register ==> !Value(Net(i), now)
    requires k == Input ==> now == []
    ensures var r := Compare(x.Plan(), k, g, now);
      && |r.pv| == |g.pv| && NoneSet(r.pv, 0) && r.nets == g.nets && r.init == g.init && |r.dirty| == |g.dirty|
      && (IsDirty(r.dirty, 0) <==> IsDirty(g.dirty, 0))
  {
    var s := x.Plan();
    forall w: nat ensures ReadSomewhere(s, w) <==> w == x.wireOf[x.b] { ShownWire(x, w); }
    assert !WireDiffers(s.d, g.pv, now, x.wireOf[x.b]) || x.kind[x.wireOf[x.b]] != k;
    var changed := ChangedOf(s, k, g.pv, now);
    assert forall w: nat :: w !in changed;
    assert !Marks(s, changed, s.parts, 0);
  }

  lemma ShownEmit(x: Show, env: Env, prev: seq<seq<bool>>)
    requires x.Ok() && |env| == |x.wireOf|
    ensures OutCone.EmitOutputs(x.Shown(), env, [], prev) == [[env[x.y]]]
  {
    assert PortBits(x.Shown(), env, 0) == [env[x.y]];
  }

  /** The edge clears the register. */
  lemma ShownNext(x: Show, env: Env, st: Env)
    requires x.Ok() && x.RestZero(st)
    ensures var st' := NextState(x.Shown(), env, st);
      |st'| == |st| && forall i: nat :: i < |st| && x.wireOf[i] == x.wireOf[x.b] ==> !st'[i]
    ensures NextMem(x.Shown(), env, []) == []
  {
    var d := x.Shown();
    forall i: nat | i < |st| && x.wireOf[i] == x.wireOf[x.b] ensures !NextState(d, env, st)[i] {
      assert i in x.q <==> i in d.slices[0].q;
      assert SliceOf(d.slices, i) == if i in x.q then 0 else 1;
    }
  }

  /** An edge in the gated code: no memory is written and no register change is seen. */
  lemma ShownEdge(x: Show, g: Statics, st': Env)
    requires x.Ok() && Quiet(|x.wireOf|, g)
    requires forall i: nat :: i < |x.wireOf| && x.wireOf[i] == x.wireOf[x.b] ==> !Value(Net(i), st')
    ensures var r := MarkEdge(x.Plan(), g, g.nets, st');
      Quiet(|x.wireOf|, r) && r.nets == g.nets && r.init == g.init && (IsDirty(r.dirty, 0) <==> IsDirty(g.dirty, 0))
  {
    var s := x.Plan();
    assert EnabledMems(s.d, g.nets) == {};
    var h := g.(dirty := MarkMem(s, g.dirty, {}));
    assert IsDirty(h.dirty, 0) <==> IsDirty(g.dirty, 0);
    ShownCompare(x, Register, h, st');
  }

  const SETTLE := CombCall([], [], [])
  const EDGE := ClockCall([], [])

  lemma ShownComb(x: Show, g: Statics, m: Machine)
    requires x.Ok() && Quiet(|x.wireOf|, g) && |m.st| == |x.wireOf| && m.mem == []
    ensures var s := x.Plan();
      var (m', g') := GatedStep(s, m, g, SETTLE);
      g' == Settle(s, g, m.st, [], [], []) && |g'.nets| == |x.wireOf| && m' == m.(outs := [[g'.nets[x.y]]])
  {
    var s := x.Plan();
    var g' := Settle(s, g, m.st, [], [], []);
    ShownSettle(x, g, m.st);
    ShownEmit(x, g'.nets, m.outs);
  }

  lemma ShownRefComb(x: Show, m: Machine)
    requires x.Ok() && |m.st| == |x.wireOf| && m.mem == []
    ensures RefStep(x.Plan(), m, SETTLE) == m.(outs := [[m.st[x.b]]])
  {
    var s := x.Plan();
    var base := Base(s.d, m.st, []);
    ShownSweep(x, base);
    ShownEmit(x, Sweep(s.d, [0], base, []), m.outs);
  }

  lemma ShownClock(x: Show, g: Statics, m: Machine)
    requires x.Ok() && Quiet(|x.wireOf|, g) && x.RestZero(m.st) && m.mem == []
    requires g.init && !IsDirty(g.dirty, 0)
    ensures var (m', g') := GatedStep(x.Plan(), m, g, EDGE);
      && Quiet(|x.wireOf|, g') && g'.nets[x.y] == g.nets[x.y] && g'.init && !IsDirty(g'.dirty, 0)
      && |m'.st| == |x.wireOf| && m'.mem == []
  {
    var s := x.Plan();
    ShownSettle(x, g, m.st);
    var g' := Settle(s, g, m.st, [], [], []);
    ShownNext(x, g'.nets, m.st);
    ShownEdge(x, g', NextState(s.d, g'.nets, m.st));
  }

  lemma ShownRefClock(x: Show, m: Machine)
    requires x.Ok() && x.RestZero(m.st) && m.mem == []
    ensures var m' := RefStep(x.Plan(), m, EDGE); |m'.st| == |x.wireOf| && !m'.st[x.b] && m'.mem == []
  {
    ShownNext(x, Eval(x.Shown(), [0], m.st, [], []), m.st);
  }

  function Calls(): (c: seq<Call>) { [SETTLE, EDGE, SETTLE] }

  /** With a set register bit whose shadow is zero, the edge that clears it is missed: after three calls the
      output is 1 although the register it shows is 0. */
  lemma ShadowMismatch(x: Show, st: Env, outs: seq<seq<bool>>)
    requires x.Ok() && x.RestZero(st) && st[x.b]
    ensures var s, m := x.Plan(), Machine(st, [], outs);
      var g, r := GatedRun(s, m, ColdStart(s), Calls()), RefRun(s, m, Calls());
      |g| == |r| == 4 && g[3].outs == [[true]] && r[3].outs == [[false]]
  {
    var s, m := x.Plan(), Machine(st, [], outs);
    ShownComb(x, ColdStart(s), m);
    ShownSettle(x, ColdStart(s), st);
    var (m1, g1) := GatedStep(s, m, ColdStart(s), SETTLE);
    ShownClock(x, g1, m1);
    var (m2, g2) := GatedStep(s, m1, g1, EDGE);
    ShownComb(x, g2, m2);
    ShownSettle(x, g2, m2.st);
    ThreeGated(s, m, ColdStart(s));
    ShownRefComb(x, m);
    ShownRefClock(x, RefStep(s, m, SETTLE));
    ShownRefComb(x, RefStep(s, RefStep(s, m, SETTLE), EDGE));
    ThreeRef(s, m);
  }

  lemma ThreeGated(s: Split, m: Machine, g: Statics)
    requires s.Shaped()
    ensures var (m1, g1) := GatedStep(s, m, g, SETTLE);
      var (m2, g2) := GatedStep(s, m1, g1, EDGE);
      |GatedRun(s, m, g, Calls())| == 4 && GatedRun(s, m, g, Calls())[3] == GatedStep(s, m2, g2, SETTLE).0
  {
    var calls := Calls();
    var (m1, g1) := GatedStep(s, m, g, SETTLE);
    var (m2, g2) := GatedStep(s, m1, g1, EDGE);
    var (m3, g3) := GatedStep(s, m2, g2, SETTLE);
    assert calls[1..] == [EDGE, SETTLE] && calls[1..][1..] == [SETTLE] && calls[1..][1..][1..] == [];
    assert GatedRun(s, m2, g2, [SETTLE]) == [m2] + GatedRun(s, m3, g3, []);
    assert GatedRun(s, m1, g1, [EDGE, SETTLE]) == [m1] + GatedRun(s, m2, g2, [SETTLE]);
  }

  lemma ThreeRef(s: Split, m: Machine)
    ensures RefRun(s, m, Calls())[3] == RefStep(s, RefStep(s, RefStep(s, m, SETTLE), EDGE), SETTLE)
  {
    var calls := Calls();
    var m1 := RefStep(s, m, SETTLE);
    var m2 := RefStep(s, m1, EDGE);
    assert calls[1..] == [EDGE, SETTLE] && calls[1..][1..] == [SETTLE] && calls[1..][1..][1..] == [];
    assert RefRun(s, m2, [SETTLE]) == [m2] + [RefStep(s, m2, SETTLE)];
    assert RefRun(s, m1, [EDGE, SETTLE]) == [m1] + RefRun(s, m2, [SETTLE]);
  }

  // ---------------------------------------------------------------- on words

  function Spot(wireOf: seq<nat>, kind: seq<Kind>, b: nat, y: nat): (x: Show)
    requires b < |wireOf|
  {
    Show(wireOf, kind, b, y, BitsOf(wireOf, wireOf[b], |wireOf|), [])
  }

  /** The buffer reads no bare word. */
  const LAYOUT := Words(false, [[]])

  /** Its storage form: the buffer also clears the padding of a wire it stores whole. */
  function OnWords(x: Show): (r: Show)
    ensures x.extra == [] ==> r.Plan() == StoredSplit(x.Plan(), LAYOUT, [Buf])
  {
    var d := x.Shown();
    var r := x.(wireOf := x.wireOf + seq(|x.kind|, w requires 0 <= w < |x.kind| => w),
                extra := PadBits(d, PadsStored(d, LAYOUT, 0)));
    BufferReads(d);
    assert x.extra == [] ==> r.Shown().cells == Stored(d, LAYOUT, [Buf]).cells by {
      if x.extra == [] { BufferCell(x); }
    }
    r
  }

  lemma BufferReads(d: Design)
    ensures PadsRead(d, LAYOUT, 0) == []
  {
    if PadsRead(d, LAYOUT, 0) != [] {
      var w := SomeMember(PadsRead(d, LAYOUT, 0));
    }
  }

  lemma SomeMember(ws: seq<nat>) returns (w: nat)
    requires ws != []
    ensures w in ws
  {
    w := ws[0];
  }

  lemma BufferCell(x: Show)
    requires x.extra == []
    ensures var d := x.Shown(); Stored(d, LAYOUT, [Buf]).cells == [Logic(Buf, [Net(x.b)], [x.y] + PadBits(d, PadsStored(d, LAYOUT, 0)))]
  {
    var d := x.Shown();
    BufferReads(d);
    assert d.cells[0].ins + Nets(PadBits(d, [])) == [Net(x.b)];
    assert d.cells[0].outs == [x.y];
  }

  lemma SpotOk(wireOf: seq<nat>, kind: seq<Kind>, b: nat, y: nat)
    requires forall i :: 0 <= i < |wireOf| ==> wireOf[i] < |kind|
    requires HasKind(wireOf, kind, b, Register) && HasKind(wireOf, kind, y, Comb)
    ensures Spot(wireOf, kind, b, y).Ok() && OnWords(Spot(wireOf, kind, b, y)).Ok()
  {
    var x := Spot(wireOf, kind, b, y);
    var d := x.Shown();
    ShownValid(x);
    var r := OnWords(x);
    var ws := PadsStored(d, LAYOUT, 0);
    forall i: nat | i in r.extra ensures i < |r.wireOf| && r.wireOf[i] == r.wireOf[r.y] {
      var m :| 0 <= m < |ws| && r.extra[m] == i;
      assert ws[m] in ws;
      StoredOnly(d, x, ws[m]);
    }
    assert DistinctBits(r.extra);
  }

  /** The only wire the buffer can store whole is that of `y`. */
  lemma StoredOnly(d: Design, x: Show, w: nat)
    requires x.Ok() && x.extra == [] && d == x.Shown() && Padded(d, LAYOUT, w) && StoresWhole(d, 0, w)
    ensures w == x.wireOf[x.y]
  {
    var q := WireBits(d, w);
    var i :| 0 <= i <= 1 && StandsAt(q, d.cells[0].outs, i);
    assert q[0] == d.cells[0].outs[i] && q[0] in q;
  }

  lemma SpotStorage(wireOf: seq<nat>, kind: seq<Kind>, b: nat, y: nat)
    requires forall i :: 0 <= i < |wireOf| ==> wireOf[i] < |kind|
    requires HasKind(wireOf, kind, b, Register) && HasKind(wireOf, kind, y, Comb)
    ensures StartsOk(wireOf, kind, Spot(wireOf, kind, b, y).Plan(), LAYOUT, [Buf], [])
  {
    var x := Spot(wireOf, kind, b, y);
    var s := x.Plan();
    SpotOk(wireOf, kind, b, y);
    ShownValid(x);
    BufferReads(s.d);
    assert s.d.cells == [Logic(Buf, [Net(b)], [y] + [])];
    forall i: nat ensures !SeqReads(s.d, i) {}
  }

  /** The runs of its storage form. */
  lemma SpotRuns(wireOf: seq<nat>, kind: seq<Kind>, st: Env, b: nat, y: nat)
    requires forall i :: 0 <= i < |wireOf| ==> wireOf[i] < |kind|
    requires HasKind(wireOf, kind, b, Register) && HasKind(wireOf, kind, y, Comb) && |st| == |wireOf| && st[b]
    ensures var s := Spot(wireOf, kind, b, y).Plan();
      var t, r := StoredSplit(s, LAYOUT, [Buf]), StoredMachine(s.d, Machine(st, [], []));
      var g, e := GatedRun(t, r, ColdStart(t), Calls()), RefRun(t, r, Calls());
      |g| == |e| == 4 && g[3].outs != e[3].outs
  {
    var x := Spot(wireOf, kind, b, y);
    SpotOk(wireOf, kind, b, y);
    ShadowMismatch(OnWords(x), StoredState(x.Shown(), st), []);
  }

  lemma RunsDiffer(s: Split, k: Words, fns: Fns, m: Machine, calls: seq<Call>)
    requires StorageOk(s, k, fns) && MemFits(s.d, m.mem) && |m.st| == |s.d.wireOf| && StoredSplit(s, k, fns).Shaped()
    requires var t, r := StoredSplit(s, k, fns), StoredMachine(s.d, m);
      var g, e := GatedRun(t, r, ColdStart(t), calls), RefRun(t, r, calls);
      exists i :: 0 <= i < |g| && i < |e| && g[i].outs != e[i].outs
    ensures !RunsAlike(s, k, fns, m, calls)
  {
    RefRunMirrors(s, k, fns, StoredMachine(s.d, m), m, calls);
  }

  lemma SpotDiffers(wireOf: seq<nat>, kind: seq<Kind>, st: Env, b: nat, y: nat)
    requires forall i :: 0 <= i < |wireOf| ==> wireOf[i] < |kind|
    requires HasKind(wireOf, kind, b, Register) && HasKind(wireOf, kind, y, Comb) && |st| == |wireOf| && st[b]
    ensures var s := Spot(wireOf, kind, b, y).Plan();
      StartsOk(wireOf, kind, s, LAYOUT, [Buf], []) && !RunsAlike(s, LAYOUT, [Buf], Machine(st, [], []), Calls())
  {
    SpotStorage(wireOf, kind, b, y);
    SpotRuns(wireOf, kind, st, b, y);
    RunsDiffer(Spot(wireOf, kind, b, y).Plan(), LAYOUT, [Buf], Machine(st, [], []), Calls());
  }

  lemma SetBitUnsafe(wireOf: seq<nat>, kind: seq<Kind>, st: Env, b: nat, y: nat)
    requires forall i :: 0 <= i < |wireOf| ==> wireOf[i] < |kind|
    requires HasKind(wireOf, kind, b, Register) && HasKind(wireOf, kind, y, Comb) && |st| == |wireOf| && st[b]
    ensures !ColdSafe(wireOf, kind, st)
  {
    SpotDiffers(wireOf, kind, st, b, y);
  }

  // ---------------------------------------------------------------- designs without combinational bits

  ghost predicate NoOutputs(d: Design) { forall c: nat :: c < |d.cells| ==> d.cells[c].outs == [] }

  lemma CombNeeded(d: Design)
    requires WellFormed(d) && forall b: nat :: b < |d.wireOf| ==> KindOf(d, b) != Comb
    ensures NoOutputs(d)
  {
    forall c: nat | c < |d.cells| ensures d.cells[c].outs == [] {
      if d.cells[c].outs != [] { assert Drives(d, c, d.cells[c].outs[0]); }
    }
  }

  lemma {:induction false} InertSweep(d: Design, order: seq<nat>, n: nat, env: Env, mem: Mem)
    requires NoOutputs(d) && n <= |order|
    ensures SweepTo(d, order, n, env, mem) == env
    decreases n
  {
    if n == 0 {
    } else {
      InertSweep(d, order, n - 1, env, mem);
    }
  }

  lemma {:induction false} InertPass(s: Split, n: nat, x: Pass, mem: Mem)
    requires s.Shaped() && NoOutputs(s.d) && n <= s.parts
    ensures RunPass(s, n, x, mem).vals == x.vals
    decreases n
  {
    if n == 0 {
    } else {
      InertPass(s, n - 1, x, mem);
      InertSweep(s.d, BlockCells(s, n - 1), |BlockCells(s, n - 1)|, x.vals, mem);
    }
  }

  lemma InertSettle(s: Split, g: Statics, st: Env, inp: Env, mem: Mem, junk: Env)
    requires s.Valid() && NoOutputs(s.d)
    ensures Settle(s, g, st, inp, mem, junk).nets == Eval(s.d, s.order, st, inp, mem)
  {
    var g1 := Compare(s, Input, Initialised(g), inp);
    var vals := Locals(s, g1.nets, st, inp, junk);
    InertPass(s, s.parts, Pass(vals, g1.sh, g1.dirty), mem);
    InertSweep(s.d, s.order, |s.order|, Base(s.d, st, inp), mem);
    forall b: nat | b < |vals| ensures vals[b] == Base(s.d, st, inp)[b] {
      forall p: nat ensures !s.WritesIn(p, s.d.wireOf[b]) {}
      assert !Written(s, s.d.wireOf[b]);
    }
  }

  /** With no combinational bit there is nothing a skipped block could miss. */
  lemma InertStep(s: Split, m: Machine, g: Statics, c: Call)
    requires s.Valid() && NoOutputs(s.d) && |m.st| == |s.d.wireOf| && |s.d.outputs| <= OutCone.MASK_BITS
    ensures GatedStep(s, m, g, c).0 == RefStep(s, m, c) && |RefStep(s, m, c).st| == |m.st|
  {
    match c
    case CombCall(inp, live, junk) => InertSettle(s, g, m.st, inp, m.mem, junk);
    case ClockCall(inp, junk) => InertSettle(s, g, m.st, inp, m.mem, junk);
    case ClockOutCall(inp, live) => OutCone.FusedOutputs(s.d, s.order, live, m.st, inp, m.mem, m.outs);
  }

  lemma {:induction false} InertRun(s: Split, m: Machine, g: Statics, calls: seq<Call>)
    requires s.Valid() && NoOutputs(s.d) && |m.st| == |s.d.wireOf| && |s.d.outputs| <= OutCone.MASK_BITS
    ensures GatedRun(s, m, g, calls) == RefRun(s, m, calls)
    decreases |calls|
  {
    if calls == [] {
    } else {
      InertStep(s, m, g, calls[0]);
      var (m', g') := GatedStep(s, m, g, calls[0]);
      InertRun(s, m', g', calls[1..]);
    }
  }

  // ---------------------------------------------------------------- the exact condition

  ghost predicate RegistersZero(wireOf: seq<nat>, kind: seq<Kind>, st: Env) {
    forall b: nat :: HasKind(wireOf, kind, b, Register) && b < |st| ==> !st[b]
  }

  /** A cold start is right for every design with these wires, every layout of its storage, every memory and
      every sequence of calls exactly when no register bit starts at 1, or no bit is combinational. */
  lemma ColdStartExact(wireOf: seq<nat>, kind: seq<Kind>, st: Env)
    requires |st| == |wireOf| && forall i :: 0 <= i < |wireOf| ==> wireOf[i] < |kind|
    ensures ColdSafe(wireOf, kind, st) <==>
      RegistersZero(wireOf, kind, st) || forall y: nat :: !HasKind(wireOf, kind, y, Comb)
  {
    if RegistersZero(wireOf, kind, st) || forall y: nat :: !HasKind(wireOf, kind, y, Comb) {
      forall s: Split, k: Words, fns: Fns, mem: Mem, outs: seq<seq<bool>>, calls: seq<Call> |
        StartsOk(wireOf, kind, s, k, fns, mem)
        ensures StoredSplit(s, k, fns).Shaped() && RunsAlike(s, k, fns, Machine(st, mem, outs), calls)
      {
        ColdRun(s, k, fns, Machine(st, mem, outs), calls);
      }
    } else {
      var b: nat :| HasKind(wireOf, kind, b, Register) && b < |st| && st[b];
      var y: nat :| HasKind(wireOf, kind, y, Comb);
      SetBitUnsafe(wireOf, kind, st, b, y);
    }
  }

  lemma ColdRun(s: Split, k: Words, fns: Fns, m: Machine, calls: seq<Call>)
    requires StartsOk(s.d.wireOf, s.d.kind, s, k, fns, m.mem) && |m.st| == |s.d.wireOf|
    requires RegistersZero(s.d.wireOf, s.d.kind, m.st) || forall y: nat :: !HasKind(s.d.wireOf, s.d.kind, y, Comb)
    ensures StoredSplit(s, k, fns).Shaped() && RunsAlike(s, k, fns, m, calls)
  {
    var t, r := StoredSplit(s, k, fns), StoredMachine(s.d, m);
    StoredMirrors(s.d, m);
    if RegistersZero(s.d.wireOf, s.d.kind, m.st) {
      forall b: nat | b < |s.d.wireOf| && KindOf(s.d, b) == Register ensures !Value(Net(b), m.st) {
        assert HasKind(s.d.wireOf, s.d.kind, b, Register);
      }
      StoredColdStart(s, k, fns, m);
      StoredRunCorrect(s, k, fns, r, m, ColdStart(t), calls);
    } else {
      InertWords(s, k, fns);
      InertRun(t, r, ColdStart(t), calls);
      RefRunMirrors(s, k, fns, r, m, calls);
    }
  }

  lemma InertWords(s: Split, k: Words, fns: Fns)
    requires StorageOk(s, k, fns) && forall y: nat :: !HasKind(s.d.wireOf, s.d.kind, y, Comb)
    ensures StoredSplit(s, k, fns).Valid() && NoOutputs(Stored(s.d, k, fns))
  {
    StoredValid(s, k, fns);
    forall b: nat | b < |s.d.wireOf| ensures KindOf(s.d, b) != Comb {
      assert !HasKind(s.d.wireOf, s.d.kind, b, Comb);
    }
    CombNeeded(s.d);
    forall c: nat | c < |s.d.cells| ensures Stored(s.d, k, fns).cells[c].outs == [] {
      StoredDrivesSome(s, k, fns, c);
    }
  }
}
