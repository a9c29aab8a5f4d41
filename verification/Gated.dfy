/** Gated evaluation. */
module Gated {
  // Activity-gated evaluation: blocks of cells run only when marked dirty.
  //
  // Nets read outside the block that writes them (or by the clock edge or an output) are
  // kept in statics; all other written nets are uninitialised locals of each call.  A block
  // is marked by a changed input, a changed net of an earlier-run block, a changed register
  // or a memory write.

  import opened Netlist
  import opened Clocking
  import opened CombSplit
  import OutCone

  const WORD := 64

  // ---------------------------------------------------------------- the plan

  predicate Written(s: Split, w: nat)
    requires s.Shaped()
  {
    exists p :: 0 <= p < s.parts && s.WritesIn(p, w)
  }

  predicate ReadSomewhere(s: Split, w: nat)
    requires s.Shaped()
  {
    exists p :: 0 <= p < s.parts && s.ReadsIn(p, w)
  }

  /** Written by several blocks, or read by a block that does not write it. */
  predicate CrossBlock(s: Split, w: nat)
    requires s.Shaped()
  {
    || (exists p, q :: 0 <= p < s.parts && 0 <= q < s.parts && p != q && s.WritesIn(p, w) && s.WritesIn(q, w))
    || (exists p, q :: 0 <= p < s.parts && 0 <= q < s.parts && s.WritesIn(p, w) && s.ReadsIn(q, w) && !s.WritesIn(q, w))
  }

  predicate OutputWire(s: Split, w: nat) {
    exists o :: 0 <= o < |s.d.outputs| && s.OutputHas(o, w)
  }

  /** Kept in a static so that its value survives its writer block being skipped. */
  predicate Boundary(s: Split, w: nat)
    requires s.Shaped()
  {
    Written(s, w) && (CrossBlock(s, w) || s.SeqWire(w) || OutputWire(s, w))
  }

  /** A boundary net whose changes must be propagated. */
  predicate Compared(s: Split, w: nat)
    requires s.Shaped()
  {
    Boundary(s, w) && (CrossBlock(s, w) || ReadSomewhere(s, w))
  }

  /** A net private to one call: written, but not kept. */
  predicate LocalWire(s: Split, w: nat)
    requires s.Shaped()
  {
    Written(s, w) && !Boundary(s, w)
  }

  /** A wire is local when one block alone writes and reads it and neither the edge nor an output does. */
  lemma LocalMeans(s: Split, w: nat)
    requires s.Shaped()
    ensures LocalWire(s, w) <==>
      && !s.SeqWire(w) && !OutputWire(s, w)
      && exists p :: 0 <= p < s.parts && s.WritesIn(p, w) && OnlyIn(s, p, w)
  {
    if LocalWire(s, w) {
      var p :| 0 <= p < s.parts && s.WritesIn(p, w);
      assert OnlyIn(s, p, w);
    }
  }

  ghost predicate OnlyIn(s: Split, p: nat, w: nat)
    requires s.Shaped()
  {
    forall q :: 0 <= q < s.parts && q != p ==> !s.WritesIn(q, w) && !s.ReadsIn(q, w)
  }

  ghost predicate TwoWriters(s: Split, w: nat)
    requires s.Shaped()
  {
    exists p, q :: 0 <= p < q < s.parts && s.WritesIn(p, w) && s.WritesIn(q, w)
  }

  /** A kept wire is compared when two blocks write it or some block reads it. */
  lemma ComparedMeans(s: Split, w: nat)
    requires s.Shaped()
    ensures Compared(s, w) <==>
      Boundary(s, w) && (TwoWriters(s, w) || exists q :: 0 <= q < s.parts && s.ReadsIn(q, w))
  {
    if p, q :| 0 <= p < s.parts && 0 <= q < s.parts && p != q && s.WritesIn(p, w) && s.WritesIn(q, w) {
      var a, b := if p < q then p else q, if p < q then q else p;
      assert 0 <= a < b < s.parts && s.WritesIn(a, w) && s.WritesIn(b, w);
    }
  }

  /** What the code relies on: no cell that drives anything reads an undriven bit of an uninitialised local.  Of
      the storage form of a design this speaks of the bits above a wire's width as well. */
  ghost predicate LocalReadsDriven(s: Split)
    requires s.Shaped()
  {
    forall c: nat, b: nat :: DrivesSome(s.d, c) && Reads(s.d, c, b) && b < |s.d.wireOf| && LocalWire(s, s.d.wireOf[b]) ==>
      Driven(s.d, b)
  }

  predicate ReadsMem(s: Split, p: nat, m: nat)
    requires s.Shaped()
  {
    p < s.parts && exists i :: s.Lo(p) <= i < s.Lo(p + 1) && IsMemRead(s.d, s.order[i], m)
  }

  predicate IsMemRead(d: Design, c: nat, m: nat) {
    c < |d.cells| && d.cells[c].MemRead? && d.cells[c].mem == m
  }

  // ---------------------------------------------------------------- the state

  /** The persistent statics: nets, their shadows, previous inputs and registers, dirty words. */
  datatype Statics = Statics(nets: Env, sh: Env, pv: Env, dirty: seq<set<nat>>, init: bool)

  predicate IsDirty(dirty: seq<set<nat>>, p: nat) {
    p / WORD < |dirty| && p % WORD in dirty[p / WORD]
  }

  predicate WireDiffers(d: Design, e: Env, e': Env, w: nat) {
    exists b :: 0 <= b < |d.wireOf| && d.wireOf[b] == w && Value(Net(b), e) != Value(Net(b), e')
  }

  function BlockNo(i: nat, k: nat): nat { WORD * i + k }

  /** The reader blocks of `changed` in word `i`, less block `except`: one emitted constant. */
  function ReaderMask(s: Split, changed: set<nat>, except: nat, i: nat): (m: set<nat>)
    requires s.Shaped()
  {
    set k: nat | k < WORD && Marks(s, changed, except, BlockNo(i, k))
  }

  /** ORs the reader masks into the dirty words. */
  function Mark(s: Split, dirty: seq<set<nat>>, changed: set<nat>, except: nat): (r: seq<set<nat>>)
    requires s.Shaped()
    ensures |r| == |dirty|
    ensures forall p: nat :: IsDirty(r, p) <==>
      IsDirty(dirty, p) || (p / WORD < |dirty| && Marks(s, changed, except, p))
  {
    assert forall p: nat :: BlockNo(p / WORD, p % WORD) == p;
    seq(|dirty|, i requires 0 <= i < |dirty| => dirty[i] + ReaderMask(s, changed, except, i))
  }

  predicate Marks(s: Split, changed: set<nat>, except: nat, p: nat)
    requires s.Shaped()
  {
    p != except && exists w :: w in changed && s.ReadsIn(p, w)
  }

  function MarkMem(s: Split, dirty: seq<set<nat>>, mems: set<nat>): (r: seq<set<nat>>)
    requires s.Shaped()
    ensures |r| == |dirty|
    ensures forall p: nat :: IsDirty(r, p) <==>
      IsDirty(dirty, p) || (p / WORD < |dirty| && MemMarks(s, mems, p))
  {
    assert forall p: nat :: BlockNo(p / WORD, p % WORD) == p;
    seq(|dirty|, i requires 0 <= i < |dirty| =>
      dirty[i] + set k: nat | k < WORD && MemMarks(s, mems, BlockNo(i, k)))
  }

  predicate MemMarks(s: Split, mems: set<nat>, p: nat)
    requires s.Shaped()
  {
    exists m :: m in mems && ReadsMem(s, p, m)
  }

  predicate InWord(k: nat) { k < WORD }

  function FullWord(): (m: set<nat>)
    ensures forall k: nat :: k < WORD ==> k in m
  {
    set k: nat | k < WORD && InWord(k)
  }

  /** Bit `k` of dirty word `i`, of 64, stands for block `64 * i + k`: it is set for the blocks that read a changed net,
      but for the one that changed it. */
  lemma MarkMeans(s: Split, dirty: seq<set<nat>>, changed: set<nat>, except: nat, i: nat, k: nat)
    requires s.Shaped() && i < |dirty|
    ensures k in Mark(s, dirty, changed, except)[i] <==> k in dirty[i] || (k < 64 && ReadsOne(s, 64 * i + k, changed) && 64 * i + k != except)
  {
    assert k in ReaderMask(s, changed, except, i) <==> k < 64 && Marks(s, changed, except, BlockNo(i, k));
  }

  ghost predicate ReadsOne(s: Split, p: nat, changed: set<nat>)
    requires s.Shaped()
  {
    exists w :: w in changed && s.ReadsIn(p, w)
  }

  /** ... and for those that read a written memory. */
  lemma MarkMemMeans(s: Split, dirty: seq<set<nat>>, mems: set<nat>, i: nat, k: nat)
    requires s.Shaped() && i < |dirty|
    ensures k in MarkMem(s, dirty, mems)[i] <==> k in dirty[i] || (k < 64 && exists m :: m in mems && ReadsMem(s, 64 * i + k, m))
  {
    assert MemMarks(s, mems, BlockNo(i, k)) <==> exists m :: m in mems && ReadsMem(s, 64 * i + k, m);
  }

  /** A full word has 64 bits. */
  lemma FullMeans(k: nat)
    ensures k in FullWord() <==> k < 64
  {
  }

  /** The first call marks everything. */
  function Initialised(g: Statics): (r: Statics)
    ensures !g.init ==> forall p: nat :: p / WORD < |g.dirty| ==> IsDirty(r.dirty, p)
  {
    if g.init then g else g.(init := true, dirty := seq(|g.dirty|, _ => FullWord()))
  }

  function ChangedOf(s: Split, k: Kind, pv: Env, now: Env): (r: set<nat>)
    requires s.Shaped()
  {
    set w: nat | w < |s.d.kind| && s.d.kind[w] == k && ReadSomewhere(s, w) && WireDiffers(s.d, pv, now, w)
  }

  function Latched(s: Split, k: Kind, pv: Env, now: Env): (r: Env)
    requires s.Shaped()
  {
    seq(|pv|, b requires 0 <= b < |pv| =>
      if b < |s.d.wireOf| && KindOf(s.d, b) == k && ReadSomewhere(s, s.d.wireOf[b]) then Value(Net(b), now) else pv[b])
  }

  /** Compares the read inputs (registers) with their previous copies and marks the readers. */
  function Compare(s: Split, k: Kind, g: Statics, now: Env): (r: Statics)
    requires s.Shaped()
  {
    g.(pv := Latched(s, k, g.pv, now), dirty := Mark(s, g.dirty, ChangedOf(s, k, g.pv, now), s.parts))
  }

  /** The wires a gated call starts with: statics where kept, `junk` in uninitialised locals. */
  function Locals(s: Split, nets: Env, st: Env, inp: Env, junk: Env): (r: Env)
    requires s.Shaped()
    ensures |r| == |s.d.wireOf|
  {
    seq(|s.d.wireOf|, b requires 0 <= b < |s.d.wireOf| =>
      if Boundary(s, s.d.wireOf[b]) then Value(Net(b), nets)
      else if Written(s, s.d.wireOf[b]) then Value(Net(b), junk)
      else Base(s.d, st, inp)[b])
  }

  function ChangedNets(s: Split, p: nat, vals: Env, sh: Env): (r: set<nat>)
    requires s.Shaped()
  {
    set w: nat | w < |s.d.kind| && Compared(s, w) && s.WritesIn(p, w) && WireDiffers(s.d, vals, sh, w)
  }

  function NewShadow(s: Split, p: nat, vals: Env, sh: Env): (r: Env)
    requires s.Shaped()
  {
    seq(|sh|, b requires 0 <= b < |sh| =>
      if b < |s.d.wireOf| && Compared(s, s.d.wireOf[b]) && s.WritesIn(p, s.d.wireOf[b])
      then Value(Net(b), vals) else sh[b])
  }

  datatype Pass = Pass(vals: Env, sh: Env, dirty: seq<set<nat>>)

  function BlockCells(s: Split, p: nat): (r: seq<nat>)
    requires s.Shaped() && p < s.parts
  {
    s.LoMono(p);
    s.order[s.Lo(p)..s.Lo(p + 1)]
  }

  function ClearBit(dirty: seq<set<nat>>, p: nat): (r: seq<set<nat>>)
    ensures |r| == |dirty|
    ensures forall q: nat :: IsDirty(r, q) <==> IsDirty(dirty, q) && q != p
  {
    if p / WORD < |dirty| then dirty[p / WORD := dirty[p / WORD] - {p % WORD}] else dirty
  }

  /** One dirty block: clear its bit, run its cells, propagate the nets that changed. */
  function RunBlock(s: Split, p: nat, x: Pass, mem: Mem): (r: Pass)
    requires s.Shaped() && p < s.parts
  {
    var vals := Sweep(s.d, BlockCells(s, p), x.vals, mem);
    Pass(vals, NewShadow(s, p, vals, x.sh),
         Mark(s, ClearBit(x.dirty, p), ChangedNets(s, p, vals, x.sh), p))
  }

  /** Blocks below `n`, in order, each run when dirty at its turn. */
  function RunPass(s: Split, n: nat, x: Pass, mem: Mem): (r: Pass)
    requires s.Shaped() && n <= s.parts
  {
    if n == 0 then x
    else
      var before := RunPass(s, n - 1, x, mem);
      if IsDirty(before.dirty, n - 1) then RunBlock(s, n - 1, before, mem) else before
  }

  function Settle(s: Split, g: Statics, st: Env, inp: Env, mem: Mem, junk: Env): (r: Statics)
    requires s.Shaped()
  {
    var g1 := Compare(s, Input, Initialised(g), inp);
    var x := RunPass(s, s.parts, Pass(Locals(s, g1.nets, st, inp, junk), g1.sh, g1.dirty), mem);
    g1.(nets := x.vals, sh := x.sh, dirty := x.dirty)
  }

  function EnabledMems(d: Design, env: Env): (r: set<nat>) {
    set w | w in d.writes && AnyEn(w, env) :: w.mem
  }

  /** Dirtying after a clock edge that read `env`: written memories, changed registers. */
  function MarkEdge(s: Split, g: Statics, env: Env, st': Env): (r: Statics)
    requires s.Shaped()
  {
    Compare(s, Register, g.(dirty := MarkMem(s, g.dirty, EnabledMems(s.d, env))), st')
  }

  // ---------------------------------------------------------------- invariant

  /** Block `p` may be skipped: it is not marked and the first call is over. */
  predicate Clean(g: Statics, p: nat) {
    g.init && !IsDirty(g.dirty, p)
  }

  ghost predicate BlockHolds(s: Split, p: nat, full: Env, mem: Mem)
    requires s.Shaped()
  {
    p < s.parts ==> forall i :: s.Lo(p) <= i < s.Lo(p + 1) ==> Holds(s.d, s.order[i], full, mem)
  }

  ghost predicate Sized(s: Split, st: Env, g: Statics, full: Env) {
    && |full| == |st| == |g.nets| == |g.sh| == |g.pv| == |s.d.wireOf|
    && s.parts <= WORD * |g.dirty|
  }

  /** `full` is a value for every net, including the ones no call keeps: the statics agree
      with it, and the cells of every clean block satisfy their equations on it. */
  ghost predicate Inv(s: Split, st: Env, mem: Mem, g: Statics, full: Env) {
    && s.Valid() && LocalReadsDriven(s) && Sized(s, st, g, full)
    && (forall b: nat :: b < |full| && Boundary(s, s.d.wireOf[b]) ==> g.nets[b] == full[b])
    && (forall b: nat :: b < |full| && Compared(s, s.d.wireOf[b]) ==> g.sh[b] == g.nets[b])
    && (forall b: nat :: b < |full| && !Driven(s.d, b) && KindOf(s.d, b) == Comb ==> !full[b])
    && (forall b: nat :: b < |full| && KindOf(s.d, b) == Register ==> full[b] == st[b])
    && (forall b: nat :: b < |full| && KindOf(s.d, b) == Input && ReadSomewhere(s, s.d.wireOf[b]) ==> full[b] == g.pv[b])
    && (forall p: nat :: p < s.parts && Clean(g, p) ==> BlockHolds(s, p, full, mem))
  }

  /** The register shadows hold the registers. */
  ghost predicate Synced(s: Split, st: Env, g: Statics)
    requires s.Shaped()
  {
    forall b: nat :: b < |s.d.wireOf| && KindOf(s.d, b) == Register && ReadSomewhere(s, s.d.wireOf[b]) ==>
      Value(Net(b), g.pv) == Value(Net(b), st)
  }

  // ---------------------------------------------------------------- wires and bits

  lemma ReadsBit(s: Split, p: nat, i: nat, b: nat)
    requires s.Shaped() && p < s.parts && s.Lo(p) <= i < s.Lo(p + 1)
    requires Reads(s.d, s.order[i], b) && b < |s.d.wireOf|
    ensures s.ReadsIn(p, s.d.wireOf[b]) && ReadSomewhere(s, s.d.wireOf[b])
  {
    var c := s.order[i];
    var j :| 0 <= j < |s.d.cells[c].ins| && s.d.cells[c].ins[j] == Net(b);
    assert s.WireIs(s.d.cells[c].ins[j].bit, s.d.wireOf[b]);
    assert s.CellReads(s.order[i], s.d.wireOf[b]);
    assert s.ReadsIn(p, s.d.wireOf[b]);
  }

  lemma WritesBit(s: Split, p: nat, i: nat, b: nat)
    requires s.Shaped() && p < s.parts && s.Lo(p) <= i < s.Lo(p + 1)
    requires Drives(s.d, s.order[i], b) && b < |s.d.wireOf|
    ensures s.WritesIn(p, s.d.wireOf[b]) && Written(s, s.d.wireOf[b])
  {
    s.DrivesWrites(s.order[i], b);
  }

  lemma BlockOf(s: Split, c: nat) returns (p: nat, i: nat)
    requires s.Valid() && c < |s.d.cells|
    ensures p < s.parts && s.Lo(p) <= i < s.Lo(p + 1) && s.order[i] == c
  {
    assert c in s.order;
    i :| 0 <= i < |s.order| && s.order[i] == c;
    PartsPartition(s, i);
    p :| InPart(s, i, p);
  }

  /** Unwritten wires have no driven bits. */
  lemma UnwrittenUndriven(s: Split, b: nat)
    requires s.Valid() && b < |s.d.wireOf| && Driven(s.d, b)
    ensures Written(s, s.d.wireOf[b])
  {
    var c: nat :| Drives(s.d, c, b);
    var p, i := BlockOf(s, c);
    WritesBit(s, p, i, b);
  }

  // ---------------------------------------------------------------- one block

  ghost predicate AgreeOutside(s: Split, vals: Env, full: Env)
    requires s.Shaped()
  {
    && |vals| == |full| == |s.d.wireOf|
    && forall b: nat :: b < |full| && !LocalWire(s, s.d.wireOf[b]) ==> vals[b] == full[b]
  }

  /** The driver of a local bit read in block `p` is an earlier cell of that block. */
  lemma LocalDriver(s: Split, p: nat, i: nat, b: nat) returns (k: nat)
    requires s.Valid() && LocalReadsDriven(s) && p < s.parts && s.Lo(p) <= i < s.Lo(p + 1)
    requires Reads(s.d, s.order[i], b) && b < |s.d.wireOf| && LocalWire(s, s.d.wireOf[b])
    requires DrivesSome(s.d, s.order[i])
    ensures s.Lo(p) <= k < i && Drives(s.d, s.order[k], b)
  {
    var c: nat :| Drives(s.d, c, b);
    assert ReadyAt(s.d, s.order, i);
    k :| 0 <= k < i && s.order[k] == c;
    PartsPartition(s, k);
    var q: nat :| InPart(s, k, q);
    WritesBit(s, q, k, b);
    ReadsBit(s, p, i, b);
    if q != p { ReadElsewhere(s, q, p, s.d.wireOf[b]); }
  }

  /** The two environments agree on what the first `n` cells of the block have written. */
  ghost predicate AgreeWritten(s: Split, p: nat, n: nat, e: Env, f: Env)
    requires s.Shaped() && p < s.parts && s.Lo(p) + n <= |s.order|
  {
    && |e| == |f|
    && forall k, b: nat :: s.Lo(p) <= k < s.Lo(p) + n && Drives(s.d, s.order[k], b) && b < |f| ==> e[b] == f[b]
  }

  ghost predicate AgreeSoFar(s: Split, p: nat, n: nat, e: Env, f: Env)
    requires s.Shaped() && p < s.parts && s.Lo(p) + n <= |s.order|
  {
    AgreeOutside(s, e, f) && AgreeWritten(s, p, n, e, f)
  }

  /** Running a block on the call's wires or on `full` gives the same kept nets: what it reads
      from uninitialised locals it has itself written before. */
  lemma {:induction false} BlockAgree(s: Split, p: nat, cells: seq<nat>, n: nat, vals: Env, full: Env, mem: Mem)
    requires s.Valid() && LocalReadsDriven(s) && p < s.parts && n <= |cells| && IsBlock(s, p, cells)
    requires AgreeOutside(s, vals, full)
    ensures AgreeSoFar(s, p, n, SweepTo(s.d, cells, n, vals, mem), SweepTo(s.d, cells, n, full, mem))
    decreases n
  {
    if n == 0 {
    } else {
      BlockAgree(s, p, cells, n - 1, vals, full, mem);
      BlockTurn(s, p, cells, n, vals, full, mem);
    }
  }

  ghost predicate IsBlock(s: Split, p: nat, cells: seq<nat>)
    requires s.Shaped() && p < s.parts
  {
    s.Lo(p) + |cells| == s.Lo(p + 1) && forall k :: 0 <= k < |cells| ==> cells[k] == s.order[s.Lo(p) + k]
  }

  lemma BlockTurn(s: Split, p: nat, cells: seq<nat>, n: nat, vals: Env, full: Env, mem: Mem)
    requires s.Valid() && LocalReadsDriven(s) && p < s.parts && 0 < n <= |cells| && IsBlock(s, p, cells)
    requires AgreeSoFar(s, p, n - 1, SweepTo(s.d, cells, n - 1, vals, mem), SweepTo(s.d, cells, n - 1, full, mem))
    ensures AgreeSoFar(s, p, n, SweepTo(s.d, cells, n, vals, mem), SweepTo(s.d, cells, n, full, mem))
  {
    BlockCell(s, p, cells, n - 1);
    CellAgree(s, p, n - 1, cells[n - 1], SweepTo(s.d, cells, n - 1, vals, mem), SweepTo(s.d, cells, n - 1, full, mem), mem);
  }

  lemma BlockCell(s: Split, p: nat, cells: seq<nat>, k: nat)
    requires s.Valid() && p < s.parts && IsBlock(s, p, cells) && k < |cells|
    ensures s.Lo(p) + k < s.Lo(p + 1) && cells[k] == s.order[s.Lo(p) + k] && cells[k] < |s.d.cells|
  {
  }

  lemma CellAgree(s: Split, p: nat, n: nat, c: nat, e: Env, f: Env, mem: Mem)
    requires s.Valid() && LocalReadsDriven(s) && p < s.parts && s.Lo(p) + n < s.Lo(p + 1)
    requires c == s.order[s.Lo(p) + n] && c < |s.d.cells|
    requires AgreeSoFar(s, p, n, e, f)
    ensures AgreeSoFar(s, p, n + 1, Step(s.d.cells[c], e, mem), Step(s.d.cells[c], f, mem))
  {
    if DrivesSome(s.d, c) { ReadsAgree(s, p, n, c, e, f); }
    forall b: nat | b < |e| && b in s.d.cells[c].outs
      ensures Step(s.d.cells[c], e, mem)[b] == Step(s.d.cells[c], f, mem)[b]
    {
      OutBitAgree(s.d, c, e, f, mem, Pos(s.d.cells[c].outs, b));
    }
    StepAgrees(s, p, n, c, e, f, Step(s.d.cells[c], e, mem), Step(s.d.cells[c], f, mem));
  }

  /** What the next cell reads is equal: kept, or written by the block before. */
  lemma ReadsAgree(s: Split, p: nat, n: nat, c: nat, e: Env, f: Env)
    requires s.Valid() && LocalReadsDriven(s) && p < s.parts && s.Lo(p) + n < s.Lo(p + 1)
    requires c == s.order[s.Lo(p) + n] && DrivesSome(s.d, c) && AgreeSoFar(s, p, n, e, f)
    ensures forall b: nat :: Reads(s.d, c, b) && b < |e| ==> e[b] == f[b]
  {
    forall b: nat | Reads(s.d, c, b) && b < |e| ensures e[b] == f[b] {
      if LocalWire(s, s.d.wireOf[b]) {
        var k := LocalDriver(s, p, s.Lo(p) + n, b);
      }
    }
  }

  lemma StepAgrees(s: Split, p: nat, n: nat, c: nat, e: Env, f: Env, e': Env, f': Env)
    requires s.Shaped() && p < s.parts && s.Lo(p) + n < |s.order| && c == s.order[s.Lo(p) + n] && c < |s.d.cells|
    requires AgreeSoFar(s, p, n, e, f) && |e'| == |f'| == |e|
    requires forall b :: 0 <= b < |e| ==> if b in s.d.cells[c].outs then e'[b] == f'[b] else e'[b] == e[b] && f'[b] == f[b]
    ensures AgreeSoFar(s, p, n + 1, e', f')
  {
  }

  lemma BlockAgreeAll(s: Split, p: nat, vals: Env, full: Env, mem: Mem)
    requires s.Valid() && LocalReadsDriven(s) && p < s.parts && AgreeOutside(s, vals, full)
    ensures AgreeOutside(s, Sweep(s.d, BlockCells(s, p), vals, mem), Sweep(s.d, BlockCells(s, p), full, mem))
  {
    var cells := BlockCells(s, p);
    BlockAgree(s, p, cells, |cells|, vals, full, mem);
  }

  /** Cells before the block keep their equations, those of the block get theirs. */
  lemma BlockEquations(s: Split, p: nat, full: Env, mem: Mem, q: nat)
    requires s.Valid() && q <= p < s.parts && |full| == |s.d.wireOf|
    requires q < p ==> BlockHolds(s, q, full, mem)
    ensures BlockHolds(s, q, Sweep(s.d, BlockCells(s, p), full, mem), mem)
  {
    var cells := BlockCells(s, p);
    var full' := Sweep(s.d, cells, full, mem);
    OutCone.OrderInRange(s.d, s.order);
    if q == p {
      forall i, b: nat, k | 0 <= i <= k < |cells| && Reads(s.d, cells[i], b) ensures !Drives(s.d, cells[k], b) {
        NoBackEdge(s.d, s.order, s.Lo(p) + i, s.Lo(p) + k, b);
      }
      assert forall i :: 0 <= i < |cells| ==> cells[i] == s.order[s.Lo(p) + i] && cells[i] in s.order;
      SweepHolds(s.d, cells, |cells|, full, mem);
      forall i | s.Lo(p) <= i < s.Lo(p + 1) ensures Holds(s.d, s.order[i], full', mem) {
        assert cells[i - s.Lo(p)] == s.order[i];
      }
    } else {
      LoChain(s, q + 1, p);
      forall i | s.Lo(q) <= i < s.Lo(q + 1) ensures Holds(s.d, s.order[i], full', mem) {
        EarlierKept(s, i, p, |cells|, full, mem);
      }
    }
  }

  lemma {:induction false} EarlierKept(s: Split, i: nat, p: nat, n: nat, full: Env, mem: Mem)
    requires s.Valid() && p < s.parts && n <= |BlockCells(s, p)| && |full| == |s.d.wireOf|
    requires i < s.Lo(p) && Holds(s.d, s.order[i], full, mem)
    ensures Holds(s.d, s.order[i], SweepTo(s.d, BlockCells(s, p), n, full, mem), mem)
    decreases n
  {
    if n == 0 {
    } else {
      EarlierKept(s, i, p, n - 1, full, mem);
      var cells, k := BlockCells(s, p), s.Lo(p) + n - 1;
      assert cells[n - 1] == s.order[k];
      LaterCellKeeps(s, i, k, SweepTo(s.d, cells, n - 1, full, mem), mem);
    }
  }

  /** A later cell of the order keeps an earlier one's equation. */
  lemma LaterCellKeeps(s: Split, i: nat, k: nat, env: Env, mem: Mem)
    requires s.Valid() && i < k < |s.order| && |env| == |s.d.wireOf| && Holds(s.d, s.order[i], env, mem)
    ensures s.order[k] < |s.d.cells| && Holds(s.d, s.order[i], Step(s.d.cells[s.order[k]], env, mem), mem)
  {
    forall b: nat | Reads(s.d, s.order[i], b) ensures !Drives(s.d, s.order[k], b) {
      NoBackEdge(s.d, s.order, i, k, b);
    }
    HoldsKept(s.d, s.order[i], s.order[k], env, mem);
  }

  /** Only bits driven in the block change. */
  lemma BlockFrame(s: Split, p: nat, env: Env, mem: Mem, b: nat)
    requires s.Valid() && p < s.parts && b < |env| == |s.d.wireOf|
    ensures Sweep(s.d, BlockCells(s, p), env, mem)[b] == env[b] ||
      (s.WritesIn(p, s.d.wireOf[b]) && Driven(s.d, b))
  {
    var cells := BlockCells(s, p);
    if forall j :: 0 <= j < |cells| ==> !Drives(s.d, cells[j], b) {
      SweepFrame(s.d, cells, |cells|, env, mem, b);
    } else {
      var j :| 0 <= j < |cells| && Drives(s.d, cells[j], b);
      WritesBit(s, p, s.Lo(p) + j, b);
    }
  }

  // ---------------------------------------------------------------- one pass

  /** The state of a pass before block `n`: finished blocks and clean ones satisfy their
      equations on `full`, whether or not a finished one has been marked again. */
  ghost predicate Mid(s: Split, n: nat, x: Pass, full: Env, mem: Mem) {
    && s.Valid() && LocalReadsDriven(s) && n <= s.parts
    && AgreeOutside(s, x.vals, full)
    && |x.sh| == |s.d.wireOf| && s.parts <= WORD * |x.dirty|
    && (forall b: nat :: b < |full| && Compared(s, s.d.wireOf[b]) ==> x.sh[b] == x.vals[b])
    && (forall p: nat :: p < s.parts && (p < n || !IsDirty(x.dirty, p)) ==> BlockHolds(s, p, full, mem))
  }

  /** A net read in a later block and changed by block `p` gets that block marked. */
  lemma ChangeMarks(s: Split, p: nat, x: Pass, mem: Mem, q: nat, w: nat)
    requires s.Shaped() && p < s.parts && q < s.parts <= WORD * |x.dirty| && p != q
    requires w < |s.d.kind| && s.WritesIn(p, w) && s.ReadsIn(q, w)
    requires WireDiffers(s.d, RunBlock(s, p, x, mem).vals, x.sh, w)
    ensures IsDirty(RunBlock(s, p, x, mem).dirty, q)
  {
    ReadElsewhere(s, p, q, w);
    var y := RunBlock(s, p, x, mem);
    assert w in ChangedNets(s, p, y.vals, x.sh);
    assert Marks(s, ChangedNets(s, p, y.vals, x.sh), p, q);
  }

  lemma ReadElsewhere(s: Split, p: nat, q: nat, w: nat)
    requires s.Shaped() && p < s.parts && q < s.parts && p != q && s.WritesIn(p, w) && s.ReadsIn(q, w)
    ensures Compared(s, w) && Boundary(s, w)
  {
    assert CrossBlock(s, w);
    assert Written(s, w);
  }

  /** A bit changed by block `p` and read in a later block gets that block marked. */
  lemma ChangedBitMarks(s: Split, p: nat, x: Pass, full: Env, mem: Mem, q: nat, i: nat, b: nat)
    requires Mid(s, p, x, full, mem) && p < q < s.parts && s.Lo(q) <= i < s.Lo(q + 1)
    requires Reads(s.d, s.order[i], b) && b < |full|
    requires Sweep(s.d, BlockCells(s, p), full, mem)[b] != full[b]
    ensures IsDirty(RunBlock(s, p, x, mem).dirty, q)
  {
    var w := s.d.wireOf[b];
    BlockFrame(s, p, full, mem, b);
    ReadsBit(s, q, i, b);
    ReadElsewhere(s, p, q, w);
    BlockAgreeAll(s, p, x.vals, full, mem);
    assert WireDiffers(s.d, RunBlock(s, p, x, mem).vals, x.sh, w);
    ChangeMarks(s, p, x, mem, q, w);
  }

  lemma RunBlockMid(s: Split, p: nat, x: Pass, full: Env, mem: Mem)
    requires Mid(s, p, x, full, mem) && p < s.parts
    ensures Mid(s, p + 1, RunBlock(s, p, x, mem), Sweep(s.d, BlockCells(s, p), full, mem), mem)
  {
    var full' := Sweep(s.d, BlockCells(s, p), full, mem);
    var y := RunBlock(s, p, x, mem);
    BlockAgreeAll(s, p, x.vals, full, mem);
    forall b: nat | b < |full'| && Compared(s, s.d.wireOf[b]) ensures y.sh[b] == y.vals[b] {
      BlockFrame(s, p, x.vals, mem, b);
    }
    forall q: nat | q < s.parts && (q < p + 1 || !IsDirty(y.dirty, q)) ensures BlockHolds(s, q, full', mem) {
      if q <= p {
        BlockEquations(s, p, full, mem, q);
      } else {
        assert !IsDirty(x.dirty, q);
        CleanKeeps(s, p, x, full, mem, q);
      }
    }
  }

  lemma CleanKeeps(s: Split, p: nat, x: Pass, full: Env, mem: Mem, q: nat)
    requires Mid(s, p, x, full, mem) && p < q < s.parts
    requires !IsDirty(RunBlock(s, p, x, mem).dirty, q) && BlockHolds(s, q, full, mem)
    ensures BlockHolds(s, q, Sweep(s.d, BlockCells(s, p), full, mem), mem)
  {
    var full' := Sweep(s.d, BlockCells(s, p), full, mem);
    LoChain(s, p + 1, q);
    forall i | s.Lo(q) <= i < s.Lo(q + 1) ensures Holds(s.d, s.order[i], full', mem) {
      forall b: nat | Reads(s.d, s.order[i], b) && b < |full| ensures full'[b] == full[b] {
        if full'[b] != full[b] { ChangedBitMarks(s, p, x, full, mem, q, i, b); }
      }
      SameInputsHold(s, p, i, full, mem);
    }
  }

  lemma SameInputsHold(s: Split, p: nat, i: nat, full: Env, mem: Mem)
    requires s.Valid() && p < s.parts && s.Lo(p + 1) <= i < |s.order| && |full| == |s.d.wireOf|
    requires Holds(s.d, s.order[i], full, mem)
    requires forall b: nat :: Reads(s.d, s.order[i], b) && b < |full| ==>
      Sweep(s.d, BlockCells(s, p), full, mem)[b] == full[b]
    ensures Holds(s.d, s.order[i], Sweep(s.d, BlockCells(s, p), full, mem), mem)
  {
    var full', c := Sweep(s.d, BlockCells(s, p), full, mem), s.order[i];
    forall b: nat | c < |s.d.cells| && b in s.d.cells[c].outs && b < |full'|
      ensures full'[b] == OutBit(s.d.cells[c], full', mem, Pos(s.d.cells[c].outs, b))
    {
      var cells := BlockCells(s, p);
      forall j | 0 <= j < |cells| ensures !Drives(s.d, cells[j], b) {
        assert s.order[s.Lo(p) + j] == cells[j];
        assert Drives(s.d, c, b);
      }
      SweepFrame(s.d, cells, |cells|, full, mem, b);
      OutBitAgree(s.d, c, full, full', mem, Pos(s.d.cells[c].outs, b));
    }
  }

  /** The nets `full` stands for after the blocks below `n`. */
  ghost function FullAfter(s: Split, n: nat, x: Pass, full: Env, mem: Mem): (r: Env)
    requires s.Shaped() && n <= s.parts
    ensures |r| == |full|
  {
    if n == 0 then full
    else
      var before := FullAfter(s, n - 1, x, full, mem);
      if IsDirty(RunPass(s, n - 1, x, mem).dirty, n - 1) then Sweep(s.d, BlockCells(s, n - 1), before, mem) else before
  }

  /** A block found clean at its turn already satisfies its equations. */
  lemma SkipMid(s: Split, p: nat, x: Pass, full: Env, mem: Mem)
    requires Mid(s, p, x, full, mem) && p < s.parts && !IsDirty(x.dirty, p)
    ensures Mid(s, p + 1, x, full, mem)
  {
  }

  ghost predicate KeepsUndriven(d: Design, e: Env, f: Env) {
    |e| == |f| && forall b: nat :: b < |e| && !Driven(d, b) ==> e[b] == f[b]
  }

  lemma BlockKeepsUndriven(s: Split, p: nat, full: Env, mem: Mem)
    requires s.Valid() && p < s.parts && |full| == |s.d.wireOf|
    ensures KeepsUndriven(s.d, Sweep(s.d, BlockCells(s, p), full, mem), full)
  {
    forall b: nat | b < |full| && !Driven(s.d, b)
      ensures Sweep(s.d, BlockCells(s, p), full, mem)[b] == full[b]
    {
      BlockFrame(s, p, full, mem, b);
    }
  }

  /** One block of a pass, run or skipped. */
  lemma PassTurn(s: Split, p: nat, x: Pass, full: Env, mem: Mem)
    requires Mid(s, p, x, full, mem) && p < s.parts
    ensures if IsDirty(x.dirty, p) then
        var full' := Sweep(s.d, BlockCells(s, p), full, mem);
        Mid(s, p + 1, RunBlock(s, p, x, mem), full', mem) && KeepsUndriven(s.d, full', full)
      else Mid(s, p + 1, x, full, mem)
  {
    if IsDirty(x.dirty, p) {
      RunBlockMid(s, p, x, full, mem);
      BlockKeepsUndriven(s, p, full, mem);
    } else {
      SkipMid(s, p, x, full, mem);
    }
  }

  lemma KeepsChain(d: Design, e: Env, f: Env, g: Env)
    requires KeepsUndriven(d, e, f) && KeepsUndriven(d, f, g)
    ensures KeepsUndriven(d, e, g)
  {
  }

  /** A pass before block `n`, begun on `full`. */
  ghost predicate Underway(s: Split, n: nat, x: Pass, f: Env, full: Env, mem: Mem) {
    Mid(s, n, x, f, mem) && KeepsUndriven(s.d, f, full)
  }

  ghost predicate UnderwayAt(s: Split, n: nat, x: Pass, full: Env, mem: Mem)
    requires s.Shaped() && n <= s.parts
  {
    Underway(s, n, RunPass(s, n, x, mem), FullAfter(s, n, x, full, mem), full, mem)
  }

  lemma PassNext(s: Split, n: nat, x: Pass, full: Env, mem: Mem)
    requires s.Shaped() && 0 < n <= s.parts && UnderwayAt(s, n - 1, x, full, mem)
    ensures UnderwayAt(s, n, x, full, mem)
  {
    var before, f := RunPass(s, n - 1, x, mem), FullAfter(s, n - 1, x, full, mem);
    PassTurn(s, n - 1, before, f, mem);
    if IsDirty(before.dirty, n - 1) {
      KeepsChain(s.d, Sweep(s.d, BlockCells(s, n - 1), f, mem), f, full);
      assert RunPass(s, n, x, mem) == RunBlock(s, n - 1, before, mem);
    } else {
      assert RunPass(s, n, x, mem) == before;
    }
  }

  lemma PassStart(s: Split, x: Pass, full: Env, mem: Mem)
    requires Mid(s, 0, x, full, mem)
    ensures s.Shaped() && UnderwayAt(s, 0, x, full, mem)
  {
  }

  /** Block by block. */
  lemma {:induction false} PassUnderway(s: Split, n: nat, x: Pass, full: Env, mem: Mem)
    requires s.Shaped() && n <= s.parts && UnderwayAt(s, 0, x, full, mem)
    ensures UnderwayAt(s, n, x, full, mem)
    decreases n
  {
    if n == 0 {
    } else {
      PassUnderway(s, n - 1, x, full, mem);
      PassNext(s, n, x, full, mem);
    }
  }

  lemma PassMid(s: Split, n: nat, x: Pass, full: Env, mem: Mem)
    requires Mid(s, 0, x, full, mem) && n <= s.parts
    ensures Mid(s, n, RunPass(s, n, x, mem), FullAfter(s, n, x, full, mem), mem)
    ensures KeepsUndriven(s.d, FullAfter(s, n, x, full, mem), full)
  {
    PassStart(s, x, full, mem);
    PassUnderway(s, n, x, full, mem);
  }

  // ---------------------------------------------------------------- calls

  /** `full` with the inputs (or registers) replaced. */
  function Replaced(d: Design, k: Kind, full: Env, now: Env): (r: Env) {
    seq(|full|, b requires 0 <= b < |full| => if KindOf(d, b) == k then Value(Net(b), now) else full[b])
  }

  /** A bit of a read input (register) whose value is no longer the one in `was`. */
  predicate Moved(s: Split, k: Kind, was: Env, now: Env, b: nat)
    requires s.Shaped()
  {
    b < |s.d.wireOf| && KindOf(s.d, b) == k && ReadSomewhere(s, s.d.wireOf[b]) && Value(Net(b), was) != Value(Net(b), now)
  }

  /** A block left clean by a compare reads no changed net. */
  lemma Unmarked(s: Split, k: Kind, g: Statics, now: Env, p: nat, w: nat)
    requires s.Shaped() && p < s.parts <= WORD * |g.dirty| && s.ReadsIn(p, w)
    requires !IsDirty(Compare(s, k, g, now).dirty, p)
    requires w < |s.d.kind| && s.d.kind[w] == k
    ensures !WireDiffers(s.d, g.pv, now, w)
  {
    assert ReadSomewhere(s, w);
    assert !Marks(s, ChangedOf(s, k, g.pv, now), s.parts, p);
  }

  /** Blocks left clean by a compare keep their equations when the compared nets change. */
  lemma CompareKeeps(s: Split, k: Kind, g: Statics, full: Env, now: Env, mem: Mem, p: nat)
    requires s.Valid() && k != Comb && |full| == |s.d.wireOf| && s.parts <= WORD * |g.dirty| && p < s.parts
    requires forall b: nat :: b < |full| && Moved(s, k, full, now, b) ==> WireDiffers(s.d, g.pv, now, s.d.wireOf[b])
    requires !IsDirty(Compare(s, k, g, now).dirty, p) && BlockHolds(s, p, full, mem)
    ensures BlockHolds(s, p, Replaced(s.d, k, full, now), mem)
  {
    forall i | s.Lo(p) <= i < s.Lo(p + 1) ensures Holds(s.d, s.order[i], Replaced(s.d, k, full, now), mem) {
      forall b: nat | Reads(s.d, s.order[i], b) && b < |full| ensures !Moved(s, k, full, now, b) {
        ReadsBit(s, p, i, b);
        if KindOf(s.d, b) == k { Unmarked(s, k, g, now, p, s.d.wireOf[b]); }
      }
      UnmovedHold(s, k, full, now, mem, p, i);
    }
  }

  /** A cell that reads no moved bit keeps its equation. */
  lemma UnmovedHold(s: Split, k: Kind, full: Env, now: Env, mem: Mem, p: nat, i: nat)
    requires s.Valid() && k != Comb && |full| == |s.d.wireOf| && p < s.parts && s.Lo(p) <= i < s.Lo(p + 1)
    requires Holds(s.d, s.order[i], full, mem)
    requires forall b: nat :: Reads(s.d, s.order[i], b) && b < |full| ==> !Moved(s, k, full, now, b)
    ensures Holds(s.d, s.order[i], Replaced(s.d, k, full, now), mem)
  {
    var full', c := Replaced(s.d, k, full, now), s.order[i];
    forall b: nat | Reads(s.d, c, b) && b < |full| ensures full[b] == full'[b] {
      ReadsBit(s, p, i, b);
    }
    forall b: nat | c < |s.d.cells| && b in s.d.cells[c].outs && b < |full'|
      ensures full'[b] == OutBit(s.d.cells[c], full', mem, Pos(s.d.cells[c].outs, b))
    {
      assert Drives(s.d, c, b);
      OutBitAgree(s.d, c, full, full', mem, Pos(s.d.cells[c].outs, b));
    }
  }

  /** A gated settle leaves every kept net with its full-evaluation value. */
  lemma SettleCorrect(s: Split, g: Statics, st: Env, inp: Env, mem: Mem, junk: Env, full: Env)
    requires Inv(s, st, mem, g, full)
    ensures var sol, g' := Eval(s.d, s.order, st, inp, mem), Settle(s, g, st, inp, mem, junk);
      && Inv(s, st, mem, g', sol)
      && AgreeOutside(s, g'.nets, sol)
      && g'.init && (Synced(s, st, g) ==> Synced(s, st, g'))
  {
    var g0 := Initialised(g);
    var g1 := Compare(s, Input, g0, inp);
    var full1 := Replaced(s.d, Input, full, inp);
    var x := Pass(Locals(s, g1.nets, st, inp, junk), g1.sh, g1.dirty);
    SettleStart(s, g, st, inp, mem, junk, full);
    PassMid(s, s.parts, x, full1, mem);
    var y, full2 := RunPass(s, s.parts, x, mem), FullAfter(s, s.parts, x, full1, mem);
    var base := Base(s.d, st, inp);
    forall c: nat | c < |s.d.cells| ensures Holds(s.d, c, full2, mem) {
      var p, i := BlockOf(s, c);
      assert BlockHolds(s, p, full2, mem);
    }
    assert Solves(s.d, full2, base, mem);
    SolutionUnique(s.d, s.order, base, mem, full2);
    SettleEnd(s, g1, y, st, inp, mem);
  }

  lemma SettleStart(s: Split, g: Statics, st: Env, inp: Env, mem: Mem, junk: Env, full: Env)
    requires Inv(s, st, mem, g, full)
    ensures var g1 := Compare(s, Input, Initialised(g), inp);
      Mid(s, 0, Pass(Locals(s, g1.nets, st, inp, junk), g1.sh, g1.dirty), Replaced(s.d, Input, full, inp), mem)
  {
    var g0 := Initialised(g);
    var g1 := Compare(s, Input, g0, inp);
    var full1 := Replaced(s.d, Input, full, inp);
    var vals := Locals(s, g1.nets, st, inp, junk);
    forall b: nat | b < |full1| && !LocalWire(s, s.d.wireOf[b]) ensures vals[b] == full1[b] {
      if Boundary(s, s.d.wireOf[b]) {
        BoundaryIsComb(s, b);
      } else if KindOf(s.d, b) == Comb && Driven(s.d, b) {
        UnwrittenUndriven(s, b);
      }
    }
    forall b: nat | b < |full1| && Compared(s, s.d.wireOf[b]) ensures g1.sh[b] == vals[b] {}
    forall p: nat | p < s.parts && !IsDirty(g1.dirty, p) ensures BlockHolds(s, p, full1, mem) {
      assert !IsDirty(g0.dirty, p);
      assert g.init;
      assert Clean(g, p);
      CompareKeeps(s, Input, g0, full, inp, mem, p);
    }
  }

  lemma BoundaryIsComb(s: Split, b: nat)
    requires s.Valid() && b < |s.d.wireOf| && Written(s, s.d.wireOf[b])
    ensures KindOf(s.d, b) == Comb
  {
    var w := s.d.wireOf[b];
    var p :| 0 <= p < s.parts && s.WritesIn(p, w);
    var i :| s.Lo(p) <= i < s.Lo(p + 1) && s.CellWrites(s.order[i], w);
    var c := s.order[i];
    var j :| 0 <= j < |s.d.cells[c].outs| && s.WireIs(s.d.cells[c].outs[j], w);
    assert Drives(s.d, c, s.d.cells[c].outs[j]);
  }

  lemma SettleEnd(s: Split, g1: Statics, y: Pass, st: Env, inp: Env, mem: Mem)
    requires |st| == |g1.pv| == |s.d.wireOf| && g1.init
    requires Mid(s, s.parts, y, Eval(s.d, s.order, st, inp, mem), mem)
    requires Solves(s.d, Eval(s.d, s.order, st, inp, mem), Base(s.d, st, inp), mem)
    requires forall b: nat :: b < |g1.pv| && KindOf(s.d, b) == Input && ReadSomewhere(s, s.d.wireOf[b]) ==>
      g1.pv[b] == Value(Net(b), inp)
    ensures Inv(s, st, mem, g1.(nets := y.vals, sh := y.sh, dirty := y.dirty), Eval(s.d, s.order, st, inp, mem))
  {
    var sol := Eval(s.d, s.order, st, inp, mem);
    forall b: nat | b < |sol| && KindOf(s.d, b) != Comb ensures sol[b] == Base(s.d, st, inp)[b] {
      assert !Driven(s.d, b);
    }
  }

  /** What the clock edge and the outputs read after a settle is the full evaluation. */
  lemma KeptReads(s: Split, vals: Env, sol: Env, st: Env, mem: Mem)
    requires s.Valid() && AgreeOutside(s, vals, sol)
    ensures NextState(s.d, vals, st) == NextState(s.d, sol, st)
    ensures NextMem(s.d, vals, mem) == NextMem(s.d, sol, mem)
    ensures EnabledMems(s.d, vals) == EnabledMems(s.d, sol)
    ensures Outputs(s.d, vals) == Outputs(s.d, sol)
  {
    forall b: nat | b < |vals| && SeqReads(s.d, b) ensures vals[b] == sol[b] {
      assert s.WireIs(b, s.d.wireOf[b]);
      assert s.SeqWire(s.d.wireOf[b]);
    }
    CommitFrame(s.d, vals, sol, st, mem);
    forall w | w in s.d.writes ensures AnyEn(w, vals) == AnyEn(w, sol) {
      forall j | 0 <= j < |w.en| ensures EnAt(w, vals, j) == EnAt(w, sol, j) {
        if w.en[j].Net? { assert SeqReads(s.d, w.en[j].bit); }
      }
    }
    forall o | 0 <= o < |s.d.outputs| ensures PortBits(s.d, vals, o) == PortBits(s.d, sol, o) {
      forall k | 0 <= k < |s.d.outputs[o]|
        ensures Value(Net(s.d.outputs[o][k]), vals) == Value(Net(s.d.outputs[o][k]), sol)
      {
        var b := s.d.outputs[o][k];
        if b < |vals| {
          assert s.WireIs(b, s.d.wireOf[b]);
          assert s.OutputHas(o, s.d.wireOf[b]);
          assert OutputWire(s, s.d.wireOf[b]);
        }
      }
    }
  }

  /** Cells whose memory no enabled port writes keep their equations. */
  lemma MemKeeps(s: Split, p: nat, full: Env, env: Env, mem: Mem)
    requires s.Valid() && p < s.parts && |full| == |s.d.wireOf|
    requires BlockHolds(s, p, full, mem)
    requires forall m :: m in EnabledMems(s.d, env) ==> !ReadsMem(s, p, m)
    ensures BlockHolds(s, p, full, NextMem(s.d, env, mem))
  {
    var mem' := NextMem(s.d, env, mem);
    forall i | s.Lo(p) <= i < s.Lo(p + 1) ensures Holds(s.d, s.order[i], full, mem') {
      var c := s.order[i];
      if c < |s.d.cells| && s.d.cells[c].MemRead? {
        var m := s.d.cells[c].mem;
        assert IsMemRead(s.d, s.order[i], m);
        assert ReadsMem(s, p, m);
        SortedWritesAscending(s.d.writes);
        forall w | w in SortedWrites(s.d.writes) && AnyEn(w, env) ensures w.mem != m {
          assert w.mem in EnabledMems(s.d, env);
        }
        MemoryFrame(SortedWrites(s.d.writes), env, mem, m);
      }
      assert Holds(s.d, c, full, mem);
    }
  }

  /** No read register moves, unnoticed, to the value its shadow happens to hold. */
  ghost predicate ChangesSeen(s: Split, st: Env, st': Env, g: Statics)
    requires s.Shaped()
  {
    forall b: nat :: b < |s.d.wireOf| && Moved(s, Register, st, st', b) ==> WireDiffers(s.d, g.pv, st', s.d.wireOf[b])
  }

  lemma SyncedSees(s: Split, st: Env, st': Env, g: Statics)
    requires s.Shaped() && Synced(s, st, g)
    ensures ChangesSeen(s, st, st', g)
  {
  }

  /** A clock edge that reads `env` keeps the invariant and synchronises the shadows. */
  lemma EdgeKeeps(s: Split, g: Statics, st: Env, mem: Mem, full: Env, env: Env, sol: Env)
    requires Inv(s, st, mem, g, full) && EnabledMems(s.d, env) == EnabledMems(s.d, sol)
    requires ChangesSeen(s, st, NextState(s.d, sol, st), g)
    ensures var st', mem' := NextState(s.d, sol, st), NextMem(s.d, sol, mem);
      var g' := MarkEdge(s, g, env, st');
      && Inv(s, st', mem', g', Replaced(s.d, Register, full, st'))
      && Synced(s, st', g')
  {
    var st', mem' := NextState(s.d, sol, st), NextMem(s.d, sol, mem);
    var g' := MarkEdge(s, g, env, st');
    forall p: nat | p < s.parts && Clean(g', p) ensures BlockHolds(s, p, Replaced(s.d, Register, full, st'), mem') {
      EdgeClean(s, g, st, mem, full, env, sol, p);
    }
    EdgeNets(s, g, g', st, st', mem, mem', full);
  }

  /** The part of the invariant that does not speak of cells. */
  lemma EdgeNets(s: Split, g: Statics, g': Statics, st: Env, st': Env, mem: Mem, mem': Mem, full: Env)
    requires Inv(s, st, mem, g, full) && |st'| == |st|
    requires g'.nets == g.nets && g'.sh == g.sh && |g'.dirty| == |g.dirty| && g'.pv == Latched(s, Register, g.pv, st')
    requires forall p: nat :: p < s.parts && Clean(g', p) ==> BlockHolds(s, p, Replaced(s.d, Register, full, st'), mem')
    ensures Inv(s, st', mem', g', Replaced(s.d, Register, full, st')) && Synced(s, st', g')
  {
    forall b: nat | b < |full| && Boundary(s, s.d.wireOf[b]) ensures KindOf(s.d, b) == Comb {
      BoundaryIsComb(s, b);
    }
  }

  lemma EdgeClean(s: Split, g: Statics, st: Env, mem: Mem, full: Env, env: Env, sol: Env, p: nat)
    requires Inv(s, st, mem, g, full) && EnabledMems(s.d, env) == EnabledMems(s.d, sol)
    requires ChangesSeen(s, st, NextState(s.d, sol, st), g)
    requires p < s.parts && Clean(MarkEdge(s, g, env, NextState(s.d, sol, st)), p)
    ensures BlockHolds(s, p, Replaced(s.d, Register, full, NextState(s.d, sol, st)), NextMem(s.d, sol, mem))
  {
    var st', mems := NextState(s.d, sol, st), EnabledMems(s.d, env);
    var h := g.(dirty := MarkMem(s, g.dirty, mems));
    assert !IsDirty(h.dirty, p);
    assert Clean(g, p) && !MemMarks(s, mems, p);
    MemKeeps(s, p, full, sol, mem);
    CompareKeeps(s, Register, h, full, st', NextMem(s.d, sol, mem), p);
  }

  // ---------------------------------------------------------------- whole runs

  datatype Call =
    | CombCall(inp: Env, live: seq<bool>, junk: Env)
    | ClockCall(inp: Env, junk: Env)
    | ClockOutCall(inp: Env, live: seq<bool>)

  /** Registers, memories and the caller's output struct. */
  datatype Machine = Machine(st: Env, mem: Mem, outs: seq<seq<bool>>)

  /** The meaning of a call: full evaluation. */
  function RefStep(s: Split, m: Machine, c: Call): (r: Machine) {
    var pre := Eval(s.d, s.order, m.st, c.inp, m.mem);
    match c
    case CombCall(_, live, _) => m.(outs := OutCone.EmitOutputs(s.d, pre, live, m.outs))
    case ClockCall(_, _) => m.(st := NextState(s.d, pre, m.st), mem := NextMem(s.d, pre, m.mem))
    case ClockOutCall(inp, live) =>
      var st', mem' := NextState(s.d, pre, m.st), NextMem(s.d, pre, m.mem);
      Machine(st', mem', OutCone.EmitOutputs(s.d, Eval(s.d, s.order, st', inp, mem'), live, m.outs))
  }

  /** The meaning of a call, spelt out. */
  lemma RefStepMeans(s: Split, m: Machine, c: Call)
    requires s.Valid()
    ensures var pre, r := Eval(s.d, s.order, m.st, c.inp, m.mem), RefStep(s, m, c);
      && (c.CombCall? ==> r.st == m.st && r.mem == m.mem && OutCone.Emitted(s.d, pre, c.live, m.outs, r.outs))
      && (!c.CombCall? ==> Clocked(s.d, pre, m.st, r.st) && MemClocked(s.d, pre, m.mem, r.mem))
      && (c.ClockCall? ==> r.outs == m.outs)
      && (c.ClockOutCall? ==>
            OutCone.Emitted(s.d, Eval(s.d, s.order, r.st, c.inp, r.mem), c.live, m.outs, r.outs))
  {
    var pre, r := Eval(s.d, s.order, m.st, c.inp, m.mem), RefStep(s, m, c);
    NextStateMeans(s.d, pre, m.st);
    NextMemMeans(s.d, pre, m.mem);
    match c
    case CombCall(_, live, _) => OutCone.EmitMeans(s.d, pre, live, m.outs);
    case ClockCall(_, _) =>
    case ClockOutCall(inp, live) => OutCone.EmitMeans(s.d, Eval(s.d, s.order, r.st, inp, r.mem), live, m.outs);
  }

  /** The gated code: `sm_comb` and `sm_clock` settle the dirty blocks; `sm_clock_out`
      evaluates everything in locals and only marks. */
  function GatedStep(s: Split, m: Machine, g: Statics, c: Call): (r: (Machine, Statics))
    requires s.Shaped()
  {
    match c
    case CombCall(inp, live, junk) =>
      var g' := Settle(s, g, m.st, inp, m.mem, junk);
      (m.(outs := OutCone.EmitOutputs(s.d, g'.nets, live, m.outs)), g')
    case ClockCall(inp, junk) =>
      var g' := Settle(s, g, m.st, inp, m.mem, junk);
      var st' := NextState(s.d, g'.nets, m.st);
      (m.(st := st', mem := NextMem(s.d, g'.nets, m.mem)), MarkEdge(s, g', g'.nets, st'))
    case ClockOutCall(inp, live) =>
      var pre := Eval(s.d, s.order, m.st, inp, m.mem);
      var st' := NextState(s.d, pre, m.st);
      (Machine(st', NextMem(s.d, pre, m.mem),
               OutCone.EmitOutputs(s.d, OutCone.FusedEnv(s.d, s.order, live, m.st, inp, m.mem), live, m.outs)),
       MarkEdge(s, g, pre, st'))
  }

  /** Some value of all nets makes the statics consistent. */
  ghost predicate Consistent(s: Split, m: Machine, g: Statics) {
    && (exists full: Env :: Inv(s, m.st, m.mem, g, full))
    && Synced(s, m.st, g)
    && |s.d.outputs| <= OutCone.MASK_BITS
  }

  /** Every call of the gated code does what full evaluation does, and keeps the invariant. */
  lemma GatedStepCorrect(s: Split, m: Machine, g: Statics, c: Call)
    requires s.Shaped() && Consistent(s, m, g)
    ensures GatedStep(s, m, g, c).0 == RefStep(s, m, c)
    ensures Consistent(s, GatedStep(s, m, g, c).0, GatedStep(s, m, g, c).1)
  {
    var full: Env :| Inv(s, m.st, m.mem, g, full);
    var sol := Eval(s.d, s.order, m.st, c.inp, m.mem);
    match c
    case CombCall(inp, live, junk) =>
      SettleCorrect(s, g, m.st, inp, m.mem, junk, full);
      var g' := Settle(s, g, m.st, inp, m.mem, junk);
      KeptReads(s, g'.nets, sol, m.st, m.mem);
      SameOutputs(s.d, g'.nets, sol, live, m.outs);
    case ClockCall(inp, junk) =>
      SettleCorrect(s, g, m.st, inp, m.mem, junk, full);
      var g' := Settle(s, g, m.st, inp, m.mem, junk);
      KeptReads(s, g'.nets, sol, m.st, m.mem);
      SyncedSees(s, m.st, NextState(s.d, sol, m.st), g');
      EdgeKeeps(s, g', m.st, m.mem, sol, g'.nets, sol);
    case ClockOutCall(inp, live) =>
      SyncedSees(s, m.st, NextState(s.d, sol, m.st), g);
      EdgeKeeps(s, g, m.st, m.mem, full, sol, sol);
      OutCone.FusedOutputs(s.d, s.order, live, m.st, inp, m.mem, m.outs);
  }

  lemma SameOutputs(d: Design, e: Env, e': Env, live: seq<bool>, prev: seq<seq<bool>>)
    requires Outputs(d, e) == Outputs(d, e')
    ensures OutCone.EmitOutputs(d, e, live, prev) == OutCone.EmitOutputs(d, e', live, prev)
  {
    forall o | 0 <= o < |d.outputs| ensures PortBits(d, e, o) == PortBits(d, e', o) {
      assert Outputs(d, e)[o] == Outputs(d, e')[o];
    }
  }

  function RefRun(s: Split, m: Machine, calls: seq<Call>): (r: seq<Machine>)
    ensures |r| == |calls| + 1
    decreases |calls|
  {
    if calls == [] then [m] else [m] + RefRun(s, RefStep(s, m, calls[0]), calls[1..])
  }

  function GatedRun(s: Split, m: Machine, g: Statics, calls: seq<Call>): (r: seq<Machine>)
    requires s.Shaped()
    decreases |calls|
  {
    if calls == [] then [m]
    else
      var (m', g') := GatedStep(s, m, g, calls[0]);
      [m] + GatedRun(s, m', g', calls[1..])
  }

  /** Over every sequence of calls and inputs, registers, memories and outputs of the gated
      code equal those of full evaluation after each call. */
  lemma {:induction false} GatedRunCorrect(s: Split, m: Machine, g: Statics, calls: seq<Call>)
    requires s.Shaped() && Consistent(s, m, g)
    ensures GatedRun(s, m, g, calls) == RefRun(s, m, calls)
    decreases |calls|
  {
    if calls == [] {
    } else {
      GatedStepCorrect(s, m, g, calls[0]);
      var (m', g') := GatedStep(s, m, g, calls[0]);
      GatedRunCorrect(s, m', g', calls[1..]);
    }
  }

  /** The statics a program starts with. */
  function ColdStart(s: Split): (g: Statics)
    ensures |g.nets| == |g.sh| == |g.pv| == |s.d.wireOf|
  {
    var zeros := seq(|s.d.wireOf|, _ => false);
    Statics(zeros, zeros, zeros, seq((s.parts + WORD - 1) / WORD, _ => {}), false)
  }

  /** They are zero, one bit for each block. */
  lemma ColdStartMeans(s: Split)
    ensures var g := ColdStart(s);
      && !g.init && |g.dirty| == (s.parts + 63) / 64 && (forall i :: 0 <= i < |g.dirty| ==> g.dirty[i] == {})
      && forall b :: 0 <= b < |s.d.wireOf| ==> !g.nets[b] && !g.sh[b] && !g.pv[b]
  {
  }

  ghost predicate ReadRegistersZero(s: Split, st: Env)
    requires s.Shaped()
  {
    forall b: nat :: b < |s.d.wireOf| && KindOf(s.d, b) == Register && ReadSomewhere(s, s.d.wireOf[b]) ==>
      !Value(Net(b), st)
  }

  /** Starting cold is consistent when every register a cell reads resets to zero. */
  lemma ColdStartConsistent(s: Split, m: Machine)
    requires s.Valid() && LocalReadsDriven(s) && |m.st| == |s.d.wireOf| && |s.d.outputs| <= OutCone.MASK_BITS
    requires ReadRegistersZero(s, m.st)
    ensures Consistent(s, m, ColdStart(s))
  {
    var full := seq(|s.d.wireOf|, b requires 0 <= b < |s.d.wireOf| => KindOf(s.d, b) == Register && m.st[b]);
    forall b: nat | b < |full| && Boundary(s, s.d.wireOf[b]) ensures !full[b] {
      BoundaryIsComb(s, b);
    }
    assert Inv(s, m.st, m.mem, ColdStart(s), full);
  }
}
