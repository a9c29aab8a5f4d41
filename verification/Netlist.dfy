/** The netlist and its reference meaning. */
module Netlist {
  // The netlist the state-machine generator compiles, and its reference meaning.
  //
  // A design's wires are laid out in one flat array of bits; `wireOf` says which
  // wire a bit belongs to and `kind` whether that wire is a module input, a
  // register or a combinational wire.  A cell reads a list of signals and drives a
  // list of bits, in general slices of several wires.

  import opened Bits

  datatype Sig = Const(value: bool) | Net(bit: nat)

  datatype Kind = Input | Register | Comb

  /** `fn(inputs, j)` is output bit `j` of a logic cell; the theorems below hold for
      every such function.  A memory read port looks its address up in memory `mem`. */
  datatype Cell =
    | Logic(fn: (seq<bool>, nat) -> bool, ins: seq<Sig>, outs: seq<nat>)
    | MemRead(mem: nat, ins: seq<Sig>, outs: seq<nat>)

  /** One clocked slice of a register: bit `q[k]` takes `d[k]` when `en` is high. */
  datatype RegSlice = RegSlice(q: seq<nat>, d: seq<Sig>, en: Sig)

  /** A memory write port with its priority and per-bit enables. */
  datatype MemWrite = MemWrite(mem: nat, prio: nat, addr: seq<Sig>, data: seq<Sig>, en: seq<Sig>)

  datatype Design = Design(
    wireOf: seq<nat>,
    kind: seq<Kind>,
    cells: seq<Cell>,
    slices: seq<RegSlice>,
    writes: seq<MemWrite>,
    outputs: seq<seq<nat>>)

  type Env = seq<bool>
  type Mem = seq<seq<seq<bool>>>

  // ---------------------------------------------------------------- cells

  predicate Drives(d: Design, c: nat, b: nat) {
    c < |d.cells| && b in d.cells[c].outs
  }

  predicate Reads(d: Design, c: nat, b: nat) {
    c < |d.cells| && Net(b) in d.cells[c].ins
  }

  predicate DrivesSome(d: Design, c: nat) {
    c < |d.cells| && d.cells[c].outs != []
  }

  ghost predicate Driven(d: Design, b: nat) {
    exists c: nat :: Drives(d, c, b)
  }

  ghost predicate DistinctBits(bs: seq<nat>) {
    forall i, j :: 0 <= i < j < |bs| ==> bs[i] != bs[j]
  }

  function KindOf(d: Design, b: nat): Kind { KindIn(d.wireOf, d.kind, b) }

  function KindIn(wireOf: seq<nat>, kind: seq<Kind>, b: nat): Kind {
    if b < |wireOf| && wireOf[b] < |kind| then kind[wireOf[b]] else Comb
  }

  /** Every bit exists, no bit has two drivers, only combinational wires are driven by
      cells, and the register slices are disjoint. */
  ghost predicate WellFormed(d: Design) {
    && (forall b :: 0 <= b < |d.wireOf| ==> d.wireOf[b] < |d.kind|)
    && (forall c: nat, b: nat :: Reads(d, c, b) ==> b < |d.wireOf|)
    && (forall c: nat, b: nat :: Drives(d, c, b) ==> b < |d.wireOf| && KindOf(d, b) == Comb)
    && (forall c: nat :: c < |d.cells| ==> DistinctBits(d.cells[c].outs))
    && (forall c: nat, c': nat, b: nat :: Drives(d, c, b) && Drives(d, c', b) ==> c == c')
    && SlicesOk(d)
  }

  ghost predicate SlicesOk(d: Design) { SlicesFit(d.slices, d.wireOf, d.kind) }

  /** Register slices cover register bits, each bit at most once. */
  ghost predicate SlicesFit(slices: seq<RegSlice>, wireOf: seq<nat>, kind: seq<Kind>) {
    && (forall r: nat :: r < |slices| ==> SliceFits(slices[r], wireOf, kind))
    && (forall r: nat, r': nat, b: nat ::
          r < |slices| && r' < |slices| && b in slices[r].q && b in slices[r'].q ==> r == r')
  }

  /** The bits of wire `w` below `n`. */
  function BitsOf(wireOf: seq<nat>, w: nat, n: nat): (q: seq<nat>)
    requires n <= |wireOf|
    ensures forall b: nat :: b in q <==> b < n && wireOf[b] == w
    ensures DistinctBits(q)
    decreases n
  {
    if n == 0 then []
    else if wireOf[n - 1] == w then BitsOf(wireOf, w, n - 1) + [n - 1]
    else BitsOf(wireOf, w, n - 1)
  }

  ghost predicate SliceFits(s: RegSlice, wireOf: seq<nat>, kind: seq<Kind>) {
    && |s.d| == |s.q| && DistinctBits(s.q)
    && forall b: nat :: b in s.q ==> b < |wireOf| && KindIn(wireOf, kind, b) == Register
  }

  function Value(s: Sig, env: Env): bool {
    match s
    case Const(v) => v
    case Net(b) => b < |env| && env[b]
  }

  function Values(ss: seq<Sig>, env: Env): (v: seq<bool>) {
    seq(|ss|, i requires 0 <= i < |ss| => Value(ss[i], env))
  }

  function WordAt(mem: Mem, m: nat, a: nat): seq<bool> {
    if m < |mem| && a < |mem[m]| then mem[m][a] else []
  }

  /** The value cell `c` computes for its output bit `j`. */
  function OutBit(c: Cell, env: Env, mem: Mem, j: nat): bool {
    match c
    case Logic(fn, ins, _) => fn(Values(ins, env), j)
    case MemRead(m, ins, _) => var w := WordAt(mem, m, Num(Values(ins, env))); j < |w| && w[j]
  }

  function Pos(bs: seq<nat>, b: nat): (k: nat)
    requires b in bs
    ensures k < |bs| && bs[k] == b
  {
    if bs[0] == b then 0 else 1 + Pos(bs[1..], b)
  }

  /** The environment after cell `c` ran: its output bits replaced, nothing else touched. */
  function Step(c: Cell, env: Env, mem: Mem): (r: Env) {
    seq(|env|, b requires 0 <= b < |env| =>
      if b in c.outs then OutBit(c, env, mem, Pos(c.outs, b)) else env[b])
  }

  /** Running the first `n` cells of `order` one after the other. */
  function SweepTo(d: Design, order: seq<nat>, n: nat, env: Env, mem: Mem): (r: Env)
    requires n <= |order|
    ensures |r| == |env|
  {
    if n == 0 then env
    else
      var before := SweepTo(d, order, n - 1, env, mem);
      var c := order[n-1];
      if c < |d.cells| then Step(d.cells[c], before, mem) else before
  }

  /** Running all cells of `order`. */
  function Sweep(d: Design, order: seq<nat>, env: Env, mem: Mem): (r: Env)
    ensures |r| == |env|
  {
    SweepTo(d, order, |order|, env, mem)
  }

  /** The equation of cell `c`: each bit it drives has the value the cell computes. */
  ghost predicate Holds(d: Design, c: nat, env: Env, mem: Mem)
  {
    c < |d.cells| ==> forall b: nat :: b in d.cells[c].outs && b < |env| ==>
      env[b] == OutBit(d.cells[c], env, mem, Pos(d.cells[c].outs, b))
  }

  /** All cell equations hold and undriven bits are as in `base`. */
  ghost predicate Solves(d: Design, env: Env, base: Env, mem: Mem) {
    && |env| == |base| == |d.wireOf|
    && (forall c: nat :: c < |d.cells| ==> Holds(d, c, env, mem))
    && (forall b: nat :: b < |env| && !Driven(d, b) ==> env[b] == base[b])
  }

  /** What the emitted prologue sets up: input and register aliases, other wires zero. */
  function Base(d: Design, st: Env, inp: Env): (r: Env)
  {
    seq(|d.wireOf|, b requires 0 <= b < |d.wireOf| =>
      match KindOf(d, b)
      case Input => b < |inp| && inp[b]
      case Register => b < |st| && st[b]
      case Comb => false)
  }

  // ---------------------------------------------------------------- schedules

  ghost predicate Distinct(order: seq<nat>) {
    forall i, j :: 0 <= i < j < |order| ==> order[i] != order[j]
  }

  /** Every cell whose output `order[i]` reads stands before it. */
  ghost predicate ReadyAt(d: Design, order: seq<nat>, i: nat)
    requires i < |order|
  {
    forall b: nat, p: nat :: Reads(d, order[i], b) && Drives(d, p, b) ==> p in order[..i]
  }

  ghost predicate Topological(d: Design, order: seq<nat>) {
    && Distinct(order)
    && (forall i :: 0 <= i < |order| ==> order[i] < |d.cells|)
    && (forall c: nat :: c < |d.cells| ==> c in order)
    && (forall i :: 0 <= i < |order| ==> ReadyAt(d, order, i))
  }

  /** The value of every bit: one in-order sweep over the prologue's environment. */
  function Eval(d: Design, order: seq<nat>, st: Env, inp: Env, mem: Mem): (r: Env)
  {
    Sweep(d, order, Base(d, st, inp), mem)
  }

  // ---------------------------------------------------------------- framing

  lemma OutBitFrame(c: Cell, e: Env, e': Env, mem: Mem, j: nat)
    requires forall s :: s in c.ins ==> Value(s, e) == Value(s, e')
    ensures OutBit(c, e, mem, j) == OutBit(c, e', mem, j)
  {
    assert Values(c.ins, e) == Values(c.ins, e');
  }

  /** Bits that agree on everything the cell reads give the same outputs. */
  lemma OutBitAgree(d: Design, c: nat, e: Env, e': Env, mem: Mem, j: nat)
    requires c < |d.cells| && |e| == |e'|
    requires forall b: nat :: Reads(d, c, b) && b < |e| ==> e[b] == e'[b]
    ensures OutBit(d.cells[c], e, mem, j) == OutBit(d.cells[c], e', mem, j)
  {
    forall s | s in d.cells[c].ins
      ensures Value(s, e) == Value(s, e')
    {
      if s.Net? { assert Reads(d, c, s.bit); }
    }
    OutBitFrame(d.cells[c], e, e', mem, j);
  }

  /** A later cell that neither drives `c`'s outputs nor a bit `c` reads keeps `c`'s equation. */
  lemma HoldsKept(d: Design, c: nat, k: nat, env: Env, mem: Mem)
    requires WellFormed(d) && |env| == |d.wireOf|
    requires c < |d.cells| && k < |d.cells| && c != k
    requires Holds(d, c, env, mem)
    requires forall b: nat :: Reads(d, c, b) ==> !Drives(d, k, b)
    ensures Holds(d, c, Step(d.cells[k], env, mem), mem)
  {
    var env' := Step(d.cells[k], env, mem);
    forall b: nat | b in d.cells[c].outs && b < |env'|
      ensures env'[b] == OutBit(d.cells[c], env', mem, Pos(d.cells[c].outs, b))
    {
      assert Drives(d, c, b);
      assert !Drives(d, k, b);
      OutBitAgree(d, c, env, env', mem, Pos(d.cells[c].outs, b));
    }
  }

  lemma HoldsNow(d: Design, c: nat, env: Env, mem: Mem)
    requires WellFormed(d) && |env| == |d.wireOf| && c < |d.cells|
    requires forall b: nat :: Reads(d, c, b) ==> !Drives(d, c, b)
    ensures Holds(d, c, Step(d.cells[c], env, mem), mem)
  {
    var env' := Step(d.cells[c], env, mem);
    forall b: nat | b in d.cells[c].outs && b < |env'|
      ensures env'[b] == OutBit(d.cells[c], env', mem, Pos(d.cells[c].outs, b))
    {
      OutBitAgree(d, c, env, env', mem, Pos(d.cells[c].outs, b));
    }
  }

  /** Cells not in `order` leave their bits alone. */
  lemma {:induction false} SweepFrame(d: Design, order: seq<nat>, n: nat, env: Env, mem: Mem, b: nat)
    requires b < |env| && n <= |order|
    requires forall i :: 0 <= i < n ==> !Drives(d, order[i], b)
    ensures SweepTo(d, order, n, env, mem)[b] == env[b]
    decreases n
  {
    if n == 0 {
    } else {
      SweepFrame(d, order, n - 1, env, mem, b);
    }
  }

  /** A slice of the order continues where the cells before it stopped. */
  lemma {:induction false} SweepSlice(d: Design, order: seq<nat>, lo: nat, part: seq<nat>, n: nat, env: Env, mem: Mem)
    requires n <= |part| && lo + n <= |order| && forall i :: 0 <= i < n ==> part[i] == order[lo + i]
    ensures SweepTo(d, part, n, SweepTo(d, order, lo, env, mem), mem) == SweepTo(d, order, lo + n, env, mem)
    decreases n
  {
    if n == 0 {
    } else {
      SweepSlice(d, order, lo, part, n - 1, env, mem);
    }
  }

  // ---------------------------------------------------------------- main results

  /** After an in-order sweep of any prefix, every cell of the prefix satisfies its equation. */
  lemma {:induction false} SweepHolds(d: Design, order: seq<nat>, n: nat, env: Env, mem: Mem)
    requires WellFormed(d) && |env| == |d.wireOf|
    requires n <= |order| && Distinct(order)
    requires forall i :: 0 <= i < |order| ==> order[i] < |d.cells|
    requires forall i, b: nat, k :: 0 <= i <= k < n && Reads(d, order[i], b) ==> !Drives(d, order[k], b)
    ensures forall i :: 0 <= i < n ==> Holds(d, order[i], SweepTo(d, order, n, env, mem), mem)
    decreases n
  {
    if n == 0 {
    } else {
      SweepHolds(d, order, n - 1, env, mem);
      var k, before := order[n-1], SweepTo(d, order, n - 1, env, mem);
      forall i | 0 <= i < n
        ensures Holds(d, order[i], Step(d.cells[k], before, mem), mem)
      {
        if i == n - 1 { HoldsNow(d, k, before, mem); }
        else { HoldsKept(d, order[i], k, before, mem); }
      }
    }
  }

  /** In a ready order no cell drives a bit that it or an earlier cell reads. */
  lemma NoBackEdge(d: Design, order: seq<nat>, i: nat, k: nat, b: nat)
    requires Distinct(order) && i <= k < |order| && ReadyAt(d, order, i) && Reads(d, order[i], b)
    ensures !Drives(d, order[k], b)
  {
  }

  /** One in-order sweep solves all cell equations. */
  lemma SweepSolves(d: Design, order: seq<nat>, base: Env, mem: Mem)
    requires WellFormed(d) && Topological(d, order) && |base| == |d.wireOf|
    ensures Solves(d, Sweep(d, order, base, mem), base, mem)
  {
    forall i, b: nat, k | 0 <= i <= k < |order| && Reads(d, order[i], b) ensures !Drives(d, order[k], b) {
      NoBackEdge(d, order, i, k, b);
    }
    SweepHolds(d, order, |order|, base, mem);
    var e := Sweep(d, order, base, mem);
    forall c: nat | c < |d.cells| ensures Holds(d, c, e, mem) {
      assert c in order;
      var i :| 0 <= i < |order| && order[i] == c;
      assert Holds(d, order[i], e, mem);
    }
    forall b: nat | b < |e| && !Driven(d, b) ensures e[b] == base[b] {
      SweepFrame(d, order, |order|, base, mem, b);
    }
  }

  /** Cells run in a list where each finds its inputs already correct make their own outputs
      correct and spoil nothing: the engine of every reduced schedule. */
  lemma {:induction false} RunRight(d: Design, list: seq<nat>, n: nat, env: Env, mem: Mem, sol: Env)
    requires WellFormed(d) && |env| == |sol| == |d.wireOf| && n <= |list|
    requires forall c: nat :: c < |d.cells| ==> Holds(d, c, sol, mem)
    requires forall i :: 0 <= i < |list| ==> list[i] < |d.cells|
    requires forall i, b: nat :: 0 <= i < |list| && DrivesSome(d, list[i]) && Reads(d, list[i], b) ==>
      env[b] == sol[b] || exists k :: 0 <= k < i && Drives(d, list[k], b)
    ensures forall b: nat :: b < |env| && (env[b] == sol[b] || exists k :: 0 <= k < n && Drives(d, list[k], b)) ==>
      SweepTo(d, list, n, env, mem)[b] == sol[b]
    decreases n
  {
    if n == 0 {
    } else {
      RunRight(d, list, n - 1, env, mem, sol);
      var c, before := list[n-1], SweepTo(d, list, n - 1, env, mem);
      assert Holds(d, c, sol, mem);
      forall b: nat | b < |env| && (env[b] == sol[b] || exists k :: 0 <= k < n && Drives(d, list[k], b))
        ensures Step(d.cells[c], before, mem)[b] == sol[b]
      {
        if Drives(d, c, b) {
          OutBitAgree(d, c, before, sol, mem, Pos(d.cells[c].outs, b));
        } else {
          assert before[b] == sol[b];
        }
      }
    }
  }

  /** The cell equations have only one solution, the in-order sweep. */
  lemma SolutionUnique(d: Design, order: seq<nat>, base: Env, mem: Mem, sol: Env)
    requires WellFormed(d) && Topological(d, order) && Solves(d, sol, base, mem)
    ensures sol == Sweep(d, order, base, mem)
  {
    forall i, b: nat | 0 <= i < |order| && Reads(d, order[i], b)
      ensures base[b] == sol[b] || exists k :: 0 <= k < i && Drives(d, order[k], b)
    {
      assert ReadyAt(d, order, i);
      if Driven(d, b) {
        var p: nat :| Drives(d, p, b);
        assert p in order[..i];
        var k :| 0 <= k < i && order[k] == p;
        assert Drives(d, order[k], b);
      }
    }
    RunRight(d, order, |order|, base, mem, sol);
    var e := Sweep(d, order, base, mem);
    forall b: nat | b < |e| ensures e[b] == sol[b] {
      if Driven(d, b) {
        var p: nat :| Drives(d, p, b);
        assert p in order;
        var k :| 0 <= k < |order| && order[k] == p;
        assert Drives(d, order[k], b);
      }
    }
  }

  /** Two topological orders evaluate alike. */
  lemma OrderIrrelevant(d: Design, o: seq<nat>, o': seq<nat>, base: Env, mem: Mem)
    requires WellFormed(d) && Topological(d, o) && Topological(d, o') && |base| == |d.wireOf|
    ensures Sweep(d, o, base, mem) == Sweep(d, o', base, mem)
  {
    SweepSolves(d, o, base, mem);
    SolutionUnique(d, o', base, mem, Sweep(d, o, base, mem));
  }

  // ---------------------------------------------------------------- what a cell computes

  lemma {:induction false} PosAt(bs: seq<nat>, j: nat)
    requires DistinctBits(bs) && j < |bs|
    ensures Pos(bs, bs[j]) == j
    decreases j
  {
    if j == 0 {
    } else {
      assert bs[0] != bs[j] && bs[1..][j - 1] == bs[j];
      forall i, k | 0 <= i < k < |bs[1..]| ensures bs[1..][i] != bs[1..][k] {
        assert bs[i + 1] != bs[k + 1];
      }
      PosAt(bs[1..], j - 1);
    }
  }

  /** After the sweep output bit `j` of a logic cell is its function of the constants and nets it reads, and bit `j`
      of a read port is bit `j` of the word its inputs address, least significant first; a word or bit that does not
      exist reads as 0. */
  lemma SweepMeans(d: Design, order: seq<nat>, base: Env, mem: Mem, c: nat, j: nat, x: seq<bool>)
    requires WellFormed(d) && Topological(d, order) && |base| == |d.wireOf| && c < |d.cells| && j < |d.cells[c].outs|
    requires var e, ins := Sweep(d, order, base, mem), d.cells[c].ins;
      |x| == |ins| && forall i :: 0 <= i < |x| ==>
        (ins[i].Const? ==> x[i] == ins[i].value) && (ins[i].Net? ==> ins[i].bit < |e| && x[i] == e[ins[i].bit])
    ensures d.cells[c].outs[j] < |base|
    ensures d.cells[c].Logic? ==> Sweep(d, order, base, mem)[d.cells[c].outs[j]] == d.cells[c].fn(x, j)
    ensures d.cells[c].MemRead? ==> var m := d.cells[c].mem;
      Sweep(d, order, base, mem)[d.cells[c].outs[j]] ==
        (m < |mem| && Num(x) < |mem[m]| && j < |mem[m][Num(x)]| && mem[m][Num(x)][j])
  {
    var e, cell := Sweep(d, order, base, mem), d.cells[c];
    assert Drives(d, c, cell.outs[j]);
    SweepSolves(d, order, base, mem);
    assert Holds(d, c, e, mem);
    PosAt(cell.outs, j);
    assert Values(cell.ins, e) == x;
  }

  /** An undriven bit is the input's or the register's bit, and 0 on a combinational wire. */
  lemma EvalMeans(d: Design, order: seq<nat>, st: Env, inp: Env, mem: Mem, b: nat)
    requires WellFormed(d) && Topological(d, order) && b < |d.wireOf| && |st| == |inp| == |d.wireOf|
    requires forall c: nat :: c < |d.cells| ==> b !in d.cells[c].outs
    ensures Eval(d, order, st, inp, mem)[b] ==
      match d.kind[d.wireOf[b]] case Input => inp[b] case Register => st[b] case Comb => false
  {
    SweepSolves(d, order, Base(d, st, inp), mem);
    assert !Driven(d, b);
  }

  // ---------------------------------------------------------------- the emitted code

  /** One emitted cell: the result goes to a temporary, then is scattered to the output bits. */
  method RunCell(c: Cell, vals: array<bool>, mem: Mem)
    requires DistinctBits(c.outs) && forall b :: b in c.outs ==> b < vals.Length
    modifies vals
    ensures vals[..] == Step(c, old(vals[..]), mem)
  {
    var env := vals[..];
    var tmp: seq<bool> := [];
    while |tmp| < |c.outs|
      invariant |tmp| <= |c.outs|
      invariant forall k :: 0 <= k < |tmp| ==> tmp[k] == OutBit(c, env, mem, k)
    {
      tmp := tmp + [OutBit(c, env, mem, |tmp|)];
    }
    Scatter(c.outs, tmp, vals);
  }

  /** Writes `tmp[k]` to bit `bits[k]`. */
  method Scatter(bits: seq<nat>, tmp: seq<bool>, vals: array<bool>)
    requires |tmp| == |bits| && DistinctBits(bits) && forall b :: b in bits ==> b < vals.Length
    modifies vals
    ensures forall b :: 0 <= b < vals.Length ==>
      vals[b] == if b in bits then tmp[Pos(bits, b)] else old(vals[b])
  {
    var j := 0;
    while j < |bits|
      invariant 0 <= j <= |bits|
      invariant forall b :: 0 <= b < vals.Length ==>
        vals[b] == if b in bits[..j] then tmp[Pos(bits, b)] else old(vals[b])
    {
      assert bits[j] in bits && Pos(bits, bits[j]) == j;
      assert bits[..j+1] == bits[..j] + [bits[j]];
      vals[bits[j]] := tmp[j];
      j := j + 1;
    }
    assert bits[..j] == bits;
  }

  /** The emitted combinational body: every cell of `order` in turn. */
  method RunCells(d: Design, order: seq<nat>, vals: array<bool>, mem: Mem)
    requires WellFormed(d) && vals.Length == |d.wireOf|
    requires forall c :: c in order ==> c < |d.cells|
    modifies vals
    ensures vals[..] == Sweep(d, order, old(vals[..]), mem)
  {
    ghost var env := vals[..];
    var i := 0;
    while i < |order|
      invariant 0 <= i <= |order|
      invariant vals[..] == SweepTo(d, order, i, env, mem)
    {
      assert order[i] in order;
      forall b: nat | b in d.cells[order[i]].outs ensures b < vals.Length {
        assert Drives(d, order[i], b);
      }
      RunCell(d.cells[order[i]], vals, mem);
      i := i + 1;
    }
  }
}
