/** The clock function in K parts. */
module CombSplit {
  // The clock function split into K part functions that exchange wires through a struct.
  //
  // Each part re-declares every wire, loads the cross-part wires it touches, runs its slice
  // of the topological order and stores the wires it writes; a last function commits.

  import opened Netlist
  import opened Clocking
  import Bits
  import OutCone

  lemma DivMono(x: nat, y: nat, k: nat)
    requires x <= y && k > 0
    ensures x / k <= y / k
  {
    var a, b := x / k, y / k;
    assert x == k * a + x % k && y == k * b + y % k;
    if a > b {
      Bits.MulMono(k, b + 1, a);
    }
  }

  lemma DivExact(n: nat, k: nat)
    requires k > 0
    ensures n * k / k == n
  {
    var q := n * k / k;
    assert n * k == k * q + n * k % k;
    assert k * n == n * k;
    if q < n { Bits.MulMono(k, q + 1, n); }
    if q > n { Bits.MulMono(k, n + 1, q); }
  }

  lemma LoBounds(n: nat, k: nat, p: nat)
    requires k > 0 && p < k
    ensures n * p / k <= n * (p + 1) / k <= n
  {
    Bits.MulMono(n, p, p + 1);
    Bits.MulMono(n, p + 1, k);
    DivMono(n * p, n * (p + 1), k);
    DivMono(n * (p + 1), n * k, k);
    DivExact(n, k);
  }

  /** Part `p` runs the cells `order[cuts[p]..cuts[p+1]]`. */
  datatype Split = Split(d: Design, order: seq<nat>, parts: nat, cuts: seq<nat>) {

    ghost predicate Valid() {
      WellFormed(d) && Topological(d, order) && Shaped()
    }

    /** The cuts divide the order into consecutive slices. */
    predicate Shaped() {
      && parts > 0 && |cuts| == parts + 1 && cuts[0] == 0 && cuts[parts] == |order|
      && (forall p :: 0 <= p < parts ==> cuts[p] <= cuts[p + 1])
      && (forall p :: 0 <= p <= parts ==> cuts[p] <= |order|)
    }

    function Lo(p: nat): (i: nat)
      requires Shaped() && p <= parts
      ensures i <= |order|
    {
      cuts[p]
    }

    lemma LoMono(p: nat)
      requires Shaped() && p < parts
      ensures Lo(p) <= Lo(p + 1)
    {
    }

    predicate CellWrites(c: nat, w: nat) {
      c < |d.cells| && exists j :: 0 <= j < |d.cells[c].outs| && WireIs(d.cells[c].outs[j], w)
    }

    predicate CellReads(c: nat, w: nat) {
      c < |d.cells| && exists j :: 0 <= j < |d.cells[c].ins| && d.cells[c].ins[j].Net? && WireIs(d.cells[c].ins[j].bit, w)
    }

    predicate WireIs(b: nat, w: nat) {
      b < |d.wireOf| && d.wireOf[b] == w
    }

    predicate WritesIn(p: nat, w: nat)
      requires Shaped()
    {
      p < parts && exists i :: Lo(p) <= i < Lo(p + 1) && CellWrites(order[i], w)
    }

    predicate ReadsIn(p: nat, w: nat)
      requires Shaped()
    {
      p < parts && exists i :: Lo(p) <= i < Lo(p + 1) && CellReads(order[i], w)
    }

    /** The first part at or after `p` that writes wire `w`; `parts` when there is none. */
    function FirstWriter(w: nat, p: nat): (r: nat)
      requires Shaped() && p <= parts
      ensures p <= r <= parts
      ensures r < parts ==> WritesIn(r, w)
      ensures forall q :: p <= q < r ==> !WritesIn(q, w)
      decreases parts - p
    {
      if p == parts || WritesIn(p, w) then p else FirstWriter(w, p + 1)
    }

    function MinWriter(w: nat): (r: nat)
      requires Shaped()
    {
      FirstWriter(w, 0)
    }

    /** The last part below `p` that writes a wire of output `o`; 0 when there is none. */
    function LastWriter(o: nat, p: nat): (r: nat)
      requires Shaped() && o < |d.outputs| && p <= parts
      ensures r < parts
      ensures forall q :: r < q < p ==> !WritesOutput(q, o)
    {
      if p == 0 then 0 else if WritesOutput(p - 1, o) then p - 1 else LastWriter(o, p - 1)
    }

    predicate WritesOutput(p: nat, o: nat)
      requires Shaped() && o < |d.outputs|
    {
      exists k :: 0 <= k < |d.outputs[o]| && d.outputs[o][k] < |d.wireOf| && WritesIn(p, d.wireOf[d.outputs[o][k]])
    }

    /** The part in which the bits of output `o` are final. */
    function OutPart(o: nat): (p: nat)
      requires Shaped() && o < |d.outputs|
      ensures p < parts
    {
      LastWriter(o, parts)
    }

    predicate OutputTouches(p: nat, w: nat)
      requires Shaped()
    {
      exists o :: 0 <= o < |d.outputs| && OutPart(o) == p && OutputHas(o, w)
    }

    predicate OutputHas(o: nat, w: nat) {
      o < |d.outputs| && exists k :: 0 <= k < |d.outputs[o]| && WireIs(d.outputs[o][k], w)
    }

    predicate Touches(p: nat, w: nat)
      requires Shaped()
    {
      WritesIn(p, w) || ReadsIn(p, w) || OutputTouches(p, w)
    }

    predicate SeqWire(w: nat) {
      exists b :: 0 <= b < |d.wireOf| && WireIs(b, w) && SeqReads(d, b)
    }

    /** A wire that travels in the struct: written by some part and read by the commit or
        touched by a part after its first writer. */
    predicate Crosses(w: nat)
      requires Shaped()
    {
      MinWriter(w) < parts && (SeqWire(w) || exists p :: MinWriter(w) < p < parts && Touches(p, w))
    }

    predicate Loads(p: nat, w: nat)
      requires Shaped()
    {
      Crosses(w) && MinWriter(w) < p && Touches(p, w)
    }

    predicate Stores(p: nat, w: nat)
      requires Shaped()
    {
      Crosses(w) && WritesIn(p, w)
    }

    /** A wire travels when some part writes it and the commit reads it or a later part touches it; a part loads the
        wires it touches that an earlier part writes, and stores the travelling ones it writes. */
    lemma PlanMeans(p: nat, w: nat)
      requires Shaped() && p < parts
      ensures Crosses(w) <==>
        exists q :: 0 <= q < parts && WritesIn(q, w) && (SeqWire(w) || exists r :: q < r < parts && Touches(r, w))
      ensures Loads(p, w) <==> Touches(p, w) && exists q :: 0 <= q < p && WritesIn(q, w)
      ensures Stores(p, w) <==> WritesIn(p, w) && Crosses(w)
    {
      if q :| 0 <= q < parts && WritesIn(q, w) {
        assert MinWriter(w) <= q;
        assert WritesIn(MinWriter(w), w);
      }
    }

    /** The local wires at the start of part `p`. */
    function Local(p: nat, base: Env, xw: Env): (r: Env)
      requires Shaped() && |base| == |xw| == |d.wireOf|
    {
      seq(|base|, b requires 0 <= b < |base| => if Loads(p, d.wireOf[b]) then xw[b] else base[b])
    }

    /** The local wires at the end of part `p`. */
    function PartEnv(p: nat, base: Env, xw: Env, mem: Mem): (r: Env)
      requires Shaped() && p < parts && |base| == |xw| == |d.wireOf|
      ensures |r| == |d.wireOf|
    {
      LoMono(p);
      Sweep(d, order[Lo(p)..Lo(p + 1)], Local(p, base, xw), mem)
    }

    function Stored(p: nat, env: Env, xw: Env): (r: Env)
      requires Shaped() && |env| == |xw| == |d.wireOf|
    {
      seq(|xw|, b requires 0 <= b < |xw| => if Stores(p, d.wireOf[b]) then env[b] else xw[b])
    }

    /** The struct after the first `p` parts. */
    function Cross(p: nat, base: Env, xw: Env, mem: Mem): (r: Env)
      requires Shaped() && p <= parts && |base| == |xw| == |d.wireOf|
      ensures |r| == |d.wireOf|
    {
      if p == 0 then xw
      else
        var before := Cross(p - 1, base, xw, mem);
        Stored(p - 1, PartEnv(p - 1, base, before, mem), before)
    }

    /** The local wires of the commit function. */
    function CommitEnv(base: Env, xw: Env): (r: Env)
      requires Shaped() && |base| == |xw| == |d.wireOf|
    {
      seq(|base|, b requires 0 <= b < |base| =>
        if Crosses(d.wireOf[b]) && SeqWire(d.wireOf[b]) then xw[b] else base[b])
    }

    // -------------------------------------------------------------- proofs

    ghost predicate AgreeOn(w: nat, e: Env, e': Env) {
      |e| == |e'| == |d.wireOf| && forall b :: 0 <= b < |e| && WireIs(b, w) ==> e[b] == e'[b]
    }

    lemma {:induction false} PrefixUnwritten(p: nat, w: nat, i: nat)
      requires Valid() && p <= parts && i < Lo(p)
      requires forall q :: 0 <= q < p ==> !WritesIn(q, w)
      ensures !CellWrites(order[i], w)
    {
      if p == 0 {
      } else {
        LoMono(p - 1);
        if i < Lo(p - 1) { PrefixUnwritten(p - 1, w, i); }
        else { assert !WritesIn(p - 1, w); }
      }
    }

    lemma DrivesWrites(c: nat, b: nat)
      requires b < |d.wireOf|
      ensures Drives(d, c, b) ==> CellWrites(c, d.wireOf[b])
    {
      if Drives(d, c, b) {
        var j :| 0 <= j < |d.cells[c].outs| && d.cells[c].outs[j] == b;
        assert WireIs(d.cells[c].outs[j], d.wireOf[b]);
      }
    }

    /** Cells that do not write a wire leave it alone. */
    lemma WireFrame(list: seq<nat>, n: nat, env: Env, mem: Mem, w: nat)
      requires Valid() && |env| == |d.wireOf| && n <= |list|
      requires forall i :: 0 <= i < n ==> !CellWrites(list[i], w)
      ensures AgreeOn(w, SweepTo(d, list, n, env, mem), env)
    {
      forall b: nat | b < |env| && WireIs(b, w)
        ensures SweepTo(d, list, n, env, mem)[b] == env[b]
      {
        forall i | 0 <= i < n ensures !Drives(d, list[i], b) {
          DrivesWrites(list[i], b);
        }
        SweepFrame(d, list, n, env, mem, b);
      }
    }

    /** Running the same cells on environments that agree on every wire they touch. */
    lemma {:induction false} AgreeRun(list: seq<nat>, n: nat, e: Env, e': Env, mem: Mem, w: nat)
      requires Valid() && |e| == |e'| == |d.wireOf| && n <= |list|
      requires forall i :: 0 <= i < |list| ==> list[i] < |d.cells|
      requires forall v: nat, i :: 0 <= i < |list| && CellReads(list[i], v) ==> AgreeOn(v, e, e')
      requires AgreeOn(w, e, e')
      ensures AgreeOn(w, SweepTo(d, list, n, e, mem), SweepTo(d, list, n, e', mem))
      decreases n
    {
      if n == 0 {
      } else {
        var c := list[n-1];
        var b, b' := SweepTo(d, list, n - 1, e, mem), SweepTo(d, list, n - 1, e', mem);
        AgreeRun(list, n - 1, e, e', mem, w);
        forall x: nat | Reads(d, c, x) && x < |e| ensures b[x] == b'[x] {
          var j :| 0 <= j < |d.cells[c].ins| && d.cells[c].ins[j] == Net(x);
          assert WireIs(d.cells[c].ins[j].bit, d.wireOf[x]);
          assert CellReads(list[n-1], d.wireOf[x]);
          AgreeRun(list, n - 1, e, e', mem, d.wireOf[x]);
          assert WireIs(x, d.wireOf[x]);
        }
        forall x: nat | x < |e| && WireIs(x, w)
          ensures Step(d.cells[c], b, mem)[x] == Step(d.cells[c], b', mem)[x]
        {
          if x in d.cells[c].outs { OutBitAgree(d, c, b, b', mem, Pos(d.cells[c].outs, x)); }
        }
      }
    }

    /** The unsplit environment after the cells of the first `p` parts. */
    function Whole(p: nat, base: Env, mem: Mem): (r: Env)
      requires Shaped() && p <= parts
      ensures |r| == |base|
    {
      SweepTo(d, order, Lo(p), base, mem)
    }

    lemma WholeStep(p: nat, base: Env, mem: Mem)
      requires Valid() && p < parts
      ensures Lo(p) <= Lo(p + 1)
      ensures Whole(p + 1, base, mem) == Sweep(d, order[Lo(p)..Lo(p + 1)], Whole(p, base, mem), mem)
    {
      LoMono(p);
      SweepSlice(d, order, Lo(p), order[Lo(p)..Lo(p + 1)], Lo(p + 1) - Lo(p), base, mem);
    }

    lemma Unwritten(p: nat, base: Env, mem: Mem, w: nat)
      requires Valid() && p <= parts && p <= MinWriter(w) && |base| == |d.wireOf|
      ensures AgreeOn(w, Whole(p, base, mem), base)
    {
      forall i | 0 <= i < Lo(p) ensures !CellWrites(order[i], w) {
        PrefixUnwritten(p, w, i);
      }
      WireFrame(order, Lo(p), base, mem, w);
    }

    /** The struct holds the unsplit value of every cross-part wire already written. */
    ghost predicate Carries(p: nat, base: Env, xw: Env, mem: Mem)
      requires Shaped() && p <= parts
    {
      forall w: nat :: Crosses(w) && MinWriter(w) < p ==> AgreeOn(w, xw, Whole(p, base, mem))
    }

    /** A part starts with the right value of every wire it touches. */
    lemma LocalRight(p: nat, base: Env, xw: Env, mem: Mem, w: nat)
      requires Valid() && p < parts && |base| == |xw| == |d.wireOf|
      requires Carries(p, base, xw, mem) && Touches(p, w)
      ensures AgreeOn(w, Local(p, base, xw), Whole(p, base, mem))
    {
      if MinWriter(w) < p {
        assert Crosses(w);
        assert AgreeOn(w, xw, Whole(p, base, mem));
      } else {
        Unwritten(p, base, mem, w);
      }
    }

    /** What a cell of the part reads is right at its start. */
    lemma ReadRight(p: nat, base: Env, xw: Env, mem: Mem, i: nat, v: nat)
      requires Valid() && p < parts && |base| == |xw| == |d.wireOf| && Carries(p, base, xw, mem)
      requires Lo(p) + i < Lo(p + 1) && CellReads(order[Lo(p) + i], v)
      ensures AgreeOn(v, Local(p, base, xw), Whole(p, base, mem))
    {
      assert ReadsIn(p, v);
      LocalRight(p, base, xw, mem, v);
    }

    /** ... and ends with it. */
    lemma PartRight(p: nat, base: Env, xw: Env, mem: Mem, w: nat)
      requires Valid() && p < parts && |base| == |xw| == |d.wireOf|
      requires Carries(p, base, xw, mem) && Touches(p, w)
      ensures AgreeOn(w, PartEnv(p, base, xw, mem), Whole(p + 1, base, mem))
    {
      WholeStep(p, base, mem);
      var list := order[Lo(p)..Lo(p + 1)];
      var local, whole := Local(p, base, xw), Whole(p, base, mem);
      forall v: nat, i: nat | i < |list| && CellReads(list[i], v) ensures AgreeOn(v, local, whole) {
        ReadRight(p, base, xw, mem, i, v);
      }
      LocalRight(p, base, xw, mem, w);
      OutCone.OrderInRange(d, order);
      forall i | 0 <= i < |list| ensures list[i] < |d.cells| { assert list[i] == order[Lo(p) + i]; }
      AgreeRun(list, |list|, local, whole, mem, w);
    }

    lemma CarriesStep(p: nat, base: Env, xw: Env, mem: Mem, w: nat)
      requires Valid() && p < parts && |base| == |xw| == |d.wireOf|
      requires Carries(p, base, xw, mem) && Crosses(w) && MinWriter(w) < p + 1
      ensures AgreeOn(w, Stored(p, PartEnv(p, base, xw, mem), xw), Whole(p + 1, base, mem))
    {
      if WritesIn(p, w) {
        PartRight(p, base, xw, mem, w);
      } else {
        assert MinWriter(w) != p;
        assert AgreeOn(w, xw, Whole(p, base, mem));
        PartFrame(p, base, mem, w);
      }
    }

    lemma CarriesTurn(p: nat, base: Env, xw: Env, mem: Mem)
      requires Valid() && p < parts && |base| == |xw| == |d.wireOf| && Carries(p, base, xw, mem)
      ensures Carries(p + 1, base, Stored(p, PartEnv(p, base, xw, mem), xw), mem)
    {
      forall w: nat | Crosses(w) && MinWriter(w) < p + 1
        ensures AgreeOn(w, Stored(p, PartEnv(p, base, xw, mem), xw), Whole(p + 1, base, mem))
      {
        CarriesStep(p, base, xw, mem, w);
      }
    }

    /** Whatever the struct held before the edge, each part leaves it right. */
    lemma {:induction false} CrossRight(p: nat, base: Env, xw: Env, mem: Mem)
      requires Valid() && p <= parts && |base| == |xw| == |d.wireOf|
      ensures Carries(p, base, Cross(p, base, xw, mem), mem)
      decreases p
    {
      if p == 0 {
      } else {
        CrossRight(p - 1, base, xw, mem);
        CarriesTurn(p - 1, base, Cross(p - 1, base, xw, mem), mem);
      }
    }

    lemma WholeIsSweep(base: Env, mem: Mem)
      requires Valid()
      ensures Whole(parts, base, mem) == Sweep(d, order, base, mem)
    {
    }

    /** The commit function sees, on everything it reads, the unsplit values. */
    lemma SplitCommit(st: Env, inp: Env, xw: Env, mem: Mem)
      requires Valid() && |xw| == |d.wireOf|
      ensures var base := Base(d, st, inp);
        var env := CommitEnv(base, Cross(parts, base, xw, mem));
        && NextState(d, env, st) == NextState(d, Eval(d, order, st, inp, mem), st)
        && NextMem(d, env, mem) == NextMem(d, Eval(d, order, st, inp, mem), mem)
    {
      var base := Base(d, st, inp);
      var last := Cross(parts, base, xw, mem);
      var env, sol := CommitEnv(base, last), Eval(d, order, st, inp, mem);
      CrossRight(parts, base, xw, mem);
      WholeIsSweep(base, mem);
      forall b: nat | b < |env| && SeqReads(d, b) ensures env[b] == sol[b] {
        var w := d.wireOf[b];
        assert WireIs(b, w);
        assert SeqWire(w);
        if MinWriter(w) < parts {
          assert Crosses(w);
          assert AgreeOn(w, last, sol);
        } else {
          Unwritten(parts, base, mem, w);
        }
      }
      CommitFrame(d, env, sol, st, mem);
    }

    lemma {:induction false} OutputFinal(o: nat, p: nat, base: Env, mem: Mem, w: nat)
      requires Valid() && o < |d.outputs| && OutPart(o) < p <= parts && OutputHas(o, w) && |base| == |d.wireOf|
      ensures AgreeOn(w, Whole(p, base, mem), Whole(OutPart(o) + 1, base, mem))
      decreases p
    {
      if p > OutPart(o) + 1 {
        OutputFinal(o, p - 1, base, mem, w);
        assert !WritesOutput(p - 1, o);
        PartFrame(p - 1, base, mem, w);
      }
    }

    /** A part that does not write a wire leaves its unsplit value alone. */
    lemma PartFrame(p: nat, base: Env, mem: Mem, w: nat)
      requires Valid() && p < parts && !WritesIn(p, w) && |base| == |d.wireOf|
      ensures AgreeOn(w, Whole(p + 1, base, mem), Whole(p, base, mem))
    {
      WholeStep(p, base, mem);
      var list := order[Lo(p)..Lo(p + 1)];
      assert forall i :: 0 <= i < |list| ==> list[i] == order[Lo(p) + i] && !CellWrites(list[i], w);
      WireFrame(list, |list|, Whole(p, base, mem), mem, w);
    }

    /** An output copied in the part that finalises it has its pre-commit value. */
    lemma SplitOutput(st: Env, inp: Env, xw: Env, mem: Mem, o: nat)
      requires Valid() && |xw| == |d.wireOf| && o < |d.outputs|
      ensures var base := Base(d, st, inp);
        PortBits(d, PartEnv(OutPart(o), base, Cross(OutPart(o), base, xw, mem), mem), o) ==
        PortBits(d, Eval(d, order, st, inp, mem), o)
    {
      var base, p := Base(d, st, inp), OutPart(o);
      var before := Cross(p, base, xw, mem);
      var env, sol := PartEnv(p, base, before, mem), Eval(d, order, st, inp, mem);
      CrossRight(p, base, xw, mem);
      WholeIsSweep(base, mem);
      forall k | 0 <= k < |d.outputs[o]|
        ensures Value(Net(d.outputs[o][k]), env) == Value(Net(d.outputs[o][k]), sol)
      {
        var b := d.outputs[o][k];
        if b < |d.wireOf| {
          var w := d.wireOf[b];
          assert WireIs(b, w);
          assert OutputHas(o, w);
          assert OutputTouches(p, w);
          PartRight(p, base, before, mem, w);
          OutputFinal(o, parts, base, mem, w);
        }
      }
    }
  }

  /** The emitter's cuts: part `p` of `k` starts at cell `n * p / k`. */
  function Cuts(n: nat, k: nat, m: nat): (r: seq<nat>)
    requires k > 0 && m <= k
    ensures |r| == m + 1 && r[0] == 0 && r[m] == n * m / k
    ensures forall p :: 0 <= p < m ==> r[p] <= r[p + 1]
    ensures forall p :: 0 <= p <= m ==> r[p] <= n && r[p] == n * p / k
  {
    if m == 0 then
      assert n * 0 / k == 0;
      [0]
    else
      LoBounds(n, k, m - 1);
      Cuts(n, k, m - 1) + [n * m / k]
  }

  function MakeSplit(d: Design, order: seq<nat>, k: nat): (s: Split)
    requires k > 0
    ensures s.Shaped() && s.d == d && s.order == order && s.parts == k
    ensures forall p: nat :: p <= k ==> s.Lo(p) == |order| * p / k
  {
    DivExact(|order|, k);
    Split(d, order, k, Cuts(|order|, k, k))
  }

  ghost predicate InPart(s: Split, i: nat, p: nat)
    requires s.Shaped()
  {
    p < s.parts && s.Lo(p) <= i < s.Lo(p + 1)
  }

  /** Every cell runs in exactly one part. */
  lemma PartsPartition(s: Split, i: nat)
    requires s.Shaped() && i < |s.order|
    ensures exists p: nat :: InPart(s, i, p)
    ensures forall p: nat, q: nat :: InPart(s, i, p) && InPart(s, i, q) ==> p == q
  {
    var p := FindPart(s, i, s.parts);
    assert InPart(s, i, p);
    forall q: nat, r: nat | InPart(s, i, q) && InPart(s, i, r) ensures q == r {
      if q < r { LoChain(s, q + 1, r); }
      if r < q { LoChain(s, r + 1, q); }
    }
  }

  lemma {:induction false} FindPart(s: Split, i: nat, n: nat) returns (p: nat)
    requires s.Shaped() && 0 < n <= s.parts && i < s.Lo(n)
    ensures p < n && s.Lo(p) <= i < s.Lo(p + 1)
  {
    if s.Lo(n - 1) <= i { p := n - 1; } else { p := FindPart(s, i, n - 1); }
  }

  lemma {:induction false} LoChain(s: Split, p: nat, q: nat)
    requires s.Shaped() && p <= q <= s.parts
    ensures s.Lo(p) <= s.Lo(q)
  {
    if p < q {
      LoChain(s, p, q - 1);
      s.LoMono(q - 1);
    }
  }

  // ---------------------------------------------------------------- emitted code

  /** One part function. */
  method RunPart(s: Split, p: nat, st: array<bool>, inp: Env, mem: Mem, live: seq<bool>,
                 o: array<seq<bool>>, xw: array<bool>)
    requires s.Valid() && p < s.parts && xw.Length == |s.d.wireOf| && o.Length == |s.d.outputs|
    requires xw != st
    modifies o, xw
    ensures var base, before := Base(s.d, st[..], inp), old(xw[..]);
      && xw[..] == s.Stored(p, s.PartEnv(p, base, before, mem), before)
      && forall k :: 0 <= k < o.Length ==>
           o[k] == if s.OutPart(k) == p && OutCone.Live(live, k)
                   then PortBits(s.d, s.PartEnv(p, base, before, mem), k) else old(o[k])
  {
    ghost var before := xw[..];
    var vals := OutCone.Prologue(s.d, st, inp);
    LoadCross(s, p, vals, xw);
    s.LoMono(p);
    var list := s.order[s.Lo(p)..s.Lo(p + 1)];
    OutCone.OrderInRange(s.d, s.order);
    forall c | c in list ensures c < |s.d.cells| {
      var i :| 0 <= i < |list| && list[i] == c;
      assert s.order[s.Lo(p) + i] in s.order;
    }
    RunCells(s.d, list, vals, mem);
    EmitFinal(s, p, vals[..], live, o);
    StoreCross(s, p, vals, xw);
  }

  method LoadCross(s: Split, p: nat, vals: array<bool>, xw: array<bool>)
    requires s.Shaped() && vals.Length == xw.Length == |s.d.wireOf| && vals != xw
    modifies vals
    ensures vals[..] == s.Local(p, old(vals[..]), xw[..])
  {
    ghost var goal := s.Local(p, vals[..], xw[..]);
    var b := 0;
    while b < vals.Length
      invariant 0 <= b <= vals.Length
      invariant forall k :: 0 <= k < vals.Length ==> vals[k] == if k < b then goal[k] else old(vals[k])
    {
      if s.Loads(p, s.d.wireOf[b]) { vals[b] := xw[b]; }
      b := b + 1;
    }
  }

  /** Copies out the live outputs that are final in part `p`. */
  method EmitFinal(s: Split, p: nat, env: Env, live: seq<bool>, o: array<seq<bool>>)
    requires s.Shaped() && o.Length == |s.d.outputs|
    modifies o
    ensures forall x :: 0 <= x < o.Length ==>
      o[x] == if s.OutPart(x) == p && OutCone.Live(live, x) then PortBits(s.d, env, x) else old(o[x])
  {
    var k := 0;
    while k < o.Length
      invariant 0 <= k <= o.Length
      invariant forall x :: 0 <= x < o.Length ==>
        o[x] == if x < k && s.OutPart(x) == p && OutCone.Live(live, x) then PortBits(s.d, env, x) else old(o[x])
    {
      if s.OutPart(k) == p && OutCone.Live(live, k) { o[k] := PortBits(s.d, env, k); }
      k := k + 1;
    }
  }

  method StoreCross(s: Split, p: nat, vals: array<bool>, xw: array<bool>)
    requires s.Shaped() && vals.Length == xw.Length == |s.d.wireOf| && vals != xw
    modifies xw
    ensures xw[..] == s.Stored(p, vals[..], old(xw[..]))
  {
    ghost var goal := s.Stored(p, vals[..], xw[..]);
    var b := 0;
    while b < xw.Length
      invariant 0 <= b <= xw.Length
      invariant forall k :: 0 <= k < xw.Length ==> xw[k] == if k < b then goal[k] else old(xw[k])
    {
      if s.Stores(p, s.d.wireOf[b]) { xw[b] := vals[b]; }
      b := b + 1;
    }
  }

  /** `sm_clock_o`: the parts in turn, then the commit.  The struct `xw` may hold anything. */
  method SmClockSplit(s: Split, st: array<bool>, inp: Env, mem: Mem, live: seq<bool>,
                      o: array<seq<bool>>, xw: array<bool>)
    returns (mem': Mem)
    requires s.Valid() && st.Length == xw.Length == |s.d.wireOf| && o.Length == |s.d.outputs|
    requires xw != st
    modifies st, o, xw
    ensures var pre := Eval(s.d, s.order, old(st[..]), inp, mem);
      && st[..] == NextState(s.d, pre, old(st[..]))
      && mem' == NextMem(s.d, pre, mem)
      && forall k :: 0 <= k < o.Length ==>
           o[k] == if OutCone.Live(live, k) then PortBits(s.d, pre, k) else old(o[k])
  {
    ghost var st0, xw0 := st[..], xw[..];
    ghost var base := Base(s.d, st0, inp);
    var p := 0;
    while p < s.parts
      invariant 0 <= p <= s.parts
      invariant st[..] == st0 && xw[..] == s.Cross(p, base, xw0, mem)
      invariant forall k :: 0 <= k < o.Length ==>
        o[k] == if s.OutPart(k) < p && OutCone.Live(live, k)
                then PortBits(s.d, Eval(s.d, s.order, st0, inp, mem), k) else old(o[k])
    {
      RunPart(s, p, st, inp, mem, live, o, xw);
      forall k: nat | k < |s.d.outputs| && s.OutPart(k) == p
        ensures PortBits(s.d, s.PartEnv(p, base, s.Cross(p, base, xw0, mem), mem), k) ==
                PortBits(s.d, Eval(s.d, s.order, st0, inp, mem), k)
      {
        s.SplitOutput(st0, inp, xw0, mem, k);
      }
      p := p + 1;
    }
    mem' := RunCommit(s, st, inp, mem, xw);
    s.SplitCommit(st0, inp, xw0, mem);
  }

  /** The commit function `sm_clock_pc`. */
  method RunCommit(s: Split, st: array<bool>, inp: Env, mem: Mem, xw: array<bool>) returns (mem': Mem)
    requires s.Valid() && st.Length == xw.Length == |s.d.wireOf| && xw != st
    modifies st
    ensures var env := s.CommitEnv(Base(s.d, old(st[..]), inp), xw[..]);
      st[..] == NextState(s.d, env, old(st[..])) && mem' == NextMem(s.d, env, mem)
  {
    var vals := OutCone.Prologue(s.d, st, inp);
    LoadCommit(s, vals, xw);
    CommitRegisters(s.d, vals[..], st);
    mem' := CommitMemories(s.d, vals[..], mem);
  }

  method LoadCommit(s: Split, vals: array<bool>, xw: array<bool>)
    requires s.Shaped() && vals.Length == xw.Length == |s.d.wireOf| && vals != xw
    modifies vals
    ensures vals[..] == s.CommitEnv(old(vals[..]), xw[..])
  {
    ghost var goal := s.CommitEnv(vals[..], xw[..]);
    var b := 0;
    while b < vals.Length
      invariant 0 <= b <= vals.Length
      invariant forall k :: 0 <= k < vals.Length ==> vals[k] == if k < b then goal[k] else old(vals[k])
    {
      if s.Crosses(s.d.wireOf[b]) && s.SeqWire(s.d.wireOf[b]) { vals[b] := xw[b]; }
      b := b + 1;
    }
  }
}
