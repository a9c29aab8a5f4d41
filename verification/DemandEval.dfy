/** Three evaluators of one synchronous netlist: forward every cycle (push), backward on demand
    with a memo (pull), and a forward sweep over the output's static cone. */
module DemandEval {
  import Dfs

  type Byte = bv8

  datatype BinOp = Xor2 | Inc

  /** A node reads by index; `npred` is the predecessor count recorded for a two-operand gate.  `Fn` is
      the prototype's gate, an arbitrary function of its operands. */
  datatype Node =
    | In(idx: nat)
    | Reg(d: nat)
    | Bin(op: BinOp, a0: nat, a1: nat, npred: nat)
    | SumN(preds: seq<nat>)
    | Fn(f: seq<Byte> -> Byte, preds: seq<nat>)

  type Net = seq<Node>

  type Stim = (nat, nat) -> Byte

  /** Nodes a gate's evaluation reads. */
  function Reads(x: Node): (r: seq<nat>) {
    match x
    case Bin(_, a0, a1, _) => [a0, a1]
    case SumN(preds) => preds
    case Fn(_, preds) => preds
    case _ => []
  }

  /** Nodes the cone builder follows. */
  function Follows(x: Node): (r: seq<nat>) {
    match x
    case Reg(d) => [d]
    case Bin(_, a0, a1, npred) => if npred > 1 then [a0, a1] else [a0]
    case SumN(preds) => preds
    case Fn(_, preds) => preds
    case In(_) => []
  }

  predicate IsGate(x: Node) { x.Bin? || x.SumN? || x.Fn? }

  /** Gates read earlier nodes, registers any node, sums at most the 64 operands of the scratch array. */
  ghost predicate NetOk(net: Net) {
    && (forall n, i :: 0 <= n < |net| && 0 <= i < |Reads(net[n])| ==> Reads(net[n])[i] < n)
    && (forall n :: 0 <= n < |net| && net[n].Reg? ==> net[n].d < |net|)
    && forall n :: 0 <= n < |net| && net[n].SumN? ==> |net[n].preds| <= 64
  }

  /** Every XOR records its two operands. */
  ghost predicate CountsOk(net: Net) {
    forall n :: 0 <= n < |net| && net[n].Bin? && net[n].op.Xor2? ==> net[n].npred > 1
  }

  function Total(v: seq<Byte>, n: nat): (s: nat)
    requires n <= |v|
    decreases n
  {
    if n == 0 then 0 else Total(v, n - 1) + v[n - 1] as nat
  }

  /** `gate_eval`, results truncated to a byte. */
  function GateEval(x: Node, v: seq<Byte>): Byte
    requires IsGate(x) && |v| == |Reads(x)|
  {
    match x
    case Bin(Xor2, _, _, _) => v[0] ^ v[1]
    case Bin(Inc, _, _, _) => v[0] + 1
    case SumN(_) => (Total(v, |v|) % 256) as Byte
    case Fn(f, _) => f(v)
  }

  // ---------------------------------------------------------------- reference

  /** The value of node `n` in cycle `t`; everything is 0 before the first cycle. */
  ghost function Val(net: Net, stim: Stim, n: nat, t: int): Byte
    requires NetOk(net) && n < |net|
    decreases t + 1, n
  {
    if t < 0 then 0
    else if net[n].In? then stim(t, net[n].idx)
    else if net[n].Reg? then Val(net, stim, net[n].d, t - 1)
    else GateEval(net[n], seq(|Reads(net[n])|, i requires 0 <= i < |Reads(net[n])| => Val(net, stim, Reads(net[n])[i], t)))
  }

  /** `s` runs through the sums of the nodes' values. */
  ghost predicate Sums(net: Net, stim: Stim, r: seq<nat>, t: nat, s: seq<nat>)
    requires NetOk(net)
  {
    && |s| == |r| + 1 && s[0] == 0
    && forall i :: 0 <= i < |r| ==> r[i] < |net| && s[i + 1] == s[i] + (Val(net, stim, r[i], t) as nat)
  }

  lemma {:induction false} TotalSums(net: Net, stim: Stim, r: seq<nat>, t: nat, s: seq<nat>, v: seq<Byte>, n: nat)
    requires NetOk(net) && Sums(net, stim, r, t, s) && |v| == |r| && n <= |r| && ValsOk(net, stim, r, v, t)
    ensures Total(v, n) == s[n]
    decreases n
  {
    if n == 0 {
    } else {
      TotalSums(net, stim, r, t, s, v, n - 1);
    }
  }

  /** The values of a cycle, spelt out.  An input has its stimulus, a register its driver's last value, 0 at first. */
  lemma LeafMeans(net: Net, stim: Stim, n: nat, t: nat)
    requires NetOk(net) && n < |net|
    ensures net[n].In? ==> Val(net, stim, n, t) == stim(t, net[n].idx)
    ensures net[n].Reg? ==> Val(net, stim, n, t) == if t == 0 then 0 else Val(net, stim, net[n].d, t - 1)
  {
  }

  /** A two-operand gate is the XOR of its operands, or the first plus one in a byte. */
  lemma BinMeans(net: Net, stim: Stim, n: nat, t: nat)
    requires NetOk(net) && n < |net| && net[n].Bin?
    ensures net[n].a0 < n && net[n].a1 < n
    ensures net[n].op.Xor2? ==> Val(net, stim, n, t) == Val(net, stim, net[n].a0, t) ^ Val(net, stim, net[n].a1, t)
    ensures net[n].op.Inc? ==> Val(net, stim, n, t) == Val(net, stim, net[n].a0, t) + 1
  {
    var r := Reads(net[n]);
    assert r[0] < n && r[1] < n;
  }

  /** A sum gate is the sum of its operands in a byte. */
  lemma SumMeans(net: Net, stim: Stim, n: nat, t: nat, s: seq<nat>)
    requires NetOk(net) && n < |net| && net[n].SumN? && Sums(net, stim, net[n].preds, t, s)
    ensures Val(net, stim, n, t) == (s[|net[n].preds|] % 256) as Byte
  {
    var x := GateOperands(net, stim, n, t);
    TotalSums(net, stim, net[n].preds, t, s, x, |x|);
  }

  lemma GateOperands(net: Net, stim: Stim, n: nat, t: nat) returns (x: seq<Byte>)
    requires NetOk(net) && n < |net| && IsGate(net[n])
    ensures |x| == |Reads(net[n])| && ValsOk(net, stim, Reads(net[n]), x, t) && Val(net, stim, n, t) == GateEval(net[n], x)
  {
    var r := Reads(net[n]);
    x := seq(|r|, i requires 0 <= i < |r| => Val(net, stim, r[i], t));
    GateVal(net, stim, n, t, x);
  }

  // ---------------------------------------------------------------- push

  /** Nodes below `n` and all registers hold their value of cycle `t`. */
  ghost predicate Swept(net: Net, stim: Stim, cur: seq<Byte>, t: nat, n: nat)
    requires NetOk(net)
  {
    && |cur| == |net|
    && forall m :: 0 <= m < |net| && (m < n || net[m].Reg?) ==> cur[m] == Val(net, stim, m, t)
  }

  method ReadOperands(x: Node, cur: array<Byte>) returns (v: seq<Byte>)
    requires forall i :: 0 <= i < |Reads(x)| ==> Reads(x)[i] < cur.Length
    ensures |v| == |Reads(x)| && forall i :: 0 <= i < |v| ==> v[i] == cur[Reads(x)[i]]
  {
    v := [];
    for i := 0 to |Reads(x)|
      invariant |v| == i && forall j :: 0 <= j < i ==> v[j] == cur[Reads(x)[j]]
    {
      v := v + [cur[Reads(x)[i]]];
    }
  }

  /** `v` holds the first operands' values of cycle `t`. */
  ghost predicate ValsOk(net: Net, stim: Stim, r: seq<nat>, v: seq<Byte>, t: nat)
    requires NetOk(net)
  {
    |v| <= |r| && forall i :: 0 <= i < |v| ==> r[i] < |net| && v[i] == Val(net, stim, r[i], t)
  }

  lemma ValsMore(net: Net, stim: Stim, r: seq<nat>, v: seq<Byte>, t: nat, x: Byte)
    requires NetOk(net) && ValsOk(net, stim, r, v, t) && |v| < |r| && r[|v|] < |net| && x == Val(net, stim, r[|v|], t)
    ensures ValsOk(net, stim, r, v + [x], t)
  {
  }

  lemma GateVal(net: Net, stim: Stim, n: nat, t: nat, v: seq<Byte>)
    requires NetOk(net) && n < |net| && IsGate(net[n]) && |v| == |Reads(net[n])|
    requires ValsOk(net, stim, Reads(net[n]), v, t)
    ensures GateEval(net[n], v) == Val(net, stim, n, t)
  {
    assert v == seq(|Reads(net[n])|, i requires 0 <= i < |Reads(net[n])| => Val(net, stim, Reads(net[n])[i], t));
  }

  /** One cycle's forward sweep. */
  method SweepAll(net: Net, stim: Stim, cur: array<Byte>, t: nat) returns (evals: nat)
    requires NetOk(net) && Swept(net, stim, cur[..], t, 0)
    modifies cur
    ensures Swept(net, stim, cur[..], t, |net|) && evals == Gates(net, |net|)
  {
    evals := 0;
    for n := 0 to |net|
      invariant Swept(net, stim, cur[..], t, n) && evals == Gates(net, n)
    {
      if net[n].In? {
        cur[n] := stim(t, net[n].idx);
      } else if !net[n].Reg? {
        assert forall i :: 0 <= i < |Reads(net[n])| ==> Reads(net[n])[i] < n;
        var v := ReadOperands(net[n], cur);
        assert forall i :: 0 <= i < |v| ==> v[i] == cur[..][Reads(net[n])[i]];
        GateVal(net, stim, n, t, v);
        cur[n] := GateEval(net[n], v);
        evals := evals + 1;
      }
    }
  }

  function Gates(net: Net, n: nat): (g: nat)
    requires n <= |net|
    decreases n
  {
    if n == 0 then 0 else Gates(net, n - 1) + if IsGate(net[n - 1]) then 1 else 0
  }

  /** The clock edge: every register takes its driver's settled value, all at once. */
  method CommitAll(net: Net, stim: Stim, cur: array<Byte>, nxt: array<Byte>, t: nat)
    requires NetOk(net) && cur != nxt && nxt.Length == |net| && Swept(net, stim, cur[..], t, |net|)
    modifies cur, nxt
    ensures Swept(net, stim, cur[..], t + 1, 0)
  {
    for n := 0 to |net|
      invariant cur[..] == old(cur[..])
      invariant forall m :: 0 <= m < n && net[m].Reg? ==> nxt[m] == Val(net, stim, m, t + 1)
    {
      if net[n].Reg? {
        assert cur[net[n].d] == cur[..][net[n].d];
        nxt[n] := cur[net[n].d];
      }
    }
    for n := 0 to |net|
      invariant forall m :: 0 <= m < |net| && net[m].Reg? ==> nxt[m] == Val(net, stim, m, t + 1)
      invariant forall m :: 0 <= m < n && net[m].Reg? ==> cur[m] == Val(net, stim, m, t + 1)
    {
      if net[n].Reg? { cur[n] := nxt[n]; }
    }
  }

  /** One cycle: settle, observe, commit. */
  method Cycle(net: Net, stim: Stim, cur: array<Byte>, nxt: array<Byte>, t: nat, out: nat) returns (o: Byte, evals: nat)
    requires NetOk(net) && cur != nxt && nxt.Length == |net| && out < |net| && Swept(net, stim, cur[..], t, 0)
    modifies cur, nxt
    ensures Swept(net, stim, cur[..], t + 1, 0) && o == Val(net, stim, out, t) && evals == Gates(net, |net|)
  {
    evals := SweepAll(net, stim, cur, t);
    o := cur[..][out];
    CommitAll(net, stim, cur, nxt, t);
  }

  /** The first `C` entries of the buffer are the output's values. */
  ghost predicate Observed(net: Net, stim: Stim, out: nat, buf: seq<Byte>, C: nat)
    requires NetOk(net) && out < |net|
  {
    C <= |buf| && forall t :: 0 <= t < C ==> buf[t] == Val(net, stim, out, t)
  }

  lemma ObservedMore(net: Net, stim: Stim, out: nat, buf: seq<Byte>, buf': seq<Byte>, t: nat)
    requires NetOk(net) && out < |net| && Observed(net, stim, out, buf, t) && t < |buf| == |buf'|
    requires buf'[..t] == buf[..t] && buf'[t] == Val(net, stim, out, t)
    ensures Observed(net, stim, out, buf', t + 1)
  {
    forall u | 0 <= u < t + 1 ensures buf'[u] == Val(net, stim, out, u) {
      if u < t { assert buf'[u] == buf'[..t][u] == buf[..t][u]; }
    }
  }

  lemma NextMultiple(t: nat, g: nat)
    ensures (t + 1) * g == t * g + g
  {
  }

  /** `run_push`: the output of every cycle, one evaluation per gate and cycle. */
  method RunPush(net: Net, stim: Stim, C: nat, out: nat, outbuf: array<Byte>) returns (evals: nat)
    requires NetOk(net) && out < |net| && C <= outbuf.Length
    modifies outbuf
    ensures Observed(net, stim, out, outbuf[..], C)
    ensures evals == C * Gates(net, |net|)
  {
    var cur, nxt := new Byte[|net|](_ => 0), new Byte[|net|](_ => 0);
    evals := 0;
    for t := 0 to C
      invariant Swept(net, stim, cur[..], t, 0) && evals == t * Gates(net, |net|)
      invariant Observed(net, stim, out, outbuf[..], t) && fresh(cur) && fresh(nxt)
    {
      var o, e := Cycle(net, stim, cur, nxt, t, out);
      NextMultiple(t, Gates(net, |net|));
      ghost var was := outbuf[..];
      evals, outbuf[t] := evals + e, o;
      ObservedMore(net, stim, out, was, outbuf[..], t);
    }
  }

  /** Two inputs and their XOR: what is observed is the XOR of the stimuli. */
  lemma XorObserved(net: Net, stim: Stim, buf: seq<Byte>, C: nat, t: nat)
    requires net == [In(0), In(1), Bin(Xor2, 0, 1, 2)] && NetOk(net) && Observed(net, stim, 2, buf, C) && t < C
    ensures buf[t] == stim(t, 0) ^ stim(t, 1)
  {
    BinMeans(net, stim, 2, t);
    LeafMeans(net, stim, 0, t);
    LeafMeans(net, stim, 1, t);
  }

  // ---------------------------------------------------------------- pull

  /** What the value of a node in a cycle is computed from. */
  ghost predicate Depends(net: Net, n: nat, t: nat, m: nat, u: nat) {
    n < |net| && if net[n].Reg? then t > 0 && m == net[n].d && u == t - 1 else m in Reads(net[n]) && u == t
  }

  type Cell = (nat, nat)

  /** A set of cells closed under what their values need. */
  ghost predicate Closed(net: Net, s: set<Cell>) {
    forall n: nat, t: nat, m: nat, u: nat :: (n, t) in s && Depends(net, n, t, m, u) ==> (m, u) in s
  }

  /** The computed cells grew by cell `(n, t)` and what it needs at most. */
  ghost predicate GrewBy(net: Net, before: set<Cell>, after: set<Cell>, n: nat, t: nat) {
    before <= after && forall s :: Closed(net, s) && (n, t) in s ==> after <= before + s
  }

  /** They grew by what cell `(n, t)` needs at most. */
  ghost predicate GrewFor(net: Net, before: set<Cell>, after: set<Cell>, n: nat, t: nat) {
    && before <= after
    && forall s :: Closed(net, s) && (forall m: nat, u: nat :: Depends(net, n, t, m, u) ==> (m, u) in s) ==>
      after <= before + s
  }

  lemma GrewNone(net: Net, cells: set<Cell>, n: nat, t: nat)
    ensures GrewFor(net, cells, cells, n, t) && GrewBy(net, cells, cells, n, t)
  {
  }

  lemma GrewMore(net: Net, a: set<Cell>, b: set<Cell>, c: set<Cell>, n: nat, t: nat, m: nat, u: nat)
    requires GrewFor(net, a, b, n, t) && GrewBy(net, b, c, m, u) && Depends(net, n, t, m, u)
    ensures GrewFor(net, a, c, n, t)
  {
    forall s | Closed(net, s) && (forall m: nat, u: nat :: Depends(net, n, t, m, u) ==> (m, u) in s)
      ensures c <= a + s
    {
      assert (m, u) in s;
      assert b <= a + s && c <= b + s;
    }
  }

  lemma GrewCell(net: Net, a: set<Cell>, b: set<Cell>, n: nat, t: nat)
    requires GrewFor(net, a, b, n, t)
    ensures GrewBy(net, a, b + {(n, t)}, n, t)
  {
    forall s | Closed(net, s) && (n, t) in s ensures b + {(n, t)} <= a + s {
      assert forall m: nat, u: nat :: Depends(net, n, t, m, u) ==> (m, u) in s;
    }
  }

  lemma ClosedMore(net: Net, s: set<Cell>, n: nat, t: nat)
    requires Closed(net, s) && forall m: nat, u: nat :: Depends(net, n, t, m, u) ==> (m, u) in s
    ensures Closed(net, s + {(n, t)})
  {
  }

  /** Exactly the computed cells are marked, and they hold right values. */
  ghost predicate MemoOk(net: Net, stim: Stim, M: array2<Byte>, done: array2<bool>, cells: set<Cell>)
    requires NetOk(net)
    reads M, done
  {
    && M as object != done as object && M.Length0 == done.Length0 == |net| && M.Length1 == done.Length1
    && (forall c :: c in cells ==> c.0 < |net| && c.1 < M.Length1)
    && forall n: nat, t: nat :: n < |net| && t < M.Length1 ==>
      (done[n, t] <==> (n, t) in cells) && ((n, t) in cells ==> M[n, t] == Val(net, stim, n, t))
  }

  method MemoStore(net: Net, stim: Stim, M: array2<Byte>, done: array2<bool>, ghost cells: set<Cell>, n: nat, t: nat, v: Byte)
    requires NetOk(net) && MemoOk(net, stim, M, done, cells) && n < |net| && t < M.Length1 && v == Val(net, stim, n, t)
    modifies M, done
    ensures MemoOk(net, stim, M, done, cells + {(n, t)})
  {
    M[n, t] := v;
    done[n, t] := true;
  }

  ghost predicate CellsHold(r: seq<nat>, k: nat, t: nat, cells: set<Cell>) {
    k <= |r| && forall i :: 0 <= i < k ==> (r[i], t) in cells
  }

  lemma CellsMore(r: seq<nat>, k: nat, t: nat, cells: set<Cell>, cells': set<Cell>)
    requires CellsHold(r, k, t, cells) && cells <= cells' && k < |r| && (r[k], t) in cells'
    ensures CellsHold(r, k + 1, t, cells')
  {
  }

  class Pull {
    const net: Net
    const C: nat
    const stim: Stim
    const M: array2<Byte>
    const done: array2<bool>
    var evals: nat
    ghost var cells: set<Cell>

    /** The memo holds right values, is closed, and `evals` counts its cells. */
    ghost predicate Valid()
      reads this, M, done
    {
      && NetOk(net) && MemoOk(net, stim, M, done, cells) && M.Length1 == C
      && evals == |cells| && Closed(net, cells)
    }

    constructor (net: Net, C: nat, stim: Stim)
      requires NetOk(net)
      ensures Valid() && cells == {} && fresh(M) && fresh(done)
      ensures this.net == net && this.C == C && this.stim == stim
    {
      this.net, this.C, this.stim := net, C, stim;
      M := new Byte[|net|, C]((_, _) => 0);
      done := new bool[|net|, C]((_, _) => false);
      evals, cells := 0, {};
    }

    /** `M[k] = v; done[k] = 1` and the count. */
    method Store(n: nat, t: nat, v: Byte)
      requires Valid() && n < |net| && t < C && (n, t) !in cells && v == Val(net, stim, n, t)
      requires forall m: nat, u: nat :: Depends(net, n, t, m, u) ==> (m, u) in cells
      modifies this`evals, this`cells, M, done
      ensures Valid() && cells == old(cells) + {(n, t)}
    {
      MemoStore(net, stim, M, done, cells, n, t, v);
      ClosedMore(net, cells, n, t);
      evals := evals + 1;
      cells := cells + {(n, t)};
    }

    /** Reads a gate's operands in order. */
    method Operands(n: nat, t: nat) returns (v: seq<Byte>)
      requires Valid() && n < |net| && t < C && IsGate(net[n])
      modifies this`evals, this`cells, M, done
      ensures Valid() && |v| == |Reads(net[n])| && ValsOk(net, stim, Reads(net[n]), v, t)
      ensures CellsHold(Reads(net[n]), |v|, t, cells)
      ensures GrewFor(net, old(cells), cells, n, t)
      decreases t + 1, n, 0
    {
      v := [];
      var r := Reads(net[n]);
      GrewNone(net, cells, n, t);
      for i := 0 to |r|
        invariant Valid() && |v| == i && ValsOk(net, stim, r, v, t)
        invariant CellsHold(r, i, t, cells)
        invariant GrewFor(net, old(cells), cells, n, t)
      {
        assert r[i] in r && r[i] < n;
        ghost var mid := cells;
        var x := Value(r[i], t);
        GrewMore(net, old(cells), mid, cells, n, t, r[i], t);
        CellsMore(r, i, t, mid, cells);
        ValsMore(net, stim, r, v, t, x);
        v := v + [x];
      }
    }

    /** `value`: the reference value; the memo gains the cell and what it needs, nothing else. */
    method Value(n: nat, t: int) returns (v: Byte)
      requires Valid() && n < |net| && t < C
      modifies this`evals, this`cells, M, done
      ensures Valid() && v == Val(net, stim, n, t)
      ensures t < 0 ==> cells == old(cells)
      ensures t >= 0 ==> (n, t) in cells && GrewBy(net, old(cells), cells, n, t)
      decreases t + 1, n, 2
    {
      if t < 0 { return 0; }
      GrewNone(net, cells, n, t);
      if done[n, t] { return M[n, t]; }
      ghost var before := cells;
      if net[n].In? {
        v := stim(t, net[n].idx);
      } else if net[n].Reg? {
        v := ComputeReg(n, t);
      } else {
        v := ComputeGate(n, t);
      }
      NotYet(net, n, t, before, cells);
      GrewCell(net, before, cells, n, t);
      Store(n, t, v);
    }

    /** A register looks back one cycle. */
    method ComputeReg(n: nat, t: nat) returns (v: Byte)
      requires Valid() && n < |net| && t < C && net[n].Reg?
      modifies this`evals, this`cells, M, done
      ensures Valid() && v == Val(net, stim, n, t) && GrewFor(net, old(cells), cells, n, t)
      ensures forall m: nat, u: nat :: Depends(net, n, t, m, u) ==> (m, u) in cells
      decreases t + 1, n, 1
    {
      ghost var before := cells;
      v := Value(net[n].d, t - 1);
      RegGrew(net, before, cells, n, t);
      RegVal(net, stim, n, t);
    }

    /** A gate evaluates its operands in the same cycle. */
    method ComputeGate(n: nat, t: nat) returns (v: Byte)
      requires Valid() && n < |net| && t < C && IsGate(net[n])
      modifies this`evals, this`cells, M, done
      ensures Valid() && v == Val(net, stim, n, t) && GrewFor(net, old(cells), cells, n, t)
      ensures forall m: nat, u: nat :: Depends(net, n, t, m, u) ==> (m, u) in cells
      decreases t + 1, n, 1
    {
      var vs := Operands(n, t);
      GateVal(net, stim, n, t, vs);
      v := GateEval(net[n], vs);
      AllOperands(net, n, t, cells);
    }
  }

  lemma RegVal(net: Net, stim: Stim, n: nat, t: nat)
    requires NetOk(net) && n < |net| && net[n].Reg?
    ensures Val(net, stim, n, t) == Val(net, stim, net[n].d, t - 1)
  {
  }

  lemma RegGrew(net: Net, before: set<Cell>, after: set<Cell>, n: nat, t: nat)
    requires n < |net| && net[n].Reg?
    requires t == 0 ==> after == before
    requires t > 0 ==> (net[n].d, t - 1) in after && GrewBy(net, before, after, net[n].d, t - 1)
    ensures GrewFor(net, before, after, n, t)
    ensures forall m: nat, u: nat :: Depends(net, n, t, m, u) ==> (m, u) in after
  {
    GrewNone(net, before, n, t);
    if t > 0 {
      assert Depends(net, n, t, net[n].d, t - 1);
      GrewMore(net, before, before, after, n, t, net[n].d, t - 1);
    }
  }

  lemma AllOperands(net: Net, n: nat, t: nat, cells: set<Cell>)
    requires n < |net| && !net[n].Reg? && CellsHold(Reads(net[n]), |Reads(net[n])|, t, cells)
    ensures forall m: nat, u: nat :: Depends(net, n, t, m, u) ==> (m, u) in cells
  {
    forall m: nat, u: nat | Depends(net, n, t, m, u) ensures (m, u) in cells {
      var i :| 0 <= i < |Reads(net[n])| && Reads(net[n])[i] == m;
    }
  }

  /** The cells of earlier cycles, and of earlier nodes in this one. */
  ghost function Earlier(net: Net, n: nat, t: nat): (s: set<Cell>) {
    set m: nat, u: nat | m < |net| && u <= t && (u < t || m < n) :: (m, u)
  }

  lemma EarlierClosed(net: Net, n: nat, t: nat)
    requires NetOk(net) && n < |net|
    ensures Closed(net, Earlier(net, n, t)) && (n, t) !in Earlier(net, n, t)
    ensures forall m: nat, u: nat :: Depends(net, n, t, m, u) ==> (m, u) in Earlier(net, n, t)
  {
    var s := Earlier(net, n, t);
    forall k: nat, v: nat, m: nat, u: nat | ((k, v) in s || (k == n && v == t)) && Depends(net, k, v, m, u)
      ensures (m, u) in s
    {
      DependsEarlier(net, k, v, m, u);
    }
  }

  lemma DependsEarlier(net: Net, n: nat, t: nat, m: nat, u: nat)
    requires NetOk(net) && Depends(net, n, t, m, u)
    ensures m < |net| && u <= t && (u < t || m < n)
  {
    if !net[n].Reg? { var i :| 0 <= i < |Reads(net[n])| && Reads(net[n])[i] == m; }
  }

  /** Computing what a cell needs does not compute the cell. */
  lemma NotYet(net: Net, n: nat, t: nat, before: set<Cell>, after: set<Cell>)
    requires NetOk(net) && n < |net| && (n, t) !in before && GrewFor(net, before, after, n, t)
    ensures (n, t) !in after
  {
    EarlierClosed(net, n, t);
  }

  /** `t` is a multiple of the stride. */
  predicate OnStride(stride: nat, t: nat)
    requires stride > 0
    decreases t
  {
    t == 0 || (t >= stride && OnStride(stride, t - stride))
  }

  lemma {:induction false} StrideGap(stride: nat, t: nat, u: nat)
    requires stride > 0 && OnStride(stride, t) && OnStride(stride, u) && t <= u < t + stride
    ensures u == t
    decreases t
  {
    if t == 0 {
    } else {
      StrideGap(stride, t - stride, u - stride);
    }
  }

  /** The cycles observed with a stride; a negative stride observes the last cycle only. */
  predicate Watched(C: nat, stride: int, t: nat) {
    t < C && if stride < 0 then t == C - 1 else stride > 0 && OnStride(stride, t)
  }

  ghost predicate ClosedOver(net: Net, s: set<Cell>, C: nat, stride: int, out: nat) {
    Closed(net, s) && forall t: nat :: Watched(C, stride, t) ==> (out, t) in s
  }

  /** The observations before `t` are made, with the cells they need and no others. */
  ghost predicate Pulled(net: Net, stim: Stim, C: nat, stride: int, out: nat, buf0: seq<Byte>, buf: seq<Byte>, cells: set<Cell>, t: nat)
    requires NetOk(net) && out < |net|
  {
    PulledBuf(net, stim, C, stride, out, buf0, buf, t) && PulledCells(net, C, stride, out, cells, t)
  }

  ghost predicate PulledBuf(net: Net, stim: Stim, C: nat, stride: int, out: nat, buf0: seq<Byte>, buf: seq<Byte>, t: nat)
    requires NetOk(net) && out < |net|
  {
    && |buf| == |buf0|
    && forall u: nat :: u < |buf| ==>
      if u < t && Watched(C, stride, u) then buf[u] == Val(net, stim, out, u) else buf[u] == buf0[u]
  }

  ghost predicate PulledCells(net: Net, C: nat, stride: int, out: nat, cells: set<Cell>, t: nat) {
    && (forall u: nat :: u < t && Watched(C, stride, u) ==> (out, u) in cells)
    && forall s :: ClosedOver(net, s, C, stride, out) ==> cells <= s
  }

  lemma BufMore(net: Net, stim: Stim, C: nat, stride: int, out: nat, buf0: seq<Byte>, buf: seq<Byte>, t: nat, next: nat, v: Byte)
    requires NetOk(net) && out < |net| && C <= |buf| && PulledBuf(net, stim, C, stride, out, buf0, buf, t)
    requires Watched(C, stride, t) && v == Val(net, stim, out, t)
    requires t < next && forall u: nat :: t < u < next ==> !Watched(C, stride, u)
    ensures PulledBuf(net, stim, C, stride, out, buf0, buf[t := v], next)
  {
  }

  lemma CellsPulledMore(net: Net, C: nat, stride: int, out: nat, cells: set<Cell>, t: nat, next: nat, cells': set<Cell>)
    requires PulledCells(net, C, stride, out, cells, t) && Watched(C, stride, t)
    requires GrewBy(net, cells, cells', out, t) && (out, t) in cells'
    requires t < next && forall u: nat :: t < u < next ==> !Watched(C, stride, u)
    ensures PulledCells(net, C, stride, out, cells', next)
  {
    forall s | ClosedOver(net, s, C, stride, out) ensures cells' <= s {
      assert (out, t) in s;
      assert cells <= s && cells' <= cells + s;
    }
  }

  lemma PulledMore(net: Net, stim: Stim, C: nat, stride: int, out: nat, buf0: seq<Byte>, buf: seq<Byte>, cells: set<Cell>,
                   t: nat, next: nat, v: Byte, cells': set<Cell>)
    requires NetOk(net) && out < |net| && C <= |buf| && Pulled(net, stim, C, stride, out, buf0, buf, cells, t)
    requires Watched(C, stride, t) && v == Val(net, stim, out, t) && GrewBy(net, cells, cells', out, t) && (out, t) in cells'
    requires t < next && forall u: nat :: t < u < next ==> !Watched(C, stride, u)
    ensures Pulled(net, stim, C, stride, out, buf0, buf[t := v], cells', next)
  {
    BufMore(net, stim, C, stride, out, buf0, buf, t, next, v);
    CellsPulledMore(net, C, stride, out, cells, t, next, cells');
  }

  lemma NoneBetween(C: nat, stride: int, t: nat, next: nat)
    requires C > 0 && stride != 0 && Watched(C, stride, t) && next == t + if stride < 0 then C else stride
    ensures forall u: nat :: t < u < next ==> !Watched(C, stride, u)
    ensures next < C ==> Watched(C, stride, next)
  {
    if stride > 0 {
      forall u: nat | t < u < next ensures !Watched(C, stride, u) {
        if OnStride(stride, u) { StrideGap(stride, t, u); }
      }
    }
  }

  /** `run_pull`: the output at the observed cycles; the evaluations are the cells of the least
      closed set that holds the observations, each counted once. */
  method RunPull(net: Net, stim: Stim, C: nat, out: nat, stride: int, outbuf: array<Byte>)
    returns (evals: nat, ghost cells: set<Cell>)
    requires NetOk(net) && out < |net| && C <= outbuf.Length && stride != 0 && C > 0
    modifies outbuf
    ensures forall t: nat :: t < outbuf.Length ==>
      outbuf[t] == if Watched(C, stride, t) then Val(net, stim, out, t) else old(outbuf[t])
    ensures evals == |cells| && ClosedOver(net, cells, C, stride, out)
    ensures forall s :: ClosedOver(net, s, C, stride, out) ==> cells <= s
  {
    ghost var buf0 := outbuf[..];
    var p := new Pull(net, C, stim);
    var t := if stride < 0 then C - 1 else 0;
    while t < C
      invariant p.Valid() && fresh(p) && fresh(p.M) && fresh(p.done) && p.net == net && p.C == C && p.stim == stim
      invariant 0 <= t && (t < C ==> Watched(C, stride, t))
      invariant Pulled(net, stim, C, stride, out, buf0, outbuf[..], p.cells, t)
      decreases C - t
    {
      ghost var before, buf := p.cells, outbuf[..];
      var next := t + if stride < 0 then C else stride;
      NoneBetween(C, stride, t, next);
      outbuf[t] := p.Value(out, t);
      PulledMore(net, stim, C, stride, out, buf0, buf, before, t, next, outbuf[t], p.cells);
      assert outbuf[..] == buf[t := outbuf[t]];
      t := next;
    }
    evals, cells := p.evals, p.cells;
    assert forall u: nat :: u < outbuf.Length ==> outbuf[..][u] == outbuf[u];
  }

  // ---------------------------------------------------------------- the static cone

  /** Closed under what the cone builder follows, and holding the output. */
  ghost predicate ConeClosed(net: Net, s: set<nat>, out: nat) {
    out in s && forall n, m :: n in s && n < |net| && m in Follows(net[n]) ==> m in s
  }

  /** Marked nodes are on the stack or have all they follow marked. */
  ghost predicate Stacked(net: Net, marked: set<nat>, stk: seq<nat>) {
    && (forall n :: n in marked ==> n < |net|) && (forall n :: n in stk ==> n in marked) && Dfs.Distinct(stk)
    && forall n, m :: n in marked && n !in stk && n < |net| && m in Follows(net[n]) ==> m in marked
  }

  /** Nothing outside a closed set was marked. */
  ghost predicate OnlyCone(net: Net, marked: set<nat>, out: nat) {
    out in marked && forall s :: ConeClosed(net, s, out) ==> marked <= s
  }

  function Below(n: nat): (s: set<nat>)
    ensures forall i: nat :: i in s <==> i < n
    ensures |s| == n
  {
    if n == 0 then {} else Below(n - 1) + {n - 1}
  }

  lemma {:induction false} StackFits(net: Net, stk: seq<nat>, s: set<nat>)
    requires Dfs.Distinct(stk) && forall n :: n in stk ==> n in s
    ensures |stk| <= |s|
    decreases |stk|
  {
    if stk == [] {
    } else {
      var x := stk[|stk| - 1];
      var rest := stk[..|stk| - 1];
      forall n | n in rest ensures n in s - {x} {
        var i :| 0 <= i < |rest| && rest[i] == n;
        assert stk[i] != stk[|stk| - 1];
        assert n in stk;
      }
      StackFits(net, rest, s - {x});
      assert x in s && s == (s - {x}) + {x};
    }
  }

  /** While the first `i` operands of the popped `n` are pushed: what was marked stays, what is newly marked
      is on the stack, and the two grow together. */
  ghost predicate Pushing(net: Net, n: nat, marked0: set<nat>, stk0: seq<nat>, marked: set<nat>, stk: seq<nat>,
                          out: nat, f: seq<nat>, i: nat)
  {
    && marked0 <= marked && OnlyCone(net, marked, out) && Dfs.Distinct(stk) && i <= |f|
    && (forall k :: k in marked ==> k < |net|) && (forall k :: k in stk ==> k in marked && k != n)
    && (forall k :: k in marked && k !in marked0 ==> k in stk)
    && (forall k :: k in stk0 ==> k in stk)
    && (forall k :: k in marked0 && k !in stk0 ==> k !in stk)
    && (forall j :: 0 <= j < i ==> f[j] in marked)
    && |marked| - |stk| == |marked0| - |stk0|
  }

  lemma PushOne(net: Net, n: nat, marked0: set<nat>, stk0: seq<nat>, marked: set<nat>, stk: seq<nat>,
                out: nat, f: seq<nat>, i: nat)
    requires Pushing(net, n, marked0, stk0, marked, stk, out, f, i) && i < |f| && f[i] < |net|
    requires n in marked0 && f[i] !in marked && OnlyCone(net, marked + {f[i]}, out)
    ensures Pushing(net, n, marked0, stk0, marked + {f[i]}, stk + [f[i]], out, f, i + 1)
  {
  }

  lemma PushDone(net: Net, n: nat, marked0: set<nat>, stk0: seq<nat>, marked: set<nat>, stk: seq<nat>, out: nat, f: seq<nat>)
    requires Pushing(net, n, marked0, stk0, marked, stk, out, f, |f|) && n < |net| && f == Follows(net[n])
    requires forall k, m :: k in marked0 && k !in stk0 && k != n && k < |net| && m in Follows(net[k]) ==> m in marked0
    ensures Stacked(net, marked, stk) && |stk| <= |net|
  {
    StackFits(net, stk, Below(|net|));
  }

  /** Popping `n` and pushing what it follows that is not marked yet. */
  method Push(net: Net, n: nat, marked0: set<nat>, stk0: seq<nat>, ghost out: nat)
    returns (marked: set<nat>, stk: seq<nat>)
    requires NetOk(net) && n < |net| && n in marked0 && n !in stk0 && OnlyCone(net, marked0, out)
    requires (forall k :: k in marked0 ==> k < |net|) && (forall k :: k in stk0 ==> k in marked0) && Dfs.Distinct(stk0)
    requires forall k, m :: k in marked0 && k !in stk0 && k != n && k < |net| && m in Follows(net[k]) ==> m in marked0
    ensures Stacked(net, marked, stk) && OnlyCone(net, marked, out) && marked0 <= marked
    ensures |marked| - |stk| == |marked0| - |stk0| && |stk| <= |net|
  {
    marked, stk := marked0, stk0;
    var f := Follows(net[n]);
    for i := 0 to |f|
      invariant Pushing(net, n, marked0, stk0, marked, stk, out, f, i)
    {
      var d := f[i];
      FollowsInside(net, n, i);
      if d !in marked {
        OnlyConeMore(net, marked, out, n, d);
        PushOne(net, n, marked0, stk0, marked, stk, out, f, i);
        marked := marked + {d};
        stk := stk + [d];
      }
    }
    PushDone(net, n, marked0, stk0, marked, stk, out, f);
  }

  lemma FollowsInside(net: Net, n: nat, i: nat)
    requires NetOk(net) && n < |net| && i < |Follows(net[n])|
    ensures Follows(net[n])[i] < |net|
  {
    if net[n].Bin? { assert Reads(net[n])[0] < n && Reads(net[n])[1] < n; }
    if net[n].SumN? || net[n].Fn? { assert Reads(net[n])[i] < n; }
  }

  lemma OnlyConeMore(net: Net, marked: set<nat>, out: nat, n: nat, d: nat)
    requires OnlyCone(net, marked, out) && n in marked && n < |net| && d in Follows(net[n])
    ensures OnlyCone(net, marked + {d}, out)
  {
    forall s | ConeClosed(net, s, out) ensures marked + {d} <= s { assert n in s; }
  }

  function Members(cone: seq<nat>): (s: set<nat>) { set n | n in cone }

  /** The cone: the marked nodes in index order. */
  ghost predicate IsCone(net: Net, cone: seq<nat>, out: nat) {
    && (forall i, j :: 0 <= i < j < |cone| ==> cone[i] < cone[j])
    && (forall i :: 0 <= i < |cone| ==> cone[i] < |net|)
    && ConeClosed(net, Members(cone), out)
    && forall s :: ConeClosed(net, s, out) ==> forall n :: n in cone ==> n in s
  }

  /** `build_cone`: the least set of nodes that holds the output and what it depends on. */
  method BuildCone(net: Net, out: nat) returns (cone: seq<nat>)
    requires NetOk(net) && out < |net|
    ensures IsCone(net, cone, out)
  {
    var marked, stk := {out}, [out];
    while stk != []
      invariant Stacked(net, marked, stk) && OnlyCone(net, marked, out)
      invariant |marked| >= |stk| && |marked| <= |net|
      decreases |net| - (|marked| - |stk|)
    {
      var n := stk[|stk| - 1];
      var rest := stk[..|stk| - 1];
      assert n in stk;
      PopDistinct(stk);
      marked, stk := Push(net, n, marked, rest, out);
        assert marked <= Below(|net|);
      Dfs.SubsetSize(marked, Below(|net|));
    }
    assert ConeClosed(net, marked, out);
    cone := Ascending(net, marked);
    assert Members(cone) == marked;
  }

  lemma PopDistinct(stk: seq<nat>)
    requires |stk| > 0 && Dfs.Distinct(stk)
    ensures Dfs.Distinct(stk[..|stk| - 1]) && stk[|stk| - 1] !in stk[..|stk| - 1]
    ensures forall k :: k in stk <==> k == stk[|stk| - 1] || k in stk[..|stk| - 1]
  {
    assert stk == stk[..|stk| - 1] + [stk[|stk| - 1]];
  }

  /** The final scan over all indices. */
  method Ascending(net: Net, marked: set<nat>) returns (cone: seq<nat>)
    requires forall n :: n in marked ==> n < |net|
    ensures (forall i, j :: 0 <= i < j < |cone| ==> cone[i] < cone[j]) && forall i :: 0 <= i < |cone| ==> cone[i] < |net|
    ensures forall n :: n in cone <==> n in marked
  {
    cone := [];
    for n := 0 to |net|
      invariant (forall i, j :: 0 <= i < j < |cone| ==> cone[i] < cone[j]) && forall i :: 0 <= i < |cone| ==> cone[i] < n
      invariant forall m :: m in cone <==> m in marked && m < n
    {
      if n in marked { cone := cone + [n]; }
    }
  }

  // ---------------------------------------------------------------- sweeping the cone

  /** The cone's nodes below index `n`, and its registers, hold their value of cycle `t`. */
  ghost predicate ConeSwept(net: Net, stim: Stim, cone: seq<nat>, cur: seq<Byte>, t: nat, n: nat)
    requires NetOk(net)
  {
    && |cur| == |net|
    && forall m :: m in cone && m < |net| && (m < n || net[m].Reg?) ==> cur[m] == Val(net, stim, m, t)
  }

  /** A gate's result depends only on the operands its cone follows. */
  lemma EvalSame(x: Node, v: seq<Byte>, w: seq<Byte>)
    requires IsGate(x) && |v| == |w| == |Reads(x)| && (x.Bin? && x.op.Xor2? ==> x.npred > 1)
    requires forall i :: 0 <= i < |v| && Reads(x)[i] in Follows(x) ==> v[i] == w[i]
    ensures GateEval(x, v) == GateEval(x, w)
  {
    if x.SumN? || x.Fn? {
      assert forall i :: 0 <= i < |v| ==> x.preds[i] in x.preds;
      assert v == w;
    } else {
      assert Reads(x)[0] in Follows(x);
      if x.op.Xor2? { assert Reads(x)[1] in Follows(x); }
    }
  }

  /** The cone follows a register's driver, the operands of a sum, the first operand of a two-operand gate, and the
      second when two are recorded. */
  lemma FollowsMeans(x: Node, m: nat)
    ensures x.Reg? ==> (m in Follows(x) <==> m == x.d)
    ensures x.Bin? ==> (m in Follows(x) <==> m == x.a0 || (m == x.a1 && x.npred >= 2))
    ensures x.SumN? || x.Fn? ==> (m in Follows(x) <==> m in x.preds)
    ensures x.In? ==> m !in Follows(x)
  {
  }

  lemma EvalFollowed(net: Net, stim: Stim, n: nat, t: nat, v: seq<Byte>)
    requires NetOk(net) && CountsOk(net) && n < |net| && IsGate(net[n]) && |v| == |Reads(net[n])|
    requires forall i :: 0 <= i < |v| ==> Reads(net[n])[i] < |net|
    requires forall i :: 0 <= i < |v| && Reads(net[n])[i] in Follows(net[n]) ==> v[i] == Val(net, stim, Reads(net[n])[i], t)
    ensures GateEval(net[n], v) == Val(net, stim, n, t)
  {
    var r := Reads(net[n]);
    var w := seq(|r|, i requires 0 <= i < |r| => Val(net, stim, r[i], t));
    GateVal(net, stim, n, t, w);
    EvalSame(net[n], v, w);
  }

  lemma InCone(net: Net, cone: seq<nat>, out: nat, n: nat, m: nat)
    requires NetOk(net) && IsCone(net, cone, out) && n in cone && n < |net| && m in Follows(net[n])
    ensures m in cone
  {
    assert n in Members(cone);
    assert m in Members(cone);
  }

  /** A cone gate, its followed operands being settled. */
  method ConeGate(net: Net, stim: Stim, cone: seq<nat>, ghost out: nat, cur: array<Byte>, t: nat, n: nat) returns (v: Byte)
    requires NetOk(net) && CountsOk(net) && IsCone(net, cone, out) && n in cone && n < |net| && IsGate(net[n])
    requires ConeSwept(net, stim, cone, cur[..], t, n)
    ensures v == Val(net, stim, n, t)
  {
    var r := Reads(net[n]);
    assert forall i :: 0 <= i < |r| ==> r[i] < n;
    var vs := ReadOperands(net[n], cur);
    forall i | 0 <= i < |vs| && r[i] in Follows(net[n]) ensures vs[i] == Val(net, stim, r[i], t) {
      InCone(net, cone, out, n, r[i]);
      assert vs[i] == cur[..][r[i]];
    }
    EvalFollowed(net, stim, n, t, vs);
    v := GateEval(net[n], vs);
  }

  lemma SweptMore(net: Net, stim: Stim, cone: seq<nat>, cur: seq<Byte>, t: nat, n: nat, v: Byte)
    requires NetOk(net) && n < |net| && ConeSwept(net, stim, cone, cur, t, n) && v == Val(net, stim, n, t)
    ensures ConeSwept(net, stim, cone, cur[n := v], t, n + 1)
  {
  }

  /** One cone node. */
  method ConeNode(net: Net, stim: Stim, cone: seq<nat>, ghost out: nat, cur: array<Byte>, t: nat, ci: nat)
    returns (evals: nat)
    requires NetOk(net) && CountsOk(net) && IsCone(net, cone, out) && ci < |cone|
    requires ConeSwept(net, stim, cone, cur[..], t, cone[ci])
    modifies cur
    ensures cone[ci] < |net| && ConeSwept(net, stim, cone, cur[..], t, cone[ci] + 1)
    ensures evals == if IsGate(net[cone[ci]]) then 1 else 0
  {
    var n := cone[ci];
    ghost var was := cur[..];
    evals := 0;
    if net[n].In? {
      cur[n] := stim(t, net[n].idx);
    } else if !net[n].Reg? {
      var v := ConeGate(net, stim, cone, out, cur, t, n);
      cur[n] := v;
      evals := 1;
    }
    assert n in cone;
    assert cur[..] == was[n := cur[n]];
    SweptMore(net, stim, cone, was, t, n, cur[n]);
  }

  function ConeGates(net: Net, cone: seq<nat>, k: nat): (g: nat)
    requires k <= |cone| && forall i :: 0 <= i < |cone| ==> cone[i] < |net|
    decreases k
  {
    if k == 0 then 0 else ConeGates(net, cone, k - 1) + if IsGate(net[cone[k - 1]]) then 1 else 0
  }

  /** No cone node lies between two neighbours of the list. */
  lemma NextInCone(net: Net, stim: Stim, cone: seq<nat>, cur: seq<Byte>, t: nat, ci: nat)
    requires NetOk(net) && (forall i, j :: 0 <= i < j < |cone| ==> cone[i] < cone[j]) && ci <= |cone|
    requires ci > 0 ==> ConeSwept(net, stim, cone, cur, t, cone[ci - 1] + 1)
    requires ci == 0 ==> ConeSwept(net, stim, cone, cur, t, 0)
    ensures ConeSwept(net, stim, cone, cur, t, if ci < |cone| then cone[ci] else |net|)
  {
    forall m | m in cone && m < |net| && m < (if ci < |cone| then cone[ci] else |net|)
      ensures cur[m] == Val(net, stim, m, t)
    {
      var j :| 0 <= j < |cone| && cone[j] == m;
    }
  }

  method SweepCone(net: Net, stim: Stim, cone: seq<nat>, ghost out: nat, cur: array<Byte>, t: nat) returns (evals: nat)
    requires NetOk(net) && CountsOk(net) && IsCone(net, cone, out) && ConeSwept(net, stim, cone, cur[..], t, 0)
    modifies cur
    ensures ConeSwept(net, stim, cone, cur[..], t, |net|) && evals == ConeGates(net, cone, |cone|)
  {
    evals := 0;
    NextInCone(net, stim, cone, cur[..], t, 0);
    for ci := 0 to |cone|
      invariant ConeSwept(net, stim, cone, cur[..], t, if ci < |cone| then cone[ci] else |net|)
      invariant evals == ConeGates(net, cone, ci)
    {
      var e := ConeNode(net, stim, cone, out, cur, t, ci);
      evals := evals + e;
      NextInCone(net, stim, cone, cur[..], t, ci + 1);
    }
  }

  /** The first `k` cone registers have their value of cycle `t` in `buf`. */
  ghost predicate Latched(net: Net, stim: Stim, cone: seq<nat>, buf: seq<Byte>, t: nat, k: nat)
    requires NetOk(net)
  {
    && |buf| == |net| && k <= |cone|
    && forall j :: 0 <= j < k && cone[j] < |net| && net[cone[j]].Reg? ==> buf[cone[j]] == Val(net, stim, cone[j], t)
  }

  lemma LatchedMore(net: Net, stim: Stim, cone: seq<nat>, buf: seq<Byte>, buf': seq<Byte>, t: nat, k: nat, v: Byte)
    requires NetOk(net) && Latched(net, stim, cone, buf, t, k) && k < |cone| && cone[k] < |net|
    requires if net[cone[k]].Reg? then v == Val(net, stim, cone[k], t) && buf' == buf[cone[k] := v] else buf' == buf
    ensures Latched(net, stim, cone, buf', t, k + 1)
  {
  }

  method LatchCone(net: Net, stim: Stim, cone: seq<nat>, ghost out: nat, cur: array<Byte>, nxt: array<Byte>, t: nat)
    requires NetOk(net) && IsCone(net, cone, out) && cur != nxt && nxt.Length == |net|
    requires ConeSwept(net, stim, cone, cur[..], t, |net|)
    modifies nxt
    ensures Latched(net, stim, cone, nxt[..], t + 1, |cone|)
  {
    for ci := 0 to |cone|
      invariant Latched(net, stim, cone, nxt[..], t + 1, ci)
    {
      ghost var was := nxt[..];
      var n := cone[ci];
      assert n in cone;
      if net[n].Reg? {
        InCone(net, cone, out, n, net[n].d);
        assert cur[net[n].d] == cur[..][net[n].d];
        RegVal(net, stim, n, t + 1);
        nxt[n] := cur[net[n].d];
        assert nxt[..] == was[n := cur[net[n].d]];
      }
      LatchedMore(net, stim, cone, was, nxt[..], t + 1, ci, nxt[n]);
    }
  }

  method CommitCone(net: Net, stim: Stim, cone: seq<nat>, ghost out: nat, cur: array<Byte>, nxt: array<Byte>, t: nat)
    requires NetOk(net) && IsCone(net, cone, out) && cur != nxt && nxt.Length == cur.Length
    requires Latched(net, stim, cone, nxt[..], t, |cone|)
    modifies cur
    ensures ConeSwept(net, stim, cone, cur[..], t, 0)
  {
    for ci := 0 to |cone|
      invariant Latched(net, stim, cone, cur[..], t, ci)
    {
      ghost var was := cur[..];
      var n := cone[ci];
      if net[n].Reg? {
        assert nxt[n] == nxt[..][n];
        cur[n] := nxt[n];
        assert cur[..] == was[n := nxt[n]];
      }
      LatchedMore(net, stim, cone, was, cur[..], t, ci, cur[n]);
    }
  }

  method ConeCycle(net: Net, stim: Stim, cone: seq<nat>, out: nat, cur: array<Byte>, nxt: array<Byte>, t: nat)
    returns (o: Byte, evals: nat)
    requires NetOk(net) && CountsOk(net) && IsCone(net, cone, out) && cur != nxt && nxt.Length == |net| && out < |net|
    requires ConeSwept(net, stim, cone, cur[..], t, 0)
    modifies cur, nxt
    ensures ConeSwept(net, stim, cone, cur[..], t + 1, 0) && o == Val(net, stim, out, t)
    ensures evals == ConeGates(net, cone, |cone|)
  {
    evals := SweepCone(net, stim, cone, out, cur, t);
    assert out in Members(cone);
    o := cur[..][out];
    LatchCone(net, stim, cone, out, cur, nxt, t);
    CommitCone(net, stim, cone, out, cur, nxt, t + 1);
  }

  /** `run_cone`: the same outputs from the cone alone. */
  method RunCone(net: Net, stim: Stim, C: nat, out: nat, cone: seq<nat>, outbuf: array<Byte>) returns (evals: nat)
    requires NetOk(net) && CountsOk(net) && out < |net| && IsCone(net, cone, out) && C <= outbuf.Length
    modifies outbuf
    ensures Observed(net, stim, out, outbuf[..], C)
    ensures evals == C * ConeGates(net, cone, |cone|)
  {
    var cur, nxt := new Byte[|net|](_ => 0), new Byte[|net|](_ => 0);
    evals := 0;
    for t := 0 to C
      invariant ConeSwept(net, stim, cone, cur[..], t, 0) && evals == t * ConeGates(net, cone, |cone|)
      invariant Observed(net, stim, out, outbuf[..], t) && fresh(cur) && fresh(nxt)
    {
      var o, e := ConeCycle(net, stim, cone, out, cur, nxt, t);
      NextMultiple(t, ConeGates(net, cone, |cone|));
      ghost var was := outbuf[..];
      evals, outbuf[t] := evals + e, o;
      ObservedMore(net, stim, out, was, outbuf[..], t);
    }
  }
}
