/** Gates with cached aggregates, updated in constant time per input change, against gates that
    re-evaluate all their inputs. */
module GateBench {

  type Bit = x: int | 0 <= x <= 1

  datatype Kind = And | Or | Xor | Nand | Nor

  /** A gate: its inputs, its output, and the input slot it drives downstream. */
  datatype GState = GState(kind: Kind, ins: seq<Bit>, out: Bit, slot: nat)

  // ---------------------------------------------------------------- evaluation of all inputs

  function AndTo(ins: seq<Bit>, n: nat): (r: Bit)
    requires n <= |ins|
    decreases n
  {
    if n == 0 then 1 else if AndTo(ins, n - 1) == 1 && ins[n - 1] == 1 then 1 else 0
  }

  function OrTo(ins: seq<Bit>, n: nat): (r: Bit)
    requires n <= |ins|
    decreases n
  {
    if n == 0 then 0 else if OrTo(ins, n - 1) == 1 || ins[n - 1] == 1 then 1 else 0
  }

  function XorTo(ins: seq<Bit>, n: nat): (r: Bit)
    requires n <= |ins|
    decreases n
  {
    if n == 0 then 0 else if XorTo(ins, n - 1) != ins[n - 1] then 1 else 0
  }

  function Invert(x: Bit): Bit { 1 - x }

  function Eval(kind: Kind, ins: seq<Bit>): (r: Bit) {
    match kind
    case And => AndTo(ins, |ins|)
    case Nand => Invert(AndTo(ins, |ins|))
    case Or => OrTo(ins, |ins|)
    case Nor => Invert(OrTo(ins, |ins|))
    case Xor => XorTo(ins, |ins|)
  }

  /** The places that hold 1. */
  function Set(ins: seq<Bit>, n: nat): (s: set<nat>)
    requires n <= |ins|
  {
    set i: nat | i < n && ins[i] == 1
  }

  lemma {:induction false} FoldsMean(ins: seq<Bit>, n: nat)
    requires n <= |ins|
    ensures AndTo(ins, n) == 1 <==> forall i :: 0 <= i < n ==> ins[i] == 1
    ensures OrTo(ins, n) == 1 <==> exists i :: 0 <= i < n && ins[i] == 1
    ensures XorTo(ins, n) == |Set(ins, n)| % 2
    decreases n
  {
    if n == 0 {
      assert Set(ins, n) == {};
    } else {
      FoldsMean(ins, n - 1);
      SetNext(ins, n - 1);
    }
  }

  lemma SetNext(ins: seq<Bit>, n: nat)
    requires n < |ins|
    ensures |Set(ins, n + 1)| == |Set(ins, n)| + ins[n]
  {
    var s := Set(ins, n);
    assert n !in s;
    if ins[n] == 1 { assert Set(ins, n + 1) == s + {n}; } else { assert Set(ins, n + 1) == s; }
  }

  /** What each kind makes of its inputs, spelt out. */
  lemma EvalMeans(kind: Kind, ins: seq<Bit>)
    ensures kind.And? ==> (Eval(kind, ins) == 1 <==> forall i :: 0 <= i < |ins| ==> ins[i] == 1)
    ensures kind.Nand? ==> (Eval(kind, ins) == 0 <==> forall i :: 0 <= i < |ins| ==> ins[i] == 1)
    ensures kind.Or? ==> (Eval(kind, ins) == 1 <==> exists i :: 0 <= i < |ins| && ins[i] == 1)
    ensures kind.Nor? ==> (Eval(kind, ins) == 0 <==> exists i :: 0 <= i < |ins| && ins[i] == 1)
    ensures kind.Xor? ==> Eval(kind, ins) == |set i: nat | i < |ins| && ins[i] == 1| % 2
  {
    FoldsMean(ins, |ins|);
    assert Set(ins, |ins|) == set i: nat | i < |ins| && ins[i] == 1;
  }

  // ---------------------------------------------------------------- the cached aggregates

  function Ones(ins: seq<Bit>, n: nat): (c: nat)
    requires n <= |ins|
    decreases n
  {
    if n == 0 then 0 else Ones(ins, n - 1) + ins[n - 1]
  }

  /** `gate_compute_output`. */
  function FromCache(kind: Kind, count: int, parity: Bit, n: nat): (r: Bit) {
    match kind
    case And => if count == n then 1 else 0
    case Nand => if count != n then 1 else 0
    case Or => if count > 0 then 1 else 0
    case Nor => if count == 0 then 1 else 0
    case Xor => parity
  }

  lemma {:induction false} Aggregates(ins: seq<Bit>, n: nat)
    requires n <= |ins|
    ensures Ones(ins, n) <= n
    ensures AndTo(ins, n) == 1 <==> Ones(ins, n) == n
    ensures OrTo(ins, n) == 1 <==> Ones(ins, n) > 0
    ensures XorTo(ins, n) == Ones(ins, n) % 2
    decreases n
  {
    if n == 0 {
    } else {
      Aggregates(ins, n - 1);
    }
  }

  /** From the count and parity alone the cached gate knows what re-evaluation would find. */
  lemma CacheRight(kind: Kind, ins: seq<Bit>, count: int, parity: Bit)
    requires count == Ones(ins, |ins|) && parity == count % 2
    ensures FromCache(kind, count, parity, |ins|) == Eval(kind, ins)
  {
    Aggregates(ins, |ins|);
  }

  lemma {:induction false} OnesUpdate(ins: seq<Bit>, slot: nat, v: Bit, n: nat)
    requires slot < |ins| && n <= |ins|
    ensures Ones(ins[slot := v], n) == Ones(ins, n) + if slot < n then v - ins[slot] else 0
    decreases n
  {
    if n == 0 {
    } else {
      OnesUpdate(ins, slot, v, n - 1);
    }
  }

  // ---------------------------------------------------------------- a chain of gates

  /** A gate and the gates downstream of it. */
  datatype Chain = End | Link(g: GState, next: Chain)

  function Length(c: Chain): nat { if c.End? then 0 else 1 + Length(c.next) }

  function At(c: Chain, i: nat): GState
    requires i < Length(c)
  {
    if i == 0 then c.g else At(c.next, i - 1)
  }

  /** The head's slot exists in the gate it drives. */
  predicate Drives(g: GState, next: Chain) { next.Link? ==> g.slot < |next.g.ins| }

  predicate Wired(c: Chain) { c.Link? ==> Drives(c.g, c.next) && Wired(c.next) }

  /** An input change of the first gate, re-evaluated and passed on while outputs change. */
  function Update(c: Chain, slot: nat, v: Bit): (r: Chain)
    requires Wired(c) && c.Link? && slot < |c.g.ins|
    decreases c
  {
    var ins := c.g.ins[slot := v];
    var out := Eval(c.g.kind, ins);
    var g := c.g.(ins := ins, out := out);
    Link(g, if out != c.g.out && c.next.Link? then Update(c.next, c.g.slot, out) else c.next)
  }

  /** The same gates with the same numbers of inputs. */
  predicate SameShape(c: Chain, r: Chain) {
    if c.End? then r.End?
    else r.Link? && r.g.kind == c.g.kind && r.g.slot == c.g.slot && |r.g.ins| == |c.g.ins| && SameShape(c.next, r.next)
  }

  lemma {:induction false} ShapeSelf(c: Chain)
    ensures SameShape(c, c)
  {
    if c.Link? { ShapeSelf(c.next); }
  }

  lemma {:induction false} ShapeWired(c: Chain, r: Chain)
    requires Wired(c) && SameShape(c, r)
    ensures Wired(r)
  {
    if c.Link? { ShapeWired(c.next, r.next); }
  }

  lemma {:induction false} UpdateShape(c: Chain, slot: nat, v: Bit)
    requires Wired(c) && c.Link? && slot < |c.g.ins|
    ensures SameShape(c, Update(c, slot, v))
    decreases c
  {
    var out := Eval(c.g.kind, c.g.ins[slot := v]);
    ShapeSelf(c.next);
    if out != c.g.out && c.next.Link? { UpdateShape(c.next, c.g.slot, out); }
  }

  /** Every output is what its inputs evaluate to, and every driven slot holds its driver's output. */
  predicate Settled(c: Chain) {
    c.Link? ==> HeadSettled(c.g, c.next) && Settled(c.next)
  }

  predicate HeadSettled(g: GState, next: Chain) {
    g.out == Eval(g.kind, g.ins) && (next.Link? ==> g.slot < |next.g.ins| && next.g.ins[g.slot] == g.out)
  }

  /** What settled means gate by gate. */
  lemma {:induction false} SettledAt(c: Chain, i: nat)
    requires Settled(c) && i < Length(c)
    ensures At(c, i).out == Eval(At(c, i).kind, At(c, i).ins)
    ensures i + 1 < Length(c) ==> At(c, i).slot < |At(c, i + 1).ins| && At(c, i + 1).ins[At(c, i).slot] == At(c, i).out
    decreases c
  {
    if i == 0 {
    } else {
      SettledAt(c.next, i - 1);
    }
  }

  /** A change settles the chain again. */
  lemma {:induction false} UpdateSettles(c: Chain, slot: nat, v: Bit)
    requires Wired(c) && c.Link? && slot < |c.g.ins| && Settled(c)
    ensures Settled(Update(c, slot, v))
    decreases c
  {
    var out := Eval(c.g.kind, c.g.ins[slot := v]);
    if out != c.g.out && c.next.Link? { UpdateSettles(c.next, c.g.slot, out); }
  }

  /** An input change anywhere in the chain. */
  datatype Change = Change(gate: nat, slot: nat, v: Bit)

  /** The input exists. */
  predicate There(c: Chain, gate: nat, slot: nat) {
    c.Link? && if gate == 0 then slot < |c.g.ins| else There(c.next, gate - 1, slot)
  }

  /** A free input: no gate of the chain drives it. */
  predicate Free(c: Chain, gate: nat, slot: nat) {
    There(c, gate, slot) && (gate > 0 ==> Free(c.next, gate - 1, slot) && (gate == 1 ==> slot != c.g.slot))
  }

  function UpdateAt(c: Chain, gate: nat, slot: nat, v: Bit): (r: Chain)
    requires Wired(c) && There(c, gate, slot)
    decreases c
  {
    if gate == 0 then Update(c, slot, v) else Link(c.g, UpdateAt(c.next, gate - 1, slot, v))
  }

  lemma {:induction false} UpdateAtShape(c: Chain, gate: nat, slot: nat, v: Bit)
    requires Wired(c) && There(c, gate, slot)
    ensures SameShape(c, UpdateAt(c, gate, slot, v))
    decreases c
  {
    if gate == 0 { UpdateShape(c, slot, v); } else { UpdateAtShape(c.next, gate - 1, slot, v); }
  }

  lemma {:induction false} UpdateAtSettles(c: Chain, gate: nat, slot: nat, v: Bit)
    requires Wired(c) && Free(c, gate, slot) && Settled(c)
    ensures Settled(UpdateAt(c, gate, slot, v))
    ensures UpdateAt(c, gate, slot, v).g.ins == if gate == 0 then c.g.ins[slot := v] else c.g.ins
    decreases c
  {
    if gate == 0 { UpdateSettles(c, slot, v); } else { UpdateAtSettles(c.next, gate - 1, slot, v); }
  }

  lemma {:induction false} ShapeThere(c: Chain, r: Chain, gate: nat, slot: nat)
    requires There(c, gate, slot) && SameShape(c, r)
    ensures There(r, gate, slot) && (Free(c, gate, slot) ==> Free(r, gate, slot))
    decreases c
  {
    if gate == 0 {
    } else {
      ShapeThere(c.next, r.next, gate - 1, slot);
    }
  }

  ghost predicate AllThere(c: Chain, cs: seq<Change>) {
    forall k :: 0 <= k < |cs| ==> There(c, cs[k].gate, cs[k].slot)
  }

  ghost predicate AllFree(c: Chain, cs: seq<Change>) {
    forall k :: 0 <= k < |cs| ==> Free(c, cs[k].gate, cs[k].slot)
  }

  /** One change of a chain. */
  lemma Turn(c: Chain, cs: seq<Change>, j: nat)
    requires Wired(c) && AllThere(c, cs) && j < |cs|
    ensures var r := UpdateAt(c, cs[j].gate, cs[j].slot, cs[j].v);
      Wired(r) && AllThere(r, cs) && (AllFree(c, cs) ==> AllFree(r, cs))
  {
    var r := UpdateAt(c, cs[j].gate, cs[j].slot, cs[j].v);
    UpdateAtShape(c, cs[j].gate, cs[j].slot, cs[j].v);
    ShapeWired(c, r);
    forall k | 0 <= k < |cs|
      ensures There(r, cs[k].gate, cs[k].slot)
      ensures Free(c, cs[k].gate, cs[k].slot) ==> Free(r, cs[k].gate, cs[k].slot)
    {
      ShapeThere(c, r, cs[k].gate, cs[k].slot);
    }
  }

  /** The gates of `c`, then those of `r`. */
  function Append(c: Chain, r: Chain): (a: Chain)
    ensures Length(a) == Length(c) + Length(r)
  {
    if c.End? then r else Link(c.g, Append(c.next, r))
  }

  /** A change behind `c` is a change of the rest. */
  lemma {:induction false} AppendUpdate(c: Chain, r: Chain, slot: nat, v: Bit)
    requires Wired(Append(c, r)) && r.Link? && slot < |r.g.ins|
    ensures Wired(r) && There(Append(c, r), Length(c), slot)
    ensures UpdateAt(Append(c, r), Length(c), slot, v) == Append(c, Update(r, slot, v))
    decreases c
  {
    if c.Link? { AppendUpdate(c.next, r, slot, v); }
  }

  /** The changes from the `j`-th on, in turn. */
  ghost function Run(c: Chain, cs: seq<Change>, j: nat): (r: Chain)
    requires Wired(c) && AllThere(c, cs) && j <= |cs|
    decreases |cs| - j
  {
    if j == |cs| then c
    else
      Turn(c, cs, j);
      Run(UpdateAt(c, cs[j].gate, cs[j].slot, cs[j].v), cs, j + 1)
  }

  /** After any sequence of changes of free inputs the chain is settled. */
  lemma {:induction false} RunSettled(c: Chain, cs: seq<Change>, j: nat)
    requires Wired(c) && Settled(c) && AllThere(c, cs) && AllFree(c, cs) && j <= |cs|
    ensures Settled(Run(c, cs, j))
    decreases |cs| - j
  {
    if j == |cs| {
    } else {
      Turn(c, cs, j);
      UpdateAtSettles(c, cs[j].gate, cs[j].slot, cs[j].v);
      RunSettled(UpdateAt(c, cs[j].gate, cs[j].slot, cs[j].v), cs, j + 1);
    }
  }

  /** After any sequence of changes of free inputs every output is the evaluation of its inputs, and every
      driven input is its driver's output. */
  lemma RunSettles(c: Chain, cs: seq<Change>, i: nat)
    requires Wired(c) && Settled(c) && AllThere(c, cs) && AllFree(c, cs) && i < Length(Run(c, cs, 0))
    ensures var r := Run(c, cs, 0);
      && At(r, i).out == Eval(At(r, i).kind, At(r, i).ins)
      && (i + 1 < Length(r) ==> At(r, i).slot < |At(r, i + 1).ins| && At(r, i + 1).ins[At(r, i).slot] == At(r, i).out)
  {
    RunSettled(c, cs, 0);
    SettledAt(Run(c, cs, 0), i);
  }

  /** A change touches its own input and driven ones only. */
  lemma {:induction false} UpdateKeeps(c: Chain, slot: nat, v: Bit, i: nat, j: nat)
    requires Wired(c) && c.Link? && slot < |c.g.ins| && i < Length(c) && j < |At(c, i).ins|
    requires if i == 0 then j != slot else j != At(c, i - 1).slot
    ensures i < Length(Update(c, slot, v)) && j < |At(Update(c, slot, v), i).ins|
    ensures At(Update(c, slot, v), i).ins[j] == At(c, i).ins[j]
    decreases c
  {
    var out := Eval(c.g.kind, c.g.ins[slot := v]);
    if i > 0 && out != c.g.out && c.next.Link? { UpdateKeeps(c.next, c.g.slot, out, i - 1, j); }
  }

  // ---------------------------------------------------------------- the cached gate

  class CachedGate {
    const kind: Kind
    const ins: array<Bit>
    var countOnes: int
    var parity: Bit
    var output: Bit
    const downstream: CachedGate?
    const slot: nat

    constructor (kind: Kind, n: nat, downstream: CachedGate?, slot: nat)
      ensures this.kind == kind && this.downstream == downstream && this.slot == slot && fresh(ins) && ins.Length == n
      ensures ins[..] == seq(n, _ => 0) && countOnes == 0 && parity == 0 && output == 0
    {
      this.kind, this.downstream, this.slot := kind, downstream, slot;
      ins := new Bit[n](_ => 0);
      countOnes, parity, output := 0, 0, 0;
    }

    ghost function State(): GState
      reads this, ins
    {
      GState(kind, ins[..], output, slot)
    }

    /** Count, parity and output agree with the stored inputs. */
    ghost predicate CacheOk()
      reads this, ins
    {
      && countOnes == Ones(ins[..], ins.Length) && parity == countOnes % 2
      && output == Eval(kind, ins[..])
    }

    /** Stores one input and brings count, parity and output up to date. */
    method Absorb(k: nat, v: Bit) returns (changed: bool)
      requires CacheOk() && k < ins.Length
      modifies this`countOnes, this`parity, this`output, ins
      ensures CacheOk() && ins[..] == old(ins[..])[k := v] && changed == (output != old(output))
    {
      changed := false;
      var was := ins[k];
      if was == v {
        assert ins[..] == old(ins[..])[k := v];
        return;
      }
      OnesUpdate(ins[..], k, v, ins.Length);
      ins[k] := v;
      assert ins[..] == old(ins[..])[k := v];
      var delta := v - was;
      countOnes := countOnes + delta;
      parity := 1 - parity;
      CacheRight(kind, ins[..], countOnes, parity);
      var new_output := FromCache(kind, countOnes, parity, ins.Length);
      if new_output != output {
        output := new_output;
        changed := true;
      }
    }

    /** `gate_input_updated` on the first gate of `chain`. */
    method InputUpdated(k: nat, v: Bit, ghost chain: seq<CachedGate>)
      requires IsChain(chain) && chain[0] == this && k < ins.Length && AllCached(chain)
      modifies Repr(chain)
      ensures AllCached(chain) && States(chain) == Update(old(States(chain)), k, v)
      decreases |chain|
    {
      ghost var rest := chain[1..];
      assert this !in Repr(rest) && ins !in Repr(rest);
      var changed := Absorb(k, v);
      InRepr(rest);
      StatesFrame(rest);
      if changed && downstream != null { downstream.InputUpdated(slot, output, rest); }
    }
  }

  /** The storage of a chain. */
  ghost function Repr(chain: seq<CachedGate>): set<object> {
    if chain == [] then {} else {chain[0], chain[0].ins} + Repr(chain[1..])
  }

  /** Gates linked downstream without shared storage, the last one driving nothing. */
  ghost predicate IsChain(chain: seq<CachedGate>) {
    && chain != [] && {chain[0], chain[0].ins} !! Repr(chain[1..])
    && if |chain| == 1 then chain[0].downstream == null
       else chain[0].downstream == chain[1] && chain[0].slot < chain[1].ins.Length && IsChain(chain[1..])
  }

  ghost function States(chain: seq<CachedGate>): (s: Chain)
    reads Repr(chain)
    ensures chain != [] ==> s.Link? && s.g == chain[0].State()
    ensures IsChain(chain) ==> Wired(s)
  {
    if chain == [] then End else Link(chain[0].State(), States(chain[1..]))
  }

  ghost predicate AllCached(chain: seq<CachedGate>)
    reads Repr(chain)
  {
    chain == [] || (chain[0].CacheOk() && AllCached(chain[1..]))
  }

  lemma {:induction false} InRepr(chain: seq<CachedGate>)
    ensures forall g :: g in chain ==> g in Repr(chain) && g.ins in Repr(chain)
    decreases |chain|
  {
    if chain == [] {
    } else {
      InRepr(chain[1..]);
      assert chain == [chain[0]] + chain[1..];
    }
  }

  twostate lemma {:induction false} StatesFrame(chain: seq<CachedGate>)
    requires forall g :: g in chain ==> unchanged(g) && unchanged(g.ins)
    ensures States(chain) == old(States(chain)) && AllCached(chain) == old(AllCached(chain))
    decreases |chain|
  {
    if chain != [] {
      assert forall g :: g in chain[1..] ==> g in chain;
      StatesFrame(chain[1..]);
    }
  }

  // ---------------------------------------------------------------- whole runs

  /** The states of a chain in two pieces. */
  lemma {:induction false} StatesAppend(head: seq<CachedGate>, tail: seq<CachedGate>)
    ensures States(head + tail) == Append(States(head), States(tail)) && Length(States(head)) == |head|
    ensures AllCached(head + tail) <==> AllCached(head) && AllCached(tail)
    decreases |head|
  {
    if head == [] {
      assert head + tail == tail;
    } else {
      assert (head + tail)[1..] == head[1..] + tail;
      StatesAppend(head[1..], tail);
    }
  }

  /** The pieces of a chain share no storage. */
  lemma {:induction false} ChainSplit(head: seq<CachedGate>, tail: seq<CachedGate>)
    requires IsChain(head + tail) && tail != []
    ensures IsChain(tail) && Repr(head) !! Repr(tail) && Repr(head + tail) == Repr(head) + Repr(tail)
    decreases |head|
  {
    if head == [] {
      assert head + tail == tail;
    } else {
      assert (head + tail)[1..] == head[1..] + tail;
      ChainSplit(head[1..], tail);
    }
  }

  /** The inputs of the chain's states are those of its gates. */
  lemma {:induction false} ChainThere(chain: seq<CachedGate>, gate: nat, slot: nat)
    requires There(States(chain), gate, slot)
    ensures gate < |chain| && slot < chain[gate].ins.Length
    decreases gate
  {
    if gate == 0 {
    } else {
      ChainThere(chain[1..], gate - 1, slot);
    }
  }

  /** One change somewhere in a chain. */
  method ChangeCached(chain: seq<CachedGate>, c: Change)
    requires IsChain(chain) && AllCached(chain) && There(States(chain), c.gate, c.slot)
    modifies Repr(chain)
    ensures AllCached(chain) && States(chain) == UpdateAt(old(States(chain)), c.gate, c.slot, c.v)
  {
    ChainThere(chain, c.gate, c.slot);
    ghost var head, tail := chain[..c.gate], chain[c.gate..];
    assert head + tail == chain;
    ChainSplit(head, tail);
    StatesAppend(head, tail);
    AppendUpdate(States(head), States(tail), c.slot, c.v);
    InRepr(head);
    label Before:
    chain[c.gate].InputUpdated(c.slot, c.v, tail);
    StatesFrame@Before(head);
    StatesAppend(head, tail);
  }

  /** Any sequence of input changes anywhere in a chain leaves every count, parity and output what
      re-evaluating the stored inputs gives, and the state that of the re-evaluating updates. */
  method RunCached(chain: seq<CachedGate>, cs: seq<Change>)
    requires IsChain(chain) && AllCached(chain) && AllThere(States(chain), cs)
    modifies Repr(chain)
    ensures AllCached(chain) && States(chain) == Run(old(States(chain)), cs, 0)
  {
    for j := 0 to |cs|
      invariant AllCached(chain) && AllThere(States(chain), cs)
      invariant Run(States(chain), cs, j) == Run(old(States(chain)), cs, 0)
    {
      Turn(States(chain), cs, j);
      ChangeCached(chain, cs[j]);
    }
  }

  // ---------------------------------------------------------------- the re-evaluating gate

  class TradGate {
    const kind: Kind
    const ins: array<Bit>
    var output: Bit
    const downstream: TradGate?
    const slot: nat

    constructor (kind: Kind, n: nat, downstream: TradGate?, slot: nat)
      ensures this.kind == kind && this.downstream == downstream && this.slot == slot && fresh(ins) && ins.Length == n
      ensures ins[..] == seq(n, _ => 0) && output == 0
    {
      this.kind, this.downstream, this.slot := kind, downstream, slot;
      ins := new Bit[n](_ => 0);
      output := 0;
    }

    ghost function State(): GState
      reads this, ins
    {
      GState(kind, ins[..], output, slot)
    }

    /** `trad_evaluate`: a loop over all inputs. */
    method Evaluate() returns (r: Bit)
      ensures r == Eval(kind, ins[..])
    {
      r := if kind.And? || kind.Nand? then 1 else 0;
      for i := 0 to ins.Length
        invariant kind.And? || kind.Nand? ==> r == AndTo(ins[..], i)
        invariant kind.Or? || kind.Nor? ==> r == OrTo(ins[..], i)
        invariant kind.Xor? ==> r == XorTo(ins[..], i)
      {
        r := match kind
          case And => if r == 1 && ins[i] == 1 then 1 else 0
          case Nand => if r == 1 && ins[i] == 1 then 1 else 0
          case Or => if r == 1 || ins[i] == 1 then 1 else 0
          case Nor => if r == 1 || ins[i] == 1 then 1 else 0
          case Xor => if r != ins[i] then 1 else 0;
      }
      if kind.Nand? || kind.Nor? { r := Invert(r); }
    }

    /** `trad_input_updated` on the first gate of `chain`. */
    method InputUpdated(k: nat, v: Bit, ghost chain: seq<TradGate>)
      requires IsTradChain(chain) && chain[0] == this && k < ins.Length
      modifies TradRepr(chain)
      ensures TradStates(chain) == Update(old(TradStates(chain)), k, v)
      decreases |chain|
    {
      ghost var rest := chain[1..];
      assert this !in TradRepr(rest) && ins !in TradRepr(rest);
      var changed := Absorb(k, v);
      TradInRepr(rest);
      TradStatesFrame(rest);
      if changed && downstream != null { downstream.InputUpdated(slot, output, rest); }
    }

    /** Stores one input and re-evaluates. */
    method Absorb(k: nat, v: Bit) returns (changed: bool)
      requires k < ins.Length
      modifies this`output, ins
      ensures ins[..] == old(ins[..])[k := v] && output == Eval(kind, ins[..]) && changed == (output != old(output))
    {
      ins[k] := v;
      assert ins[..] == old(ins[..])[k := v];
      var new_output := Evaluate();
      changed := new_output != output;
      if changed { output := new_output; }
    }
  }

  ghost function TradRepr(chain: seq<TradGate>): set<object> {
    if chain == [] then {} else {chain[0], chain[0].ins} + TradRepr(chain[1..])
  }

  ghost predicate IsTradChain(chain: seq<TradGate>) {
    && chain != [] && {chain[0], chain[0].ins} !! TradRepr(chain[1..])
    && if |chain| == 1 then chain[0].downstream == null
       else chain[0].downstream == chain[1] && chain[0].slot < chain[1].ins.Length && IsTradChain(chain[1..])
  }

  ghost function TradStates(chain: seq<TradGate>): (s: Chain)
    reads TradRepr(chain)
    ensures chain != [] ==> s.Link? && s.g == chain[0].State()
    ensures IsTradChain(chain) ==> Wired(s)
  {
    if chain == [] then End else Link(chain[0].State(), TradStates(chain[1..]))
  }

  lemma {:induction false} TradInRepr(chain: seq<TradGate>)
    ensures forall g :: g in chain ==> g in TradRepr(chain) && g.ins in TradRepr(chain)
    decreases |chain|
  {
    if chain == [] {
    } else {
      TradInRepr(chain[1..]);
      assert chain == [chain[0]] + chain[1..];
    }
  }

  twostate lemma {:induction false} TradStatesFrame(chain: seq<TradGate>)
    requires forall g :: g in chain ==> unchanged(g) && unchanged(g.ins)
    ensures TradStates(chain) == old(TradStates(chain))
    decreases |chain|
  {
    if chain != [] {
      assert forall g :: g in chain[1..] ==> g in chain;
      TradStatesFrame(chain[1..]);
    }
  }

  /** The states of a chain in two pieces. */
  lemma {:induction false} TradStatesAppend(head: seq<TradGate>, tail: seq<TradGate>)
    ensures TradStates(head + tail) == Append(TradStates(head), TradStates(tail)) && Length(TradStates(head)) == |head|
    decreases |head|
  {
    if head == [] {
      assert head + tail == tail;
    } else {
      assert (head + tail)[1..] == head[1..] + tail;
      TradStatesAppend(head[1..], tail);
    }
  }

  /** The pieces of a chain share no storage. */
  lemma {:induction false} TradChainSplit(head: seq<TradGate>, tail: seq<TradGate>)
    requires IsTradChain(head + tail) && tail != []
    ensures IsTradChain(tail) && TradRepr(head) !! TradRepr(tail) && TradRepr(head + tail) == TradRepr(head) + TradRepr(tail)
    decreases |head|
  {
    if head == [] {
      assert head + tail == tail;
    } else {
      assert (head + tail)[1..] == head[1..] + tail;
      TradChainSplit(head[1..], tail);
    }
  }

  /** The inputs of the chain's states are those of its gates. */
  lemma {:induction false} TradChainThere(chain: seq<TradGate>, gate: nat, slot: nat)
    requires There(TradStates(chain), gate, slot)
    ensures gate < |chain| && slot < chain[gate].ins.Length
    decreases gate
  {
    if gate == 0 {
    } else {
      TradChainThere(chain[1..], gate - 1, slot);
    }
  }

  method ChangeTrad(chain: seq<TradGate>, c: Change)
    requires IsTradChain(chain) && There(TradStates(chain), c.gate, c.slot)
    modifies TradRepr(chain)
    ensures TradStates(chain) == UpdateAt(old(TradStates(chain)), c.gate, c.slot, c.v)
  {
    TradChainThere(chain, c.gate, c.slot);
    ghost var head, tail := chain[..c.gate], chain[c.gate..];
    assert head + tail == chain;
    TradChainSplit(head, tail);
    TradStatesAppend(head, tail);
    AppendUpdate(TradStates(head), TradStates(tail), c.slot, c.v);
    TradInRepr(head);
    label Before:
    chain[c.gate].InputUpdated(c.slot, c.v, tail);
    TradStatesFrame@Before(head);
    TradStatesAppend(head, tail);
  }

  /** Any sequence of input changes anywhere in a re-evaluating chain. */
  method RunTrad(chain: seq<TradGate>, cs: seq<Change>)
    requires IsTradChain(chain) && AllThere(TradStates(chain), cs)
    modifies TradRepr(chain)
    ensures TradStates(chain) == Run(old(TradStates(chain)), cs, 0)
  {
    for j := 0 to |cs|
      invariant AllThere(TradStates(chain), cs)
      invariant Run(TradStates(chain), cs, j) == Run(old(TradStates(chain)), cs, 0)
    {
      Turn(TradStates(chain), cs, j);
      ChangeTrad(chain, cs[j]);
    }
  }

  // ---------------------------------------------------------------- the two side by side

  /** The same input changes on two chains in the same state leave them in the same state, with every
      cache right. */
  method BothRun(cached: seq<CachedGate>, trad: seq<TradGate>, cs: seq<Change>)
    requires IsChain(cached) && IsTradChain(trad) && Repr(cached) !! TradRepr(trad)
    requires AllCached(cached) && States(cached) == TradStates(trad) && AllThere(States(cached), cs)
    modifies Repr(cached), TradRepr(trad)
    ensures AllCached(cached) && States(cached) == TradStates(trad)
    ensures States(cached) == Run(old(States(cached)), cs, 0)
  {
    InRepr(cached);
    TradInRepr(trad);
    RunCached(cached, cs);
    TradStatesFrame(trad);
    label Mid:
    RunTrad(trad, cs);
    StatesFrame@Mid(cached);
  }
}
