/** The emitted gated code. */
module GatedModel {
  // The emitted gated functions: loops over words, blocks, wires and bits that update the
  // statics in place, proved against the functions of `Gated`.

  import opened Netlist
  import opened Clocking
  import opened CombSplit
  import opened Gated
  import opened Storage
  import opened StorageRun
  import OutCone

  lemma MarkUnion(s: Split, dirty: seq<set<nat>>, a: set<nat>, b: set<nat>, except: nat)
    requires s.Shaped()
    ensures Mark(s, Mark(s, dirty, a, except), b, except) == Mark(s, dirty, a + b, except)
  {
    var x, y := Mark(s, Mark(s, dirty, a, except), b, except), Mark(s, dirty, a + b, except);
    forall i | 0 <= i < |dirty| ensures x[i] == y[i] {
      forall k: nat ensures Marks(s, a + b, except, k) == (Marks(s, a, except, k) || Marks(s, b, except, k)) {}
      assert ReaderMask(s, a + b, except, i) == ReaderMask(s, a, except, i) + ReaderMask(s, b, except, i);
    }
  }

  lemma MarkNone(s: Split, dirty: seq<set<nat>>, except: nat)
    requires s.Shaped()
    ensures Mark(s, dirty, {}, except) == dirty
  {
    forall i | 0 <= i < |dirty| ensures Mark(s, dirty, {}, except)[i] == dirty[i] {
      assert ReaderMask(s, {}, except, i) == {};
    }
  }

  /** Blocks that are clean throughout a word are left alone by the pass. */
  lemma {:induction false} SkipWord(s: Split, n: nat, end: nat, x: Pass, mem: Mem)
    requires s.Shaped() && n <= end <= s.parts
    requires forall p: nat :: n <= p < end ==> !IsDirty(RunPass(s, n, x, mem).dirty, p)
    ensures RunPass(s, end, x, mem) == RunPass(s, n, x, mem)
    decreases end - n
  {
    if n < end {
      assert RunPass(s, n + 1, x, mem) == RunPass(s, n, x, mem);
      SkipWord(s, n + 1, end, x, mem);
    }
  }

  /** What consistency says of sizes. */
  lemma Sizes(s: Split, m: Machine, g: Statics)
    requires s.Shaped() && Consistent(s, m, g)
    ensures s.Valid() && |m.st| == |g.nets| == |g.sh| == |g.pv| == |s.d.wireOf| && s.parts <= WORD * |g.dirty|
  {
    var full: Env :| Inv(s, m.st, m.mem, g, full);
  }

  lemma BitOf(i: nat, k: nat)
    requires k < WORD
    ensures BlockNo(i, k) / WORD == i && BlockNo(i, k) % WORD == k
  {
  }

  /** The first block of word `i`. */
  function WordStart(s: Split, i: nat): (p: nat)
    ensures p <= s.parts
  {
    if WORD * i < s.parts then WORD * i else s.parts
  }

  /** A wire whose bits are as before differs as before. */
  lemma SameDiffers(d: Design, e: Env, e0: Env, now: Env, w: nat)
    requires |e| == |e0| == |d.wireOf| && forall b :: 0 <= b < |e| && d.wireOf[b] == w ==> e[b] == e0[b]
    ensures WireDiffers(d, e, now, w) == WireDiffers(d, e0, now, w)
    ensures WireDiffers(d, now, e, w) == WireDiffers(d, now, e0, w)
  {
  }

  /** The wires below `w` hold what `done` holds, the others what `e0` does. */
  ghost predicate DoneBelow(d: Design, w: nat, e: Env, done: Env, e0: Env) {
    |e| == |done| == |e0| == |d.wireOf| && forall b :: 0 <= b < |e| ==> e[b] == if d.wireOf[b] < w then done[b] else e0[b]
  }

  lemma CopyOne(d: Design, w: nat, e: Env, done: Env, e0: Env, now: Env)
    requires DoneBelow(d, w, e, done, e0)
    ensures (forall b :: 0 <= b < |e| && d.wireOf[b] == w ==> done[b] == Value(Net(b), now)) ==>
      DoneBelow(d, w + 1, CopyWire(d, w, e, now), done, e0)
    ensures (forall b :: 0 <= b < |e| && d.wireOf[b] == w ==> done[b] == e0[b]) ==> DoneBelow(d, w + 1, e, done, e0)
  {
  }

  lemma AllDone(d: Design, e: Env, done: Env, e0: Env)
    requires DoneBelow(d, |d.kind|, e, done, e0) && forall b :: 0 <= b < |d.wireOf| ==> d.wireOf[b] < |d.kind|
    ensures e == done
  {
  }

  /** The members of `all` below `w`. */
  ghost predicate Below(changed: set<nat>, all: set<nat>, w: nat) {
    forall v: nat :: v in changed <==> v < w && v in all
  }

  /** The blocks of word `i` are its bits in turn. */
  lemma InBlock(s: Split, i: nat, k: nat)
    requires WordStart(s, i) + k < WordStart(s, i + 1)
    ensures k < WORD && WordStart(s, i) + k == BlockNo(i, k) < s.parts
  {
  }

  lemma ZeroBlock(s: Split, i: nat, p: nat, dirty: seq<set<nat>>)
    requires i < |dirty| && dirty[i] == {} && WordStart(s, i) <= p < WordStart(s, i + 1)
    ensures !IsDirty(dirty, p)
  {
    InBlock(s, i, p - WordStart(s, i));
    BitOf(i, p - WordStart(s, i));
  }

  /** A word that is zero at its turn holds clean blocks only. */
  lemma ZeroWord(s: Split, i: nat, x: Pass, mem: Mem, dirty: seq<set<nat>>)
    requires s.Shaped() && i < |dirty| && dirty[i] == {} && dirty == RunPass(s, WordStart(s, i), x, mem).dirty
    ensures RunPass(s, WordStart(s, i + 1), x, mem) == RunPass(s, WordStart(s, i), x, mem)
  {
    forall p: nat | WordStart(s, i) <= p < WordStart(s, i + 1) ensures !IsDirty(dirty, p) { ZeroBlock(s, i, p, dirty); }
    SkipWord(s, WordStart(s, i), WordStart(s, i + 1), x, mem);
  }

  class Model {
    const s: Split
    var m: Machine
    var nets: Env
    var sh: Env
    var pv: Env
    var dirty: seq<set<nat>>
    var init: bool

    function Now(): Statics
      reads this
    {
      Statics(nets, sh, pv, dirty, init)
    }

    ghost predicate Valid()
      reads this
    {
      s.Valid() && Consistent(s, m, Now())
    }

    constructor (plan: Split, start: Machine)
      requires plan.Valid() && LocalReadsDriven(plan)
      requires |start.st| == |plan.d.wireOf| && |plan.d.outputs| <= OutCone.MASK_BITS
      requires ReadRegistersZero(plan, start.st)
      ensures Valid() && s == plan && m == start && Now() == ColdStart(plan)
    {
      s := plan;
      m := start;
      var g := ColdStart(plan);
      nets, sh, pv, dirty, init := g.nets, g.sh, g.pv, g.dirty, g.init;
      ColdStartConsistent(plan, start);
    }

    /** ORs the emitted reader constants of wire `w` into the dirty words. */
    method MarkReaders(w: nat, except: nat)
      requires s.Shaped()
      modifies this`dirty
      ensures dirty == Mark(s, old(dirty), {w}, except)
    {
      var i := 0;
      while i < |dirty|
        invariant 0 <= i <= |dirty| == |old(dirty)|
        invariant forall k :: 0 <= k < |dirty| ==>
          dirty[k] == if k < i then Mark(s, old(dirty), {w}, except)[k] else old(dirty)[k]
      {
        dirty := dirty[i := dirty[i] + ReaderMask(s, {w}, except, i)];
        i := i + 1;
      }
    }

    /** The input (or register) compares before (after) a pass. */
    method CompareWires(k: Kind, now: Env)
      requires s.Valid() && |pv| == |s.d.wireOf|
      modifies this`pv, this`dirty
      ensures Now() == Compare(s, k, old(Now()), now)
    {
      ghost var pv0, dirty0, changed: set<nat> := pv, dirty, {};
      MarkNone(s, dirty, s.parts);
      for w := 0 to |s.d.kind|
        invariant DoneBelow(s.d, w, pv, Latched(s, k, pv0, now), pv0)
        invariant Below(changed, ChangedOf(s, k, pv0, now), w) && dirty == Mark(s, dirty0, changed, s.parts)
      {
        changed := CompareWire(k, now, w, pv0, dirty0, changed);
      }
      AllDone(s.d, pv, Latched(s, k, pv0, now), pv0);
      assert changed == ChangedOf(s, k, pv0, now);
    }

    method CompareWire(k: Kind, now: Env, w: nat, ghost pv0: Env, ghost dirty0: seq<set<nat>>, ghost changed: set<nat>)
      returns (ghost changed': set<nat>)
      requires s.Valid() && w < |s.d.kind| && DoneBelow(s.d, w, pv, Latched(s, k, pv0, now), pv0)
      requires Below(changed, ChangedOf(s, k, pv0, now), w) && dirty == Mark(s, dirty0, changed, s.parts)
      modifies this`pv, this`dirty
      ensures DoneBelow(s.d, w + 1, pv, Latched(s, k, pv0, now), pv0)
      ensures Below(changed', ChangedOf(s, k, pv0, now), w + 1) && dirty == Mark(s, dirty0, changed', s.parts)
    {
      changed' := changed;
      SameDiffers(s.d, pv, pv0, now, w);
      CopyOne(s.d, w, pv, Latched(s, k, pv0, now), pv0, now);
      if s.d.kind[w] == k && ReadSomewhere(s, w) {
        if WireDiffers(s.d, pv, now, w) {
          pv := CopyWire(s.d, w, pv, now);
          MarkReaders(w, s.parts);
          MarkUnion(s, dirty0, changed, {w}, s.parts);
          changed' := changed + {w};
        }
      }
    }

    /** After block `p` ran on `vals`: refresh the shadows of its changed nets, mark their readers. */
    method Propagate(p: nat, vals: array<bool>)
      requires s.Valid() && p < s.parts && vals.Length == |sh| == |s.d.wireOf|
      modifies this`sh, this`dirty
      ensures sh == NewShadow(s, p, vals[..], old(sh))
      ensures dirty == Mark(s, old(dirty), ChangedNets(s, p, vals[..], old(sh)), p)
    {
      ghost var sh0, dirty0, env, changed: set<nat> := sh, dirty, vals[..], {};
      MarkNone(s, dirty, p);
      for w := 0 to |s.d.kind|
        invariant DoneBelow(s.d, w, sh, NewShadow(s, p, env, sh0), sh0)
        invariant Below(changed, ChangedNets(s, p, env, sh0), w) && dirty == Mark(s, dirty0, changed, p)
      {
        changed := PropagateWire(p, vals, w, sh0, dirty0, changed);
      }
      AllDone(s.d, sh, NewShadow(s, p, env, sh0), sh0);
      assert changed == ChangedNets(s, p, env, sh0);
    }

    method PropagateWire(p: nat, vals: array<bool>, w: nat, ghost sh0: Env, ghost dirty0: seq<set<nat>>, ghost changed: set<nat>)
      returns (ghost changed': set<nat>)
      requires s.Valid() && p < s.parts && vals.Length == |s.d.wireOf| && w < |s.d.kind|
      requires DoneBelow(s.d, w, sh, NewShadow(s, p, vals[..], sh0), sh0)
      requires Below(changed, ChangedNets(s, p, vals[..], sh0), w) && dirty == Mark(s, dirty0, changed, p)
      modifies this`sh, this`dirty
      ensures DoneBelow(s.d, w + 1, sh, NewShadow(s, p, vals[..], sh0), sh0)
      ensures Below(changed', ChangedNets(s, p, vals[..], sh0), w + 1) && dirty == Mark(s, dirty0, changed', p)
    {
      changed' := changed;
      SameDiffers(s.d, sh, sh0, vals[..], w);
      CopyOne(s.d, w, sh, NewShadow(s, p, vals[..], sh0), sh0, vals[..]);
      if Compared(s, w) && s.WritesIn(p, w) {
        if WireDiffers(s.d, vals[..], sh, w) {
          sh := CopyWire(s.d, w, sh, vals[..]);
          MarkReaders(w, p);
          MarkUnion(s, dirty0, changed, {w}, p);
          changed' := changed + {w};
        }
      }
    }

    /** The emitted pass: whole zero words are skipped, each set bit is tested at its turn. */
    method PassWords(vals: array<bool>, mem: Mem)
      requires s.Valid() && vals.Length == |sh| == |s.d.wireOf| && s.parts <= WORD * |dirty|
      modifies this`sh, this`dirty, vals
      ensures Pass(vals[..], sh, dirty) == RunPass(s, s.parts, old(Pass(vals[..], sh, dirty)), mem)
    {
      ghost var x := Pass(vals[..], sh, dirty);
      var i := 0;
      while WORD * i < s.parts
        invariant |sh| == |s.d.wireOf| && s.parts <= WORD * |dirty|
        invariant Pass(vals[..], sh, dirty) == RunPass(s, WordStart(s, i), x, mem)
        decreases s.parts - WORD * i
      {
        TestWord(i, vals, mem, x);
        i := i + 1;
      }
    }

    /** One word of the pass. */
    method TestWord(i: nat, vals: array<bool>, mem: Mem, ghost x: Pass)
      requires s.Valid() && vals.Length == |sh| == |s.d.wireOf| && s.parts <= WORD * |dirty| && WORD * i < s.parts
      requires Pass(vals[..], sh, dirty) == RunPass(s, WordStart(s, i), x, mem)
      modifies this`sh, this`dirty, vals
      ensures |sh| == |s.d.wireOf| && |dirty| == |old(dirty)|
      ensures Pass(vals[..], sh, dirty) == RunPass(s, WordStart(s, i + 1), x, mem)
    {
      if dirty[i] != {} {
        PassWord(i, vals, mem, x);
      } else {
        ZeroWord(s, i, x, mem, dirty);
      }
    }

    /** The blocks of a non-zero word. */
    method PassWord(i: nat, vals: array<bool>, mem: Mem, ghost x: Pass)
      requires s.Valid() && vals.Length == |sh| == |s.d.wireOf| && s.parts <= WORD * |dirty| && WORD * i < s.parts
      requires Pass(vals[..], sh, dirty) == RunPass(s, WordStart(s, i), x, mem)
      modifies this`sh, this`dirty, vals
      ensures |sh| == |s.d.wireOf| && |dirty| == |old(dirty)|
      ensures Pass(vals[..], sh, dirty) == RunPass(s, WordStart(s, i + 1), x, mem)
    {
      for p := WordStart(s, i) to WordStart(s, i + 1)
        invariant |sh| == |s.d.wireOf| && |dirty| == |old(dirty)|
        invariant Pass(vals[..], sh, dirty) == RunPass(s, p, x, mem)
      {
        InBlock(s, i, p - WordStart(s, i));
        TestBit(i, p - WordStart(s, i), p, vals, mem, x);
      }
    }

    /** One test-and-run of bit `k` of word `i`, block `p`. */
    method TestBit(i: nat, k: nat, p: nat, vals: array<bool>, mem: Mem, ghost x: Pass)
      requires s.Valid() && vals.Length == |sh| == |s.d.wireOf| && i < |dirty| && s.parts <= WORD * |dirty|
      requires k < WORD && p == BlockNo(i, k) < s.parts
      requires Pass(vals[..], sh, dirty) == RunPass(s, p, x, mem)
      modifies this`sh, this`dirty, vals
      ensures |sh| == |s.d.wireOf| && |dirty| == |old(dirty)|
      ensures Pass(vals[..], sh, dirty) == RunPass(s, p + 1, x, mem)
    {
      BitOf(i, k);
      if k in dirty[i] { TurnBlock(p, vals, mem); }
    }

    method TurnBlock(p: nat, vals: array<bool>, mem: Mem)
      requires s.Valid() && p < s.parts && vals.Length == |sh| == |s.d.wireOf| && s.parts <= WORD * |dirty|
      modifies this`sh, this`dirty, vals
      ensures |sh| == |s.d.wireOf| && |dirty| == |old(dirty)|
      ensures Pass(vals[..], sh, dirty) == RunBlock(s, p, old(Pass(vals[..], sh, dirty)), mem)
    {
      dirty := ClearBit(dirty, p);
      var cells := BlockCells(s, p);
      OutCone.OrderInRange(s.d, s.order);
      forall c | c in cells ensures c < |s.d.cells| {
        assert c in s.order;
      }
      RunCells(s.d, cells, vals, mem);
      Propagate(p, vals);
    }

    /** The gated combinational body shared by `sm_comb` and `sm_clock`. */
    method SettleBlocks(inp: Env, junk: Env)
      requires Valid()
      modifies this`nets, this`sh, this`pv, this`dirty, this`init
      ensures Now() == Settle(s, old(Now()), m.st, inp, m.mem, junk)
    {
      Sizes(s, m, Now());
      if !init { init, dirty := true, seq(|dirty|, _ => FullWord()); }
      CompareWires(Input, inp);
      var vals := new bool[|s.d.wireOf|];
      var start := Locals(s, nets, m.st, inp, junk);
      forall b | 0 <= b < vals.Length { vals[b] := start[b]; }
      assert vals[..] == start;
      PassWords(vals, m.mem);
      nets := vals[..];
    }

    method SmComb(inp: Env, live: seq<bool>, junk: Env)
      requires Valid()
      modifies this
      ensures Valid() && m == RefStep(s, old(m), CombCall(inp, live, junk))
    {
      GatedStepCorrect(s, m, Now(), CombCall(inp, live, junk));
      SettleBlocks(inp, junk);
      m := m.(outs := OutCone.EmitOutputs(s.d, nets, live, m.outs));
    }

    /** The dirtying that follows a commit which read `env`. */
    method MarkAfterEdge(env: Env)
      requires s.Valid() && |pv| == |s.d.wireOf|
      modifies this`pv, this`dirty
      ensures Now() == MarkEdge(s, old(Now()), env, m.st)
    {
      dirty := MarkMem(s, dirty, EnabledMems(s.d, env));
      CompareWires(Register, m.st);
    }

    method Commit(env: Env)
      requires s.Valid() && |m.st| == |s.d.wireOf|
      modifies this`m
      ensures m == old(m).(st := NextState(s.d, env, old(m.st)), mem := NextMem(s.d, env, old(m.mem)))
    {
      var st := new bool[|m.st|];
      var now := m.st;
      forall b | 0 <= b < st.Length { st[b] := now[b]; }
      assert st[..] == now;
      CommitRegisters(s.d, env, st);
      var mem := CommitMemories(s.d, env, m.mem);
      m := m.(st := st[..], mem := mem);
    }

    method SmClock(inp: Env, junk: Env)
      requires Valid()
      modifies this
      ensures Valid() && m == RefStep(s, old(m), ClockCall(inp, junk))
    {
      GatedStepCorrect(s, m, Now(), ClockCall(inp, junk));
      Sizes(s, m, Now());
      SettleBlocks(inp, junk);
      Commit(nets);
      MarkAfterEdge(nets);
    }

    /** Ungated locals, commit, dirtying, then the output cones. */
    method SmClockOut(a: OutCone.Analysis, inp: Env, live: seq<bool>)
      requires Valid() && a == OutCone.Analyze(s.d)
      modifies this
      ensures Valid() && m == RefStep(s, old(m), ClockOutCall(inp, live))
    {
      GatedStepCorrect(s, m, Now(), ClockOutCall(inp, live));
      Sizes(s, m, Now());
      var pre := Eval(s.d, s.order, m.st, inp, m.mem);
      var st := new bool[|m.st|];
      var now := m.st;
      forall b | 0 <= b < st.Length { st[b] := now[b]; }
      assert st[..] == now;
      var mem', outs := OutCone.SmClockOut(s.d, a, s.order, live, st, inp, m.mem, m.outs);
      m := Machine(st[..], mem', outs);
      MarkAfterEdge(pre);
    }

    method Step(a: OutCone.Analysis, c: Call)
      requires Valid() && a == OutCone.Analyze(s.d)
      modifies this
      ensures Valid() && m == RefStep(s, old(m), c)
    {
      match c {
        case CombCall(inp, live, junk) => SmComb(inp, live, junk);
        case ClockCall(inp, junk) => SmClock(inp, junk);
        case ClockOutCall(inp, live) => SmClockOut(a, inp, live);
      }
    }

    /** Any sequence of calls leaves the machine where full evaluation leaves it. */
    method Run(calls: seq<Call>, a: OutCone.Analysis)
      requires Valid() && a == OutCone.Analyze(s.d)
      modifies this
      ensures Valid() && m == RefRun(s, old(m), calls)[|calls|]
    {
      ghost var goal := RefRun(s, m, calls)[|calls|];
      assert calls[0..] == calls;
      for i := 0 to |calls|
        invariant Valid() && EndsIn(s, m, calls, i, goal)
      {
        EndsInStep(s, m, calls, i, goal);
        Step(a, calls[i]);
      }
    }
  }

  /** The calls from the `i`-th on lead to `goal`. */
  ghost predicate EndsIn(s: Split, m: Machine, calls: seq<Call>, i: nat, goal: Machine) {
    i <= |calls| && RefRun(s, m, calls[i..])[|calls| - i] == goal
  }

  lemma EndsInStep(s: Split, m: Machine, calls: seq<Call>, i: nat, goal: Machine)
    requires i < |calls| && EndsIn(s, m, calls, i, goal)
    ensures EndsIn(s, RefStep(s, m, calls[i]), calls, i + 1, goal)
  {
    assert calls[i..][0] == calls[i] && calls[i..][1..] == calls[i + 1..];
  }

  /** The class on the words of a design, from a cold start: any sequence of calls leaves the registers, memories
      and outputs of full evaluation of the design, whatever its uninitialised locals hold above and below their width. */
  method RunWords(s: Split, k: Words, fns: Fns, start: Machine, calls: seq<Call>) returns (m: Machine)
    requires StorageOk(s, k, fns) && StorageSafe(s, k) && MemFits(s.d, start.mem)
    requires |start.st| == |s.d.wireOf| && |s.d.outputs| <= OutCone.MASK_BITS && ReadRegistersZero(s, start.st)
    ensures MachineMirrors(s.d, m, RefRun(s, start, calls)[|calls|])
  {
    StoredMirrors(s.d, start);
    StoredColdStart(s, k, fns, start);
    StoredRegistersZero(s, k, fns, start);
    RefRunMirrors(s, k, fns, StoredMachine(s.d, start), start, calls);
    var model := new Model(StoredSplit(s, k, fns), StoredMachine(s.d, start));
    model.Run(calls, OutCone.Analyze(model.s.d));
    m := model.m;
  }

  function CopyWire(d: Design, w: nat, e: Env, now: Env): (r: Env) {
    seq(|e|, b requires 0 <= b < |e| => if b < |d.wireOf| && d.wireOf[b] == w then Value(Net(b), now) else e[b])
  }
}
