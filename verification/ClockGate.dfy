/** Clock gates to clock enables. */
module ClockGate {
  // The rewrite of integrated clock gates (latch + AND) to clock enables.
  //
  // Before: a flop clocked by AND(clk, Q of a latch holding the enable).  After: the flop
  // sits on clk with the enable cone as EN, every reader of the latch reads its D instead,
  // and an exported gated clock is AND(clk, hold register).  Both circuits are run over the
  // same events: input changes at any time, and clock edges with zero skew.

  datatype Expr =
    | In(i: nat)
    | Reg(i: nat)
    | LatchQ(k: nat)
    | Clk
    | Lit(v: bool)
    | Not(e: Expr)
    | And(a: Expr, b: Expr)
    | Or(a: Expr, b: Expr)

  function At(s: seq<bool>, i: nat): bool { i < |s| && s[i] }

  function Eval(e: Expr, clk: bool, regs: seq<bool>, q: seq<bool>, inp: seq<bool>): bool {
    match e
    case In(i) => At(inp, i)
    case Reg(i) => At(regs, i)
    case LatchQ(k) => At(q, k)
    case Clk => clk
    case Lit(v) => v
    case Not(x) => !Eval(x, clk, regs, q, inp)
    case And(a, b) => Eval(a, clk, regs, q, inp) && Eval(b, clk, regs, q, inp)
    case Or(a, b) => Eval(a, clk, regs, q, inp) || Eval(b, clk, regs, q, inp)
  }

  /** Two expressions with one value everywhere. */
  ghost predicate Same(e: Expr, f: Expr) {
    forall clk, regs, q, inp :: Eval(e, clk, regs, q, inp) == Eval(f, clk, regs, q, inp)
  }

  /** The connectives are those of Boolean algebra. */
  lemma BooleanLaws(a: Expr, b: Expr)
    ensures Same(Not(Not(a)), a) && Same(Not(Lit(true)), Lit(false)) && !Same(Not(a), a)
    ensures Same(And(a, a), a) && Same(And(a, b), And(b, a)) && Same(And(a, Lit(true)), a) && Same(And(a, Lit(false)), Lit(false))
    ensures Same(Or(a, a), a) && Same(Or(a, b), Or(b, a)) && Same(Or(a, Lit(false)), a) && Same(Or(a, Lit(true)), Lit(true))
    ensures Same(Not(And(a, b)), Or(Not(a), Not(b))) && Same(Not(Or(a, b)), And(Not(a), Not(b)))
  {
    assert Eval(Not(a), false, [], [], []) != Eval(a, false, [], [], []);
  }

  /** The atoms read the constant, the clock, and the named input, register and latch; what is not there reads as 0. */
  lemma AtomsMean(i: nat, v: bool, clk: bool, regs: seq<bool>, q: seq<bool>, inp: seq<bool>)
    ensures Eval(Lit(v), clk, regs, q, inp) == v && Eval(Clk, clk, regs, q, inp) == clk
    ensures Eval(In(i), clk, regs, q, inp) == if i < |inp| then inp[i] else false
    ensures Eval(Reg(i), clk, regs, q, inp) == if i < |regs| then regs[i] else false
    ensures Eval(LatchQ(i), clk, regs, q, inp) == if i < |q| then q[i] else false
  {
  }

  /** A latch's enable pin is the clock or its complement; `pol` is the level that opens it. */
  datatype Latch = Latch(inverted: bool, pol: bool)

  /** `Base` is the module clock, `Gated(k)` the AND of it with latch `k`. */
  datatype Clock = Base | Gated(k: nat)

  datatype Flop = Flop(clock: Clock, d: Expr)

  datatype Cone = Cone(latch: Latch, en: Expr)

  datatype Circuit = Circuit(flops: seq<Flop>, cones: seq<Cone>)

  datatype Event = Drive(inp: seq<bool>) | Edge

  predicate Open(l: Latch, clk: bool) {
    (if l.inverted then !clk else clk) == l.pol
  }

  // ---------------------------------------------------------------- the original circuit

  datatype Latched = Latched(clk: bool, regs: seq<bool>, q: seq<bool>, inp: seq<bool>)

  function GatedClk(s: Latched, k: nat): bool { s.clk && At(s.q, k) }

  function SettleLatches(c: Circuit, s: Latched): (q: seq<bool>) {
    seq(|c.cones|, k requires 0 <= k < |c.cones| =>
      if Open(c.cones[k].latch, s.clk) then Eval(c.cones[k].en, s.clk, s.regs, s.q, s.inp) else At(s.q, k))
  }

  predicate Rises(f: Flop, pre: Latched, post: Latched) {
    match f.clock
    case Base => !pre.clk && post.clk
    case Gated(k) => !GatedClk(pre, k) && GatedClk(post, k)
  }

  /** Flops whose clock rises from `pre` to `post` load their pre-edge D value. */
  function Capture(c: Circuit, pre: Latched, post: Latched): (regs: seq<bool>) {
    seq(|c.flops|, i requires 0 <= i < |c.flops| =>
      if Rises(c.flops[i], pre, post) then Eval(c.flops[i].d, pre.clk, pre.regs, pre.q, pre.inp) else At(pre.regs, i))
  }

  /** The event itself with latches as they were, then the latches that are open, each with the
      captures of the clocks that rise. */
  function LatchedStep(c: Circuit, s: Latched, e: Event): (r: Latched) {
    var moved := if e.Edge? then s.(clk := !s.clk) else s.(inp := e.inp);
    var one := moved.(regs := Capture(c, s, moved));
    var two := one.(q := SettleLatches(c, one));
    var three := two.(regs := Capture(c, one, two));
    three.(q := SettleLatches(c, three))
  }

  // ---------------------------------------------------------------- the rewrite

  datatype EnFlop = EnFlop(d: Expr, en: Expr)

  /** All on the module clock: the flops with their enables, one hold register per cone. */
  datatype Rewritten = Rewritten(flops: seq<EnFlop>, holds: seq<Expr>)

  /** The latch pins the matcher accepts: open exactly while the clock is low. */
  predicate Matched(l: Latch) {
    if l.inverted then l.pol else !l.pol
  }

  /** The enable-cone walk found no stateful cell. */
  predicate NoLatch(e: Expr) {
    match e
    case LatchQ(_) => false
    case Not(x) => NoLatch(x)
    case And(a, b) => NoLatch(a) && NoLatch(b)
    case Or(a, b) => NoLatch(a) && NoLatch(b)
    case _ => true
  }

  predicate Accepts(c: Circuit) {
    && (forall k :: 0 <= k < |c.cones| ==> Matched(c.cones[k].latch) && NoLatch(c.cones[k].en))
    && (forall i :: 0 <= i < |c.flops| ==> c.flops[i].clock.Gated? ==> c.flops[i].clock.k < |c.cones|)
  }

  /** Q connected to D: every reader of a latch reads its enable cone. */
  function Connect(e: Expr, cones: seq<Cone>): Expr {
    match e
    case LatchQ(k) => if k < |cones| then cones[k].en else Lit(false)
    case Not(x) => Not(Connect(x, cones))
    case And(a, b) => And(Connect(a, cones), Connect(b, cones))
    case Or(a, b) => Or(Connect(a, cones), Connect(b, cones))
    case _ => e
  }

  function Enable(c: Circuit, clock: Clock): Expr {
    match clock
    case Base => Lit(true)
    case Gated(k) => if k < |c.cones| then c.cones[k].en else Lit(false)
  }

  function Rewrite(c: Circuit): (r: Rewritten) {
    Rewritten(seq(|c.flops|, i requires 0 <= i < |c.flops| =>
                EnFlop(Connect(c.flops[i].d, c.cones), Enable(c, c.flops[i].clock))),
              seq(|c.cones|, k requires 0 <= k < |c.cones| => c.cones[k].en))
  }

  /** The emitted machine: in its combinational code the clock is the constant 0. */
  datatype Enabled = Enabled(clk: bool, regs: seq<bool>, hold: seq<bool>, inp: seq<bool>)

  function Plain(e: Expr, s: Enabled): bool { Eval(e, false, s.regs, [], s.inp) }

  function EnabledStep(r: Rewritten, s: Enabled, e: Event): (t: Enabled) {
    match e
    case Drive(inp) => s.(inp := inp)
    case Edge =>
      if s.clk then s.(clk := false)
      else
        Enabled(true,
                seq(|r.flops|, i requires 0 <= i < |r.flops| =>
                  if Plain(r.flops[i].en, s) then Plain(r.flops[i].d, s) else At(s.regs, i)),
                seq(|r.holds|, k requires 0 <= k < |r.holds| => Plain(r.holds[k], s)),
                s.inp)
  }

  function ExportedClk(s: Enabled, k: nat): bool { s.clk && At(s.hold, k) }

  /** An output `e` has the same value in both circuits. */
  predicate OutputAgrees(c: Circuit, e: Expr, o: Latched, n: Enabled) {
    Eval(e, o.clk, o.regs, o.q, o.inp) == Plain(Connect(e, c.cones), n)
  }

  // ---------------------------------------------------------------- equivalence

  /** While the clock is low each latch shows its enable cone; while it is high the latch and
      the hold register hold the same frozen value. */
  ghost predicate Related(c: Circuit, o: Latched, n: Enabled) {
    && o.clk == n.clk && o.regs == n.regs && o.inp == n.inp
    && |o.regs| == |c.flops| && |o.q| == |c.cones| && |n.hold| == |c.cones|
    && (forall k :: 0 <= k < |c.cones| ==>
          o.q[k] == if o.clk then n.hold[k] else Eval(c.cones[k].en, false, o.regs, [], o.inp))
  }

  /** A latch is open exactly while the clock is low iff the matcher accepts its pins. */
  lemma MatchedOpensLow(l: Latch)
    ensures Matched(l) <==> forall clk :: Open(l, clk) <==> !clk
  {
    assert Open(l, true) == (l.pol != l.inverted);
    assert Open(l, false) == (l.pol == l.inverted);
  }

  lemma {:induction false} NoLatchIgnoresQ(e: Expr, clk: bool, regs: seq<bool>, q: seq<bool>, q': seq<bool>, inp: seq<bool>)
    requires NoLatch(e)
    ensures Eval(e, clk, regs, q, inp) == Eval(e, clk, regs, q', inp)
  {
    match e
    case Not(x) => NoLatchIgnoresQ(x, clk, regs, q, q', inp);
    case And(a, b) => NoLatchIgnoresQ(a, clk, regs, q, q', inp); NoLatchIgnoresQ(b, clk, regs, q, q', inp);
    case Or(a, b) => NoLatchIgnoresQ(a, clk, regs, q, q', inp); NoLatchIgnoresQ(b, clk, regs, q, q', inp);
    case _ =>
  }

  /** While each latch shows its cone, connecting Q to D does not change a value. */
  lemma {:induction false} ConnectMeans(c: Circuit, e: Expr, regs: seq<bool>, q: seq<bool>, inp: seq<bool>)
    requires |q| == |c.cones|
    requires forall k :: 0 <= k < |c.cones| ==> q[k] == Eval(c.cones[k].en, false, regs, [], inp)
    ensures Eval(e, false, regs, q, inp) == Eval(Connect(e, c.cones), false, regs, [], inp)
  {
    match e
    case Not(x) => ConnectMeans(c, x, regs, q, inp);
    case And(a, b) => ConnectMeans(c, a, regs, q, inp); ConnectMeans(c, b, regs, q, inp);
    case Or(a, b) => ConnectMeans(c, a, regs, q, inp); ConnectMeans(c, b, regs, q, inp);
    case _ =>
  }

  /** An accepted circuit's latches stay as they are while the clock is high. */
  lemma HighFreezes(c: Circuit, s: Latched)
    requires Accepts(c) && s.clk && |s.q| == |c.cones|
    ensures SettleLatches(c, s) == s.q
  {
    forall k | 0 <= k < |c.cones| ensures !Open(c.cones[k].latch, true) { MatchedOpensLow(c.cones[k].latch); }
  }

  /** ... and show their cones while it is low. */
  lemma LowFollows(c: Circuit, s: Latched, k: nat)
    requires Accepts(c) && !s.clk && k < |c.cones|
    ensures SettleLatches(c, s)[k] == Eval(c.cones[k].en, false, s.regs, [], s.inp)
  {
    MatchedOpensLow(c.cones[k].latch);
    NoLatchIgnoresQ(c.cones[k].en, false, s.regs, s.q, [], s.inp);
  }

  /** No clock rises: nothing is captured. */
  lemma NoRise(c: Circuit, pre: Latched, post: Latched)
    requires |pre.regs| == |c.flops| && (pre.clk || !post.clk)
    requires forall k: nat :: GatedClk(post, k) ==> GatedClk(pre, k)
    ensures Capture(c, pre, post) == pre.regs
  {
  }

  /** Outside a rising edge only inputs, the clock level and open latches move. */
  lemma QuietStep(c: Circuit, s: Latched, e: Event)
    requires Accepts(c) && |s.regs| == |c.flops| && |s.q| == |c.cones|
    requires e.Edge? ==> s.clk
    ensures var moved := if e.Edge? then s.(clk := !s.clk) else s.(inp := e.inp);
      var r := LatchedStep(c, s, e);
      && r.clk == moved.clk && r.inp == moved.inp && r.regs == s.regs && |r.q| == |c.cones|
      && forall k :: 0 <= k < |c.cones| ==>
           r.q[k] == if r.clk then s.q[k] else Eval(c.cones[k].en, false, r.regs, [], r.inp)
  {
    var moved := if e.Edge? then s.(clk := !s.clk) else s.(inp := e.inp);
    NoRise(c, s, moved);
    var two := moved.(q := SettleLatches(c, moved));
    if moved.clk { HighFreezes(c, moved); }
    NoRise(c, moved, two);
    if moved.clk { HighFreezes(c, two); }
    else {
      forall k | 0 <= k < |c.cones|
        ensures SettleLatches(c, two)[k] == Eval(c.cones[k].en, false, two.regs, [], two.inp)
      {
        LowFollows(c, two, k);
      }
    }
  }

  /** At a rising edge a gated flop captures exactly when its latch is high. */
  lemma RiseStep(c: Circuit, s: Latched)
    requires Accepts(c) && !s.clk && |s.regs| == |c.flops| && |s.q| == |c.cones|
    ensures LatchedStep(c, s, Edge) == Latched(true, Capture(c, s, s.(clk := true)), s.q, s.inp)
  {
    var moved := s.(clk := true);
    var one := moved.(regs := Capture(c, s, moved));
    HighFreezes(c, one);
    NoRise(c, one, one);
  }

  /** One event keeps the two circuits related. */
  lemma StepRelated(c: Circuit, o: Latched, n: Enabled, e: Event)
    requires Accepts(c) && Related(c, o, n)
    ensures Related(c, LatchedStep(c, o, e), EnabledStep(Rewrite(c), n, e))
  {
    if e.Edge? && !o.clk {
      RiseStep(c, o);
      var n' := EnabledStep(Rewrite(c), n, e);
      forall i | 0 <= i < |c.flops|
        ensures Capture(c, o, o.(clk := true))[i] == n'.regs[i]
      {
        ConnectMeans(c, c.flops[i].d, o.regs, o.q, o.inp);
      }
      assert Capture(c, o, o.(clk := true)) == n'.regs;
    } else {
      QuietStep(c, o, e);
    }
  }

  /** What both circuits do, spelt out: a rising clock loads the flops that are ungated or whose enable cone is 1 while
      the clock is low, each with its D value of that moment; nothing else moves a flop. */
  lemma FlopMeans(c: Circuit, o: Latched, n: Enabled, e: Event, i: nat)
    requires Accepts(c) && Related(c, o, n) && i < |c.flops|
    ensures var f := c.flops[i];
      LatchedStep(c, o, e).regs[i] ==
        if e.Edge? && !o.clk && (f.clock.Base? || Eval(c.cones[f.clock.k].en, false, o.regs, o.q, o.inp))
        then Eval(f.d, false, o.regs, o.q, o.inp) else o.regs[i]
    ensures EnabledStep(Rewrite(c), n, e).regs[i] == LatchedStep(c, o, e).regs[i]
    ensures LatchedStep(c, o, e).clk == (o.clk != e.Edge?)
    ensures LatchedStep(c, o, e).inp == if e.Drive? then e.inp else o.inp
  {
    StepRelated(c, o, n, e);
    if e.Edge? && !o.clk {
      RiseStep(c, o);
      var f := c.flops[i];
      if f.clock.Gated? { NoLatchIgnoresQ(c.cones[f.clock.k].en, false, o.regs, o.q, [], o.inp); }
    } else {
      QuietStep(c, o, e);
    }
  }

  function LatchedRun(c: Circuit, s: Latched, es: seq<Event>): (r: Latched) {
    if es == [] then s else LatchedStep(c, LatchedRun(c, s, es[..|es|-1]), es[|es|-1])
  }

  function EnabledRun(r: Rewritten, s: Enabled, es: seq<Event>): (t: Enabled) {
    if es == [] then s else EnabledStep(r, EnabledRun(r, s, es[..|es|-1]), es[|es|-1])
  }

  /** Over every run the rewritten flops hold what the gated ones hold and every exported
      gated clock has the same level, in both phases and whatever the inputs do meanwhile;
      while the clock is low so has every output. */
  lemma {:induction false} RewriteCorrect(c: Circuit, o: Latched, n: Enabled, es: seq<Event>)
    requires Accepts(c) && Related(c, o, n)
    ensures var x, y := LatchedRun(c, o, es), EnabledRun(Rewrite(c), n, es);
      && Related(c, x, y)
      && x.regs == y.regs
      && (forall k :: 0 <= k < |c.cones| ==> GatedClk(x, k) == ExportedClk(y, k))
      && (!x.clk ==> forall e: Expr :: OutputAgrees(c, e, x, y))
    decreases |es|
  {
    if es == [] {
      LowOutputs(c, o, n);
    } else {
      RewriteCorrect(c, o, n, es[..|es|-1]);
      StepRelated(c, LatchedRun(c, o, es[..|es|-1]), EnabledRun(Rewrite(c), n, es[..|es|-1]), es[|es|-1]);
      LowOutputs(c, LatchedRun(c, o, es), EnabledRun(Rewrite(c), n, es));
    }
  }

  lemma LowOutputs(c: Circuit, o: Latched, n: Enabled)
    requires Related(c, o, n)
    ensures !o.clk ==> forall e: Expr :: OutputAgrees(c, e, o, n)
  {
    if !o.clk {
      forall e: Expr ensures OutputAgrees(c, e, o, n) { ConnectMeans(c, e, o.regs, o.q, o.inp); }
    }
  }

  /** Power-on: latches and hold registers start from the latch's initial value. */
  lemma PowerOnRelated(c: Circuit, clk: bool, regs: seq<bool>, inp: seq<bool>, init: seq<bool>)
    requires Accepts(c) && |regs| == |c.flops| && |init| == |c.cones|
    ensures var o := Latched(clk, regs, init, inp);
      Related(c, o.(q := SettleLatches(c, o)), Enabled(clk, regs, init, inp))
  {
    var o := Latched(clk, regs, init, inp);
    if clk { HighFreezes(c, o); }
    else {
      forall k | 0 <= k < |c.cones|
        ensures SettleLatches(c, o)[k] == Eval(c.cones[k].en, false, regs, [], inp)
      {
        LowFollows(c, o, k);
      }
    }
  }

  // ---------------------------------------------------------------- exactly these latches

  function PowerOn(c: Circuit, regs: seq<bool>, inp: seq<bool>): (o: Latched) {
    var o := Latched(false, regs, seq(|c.cones|, _ => false), inp);
    o.(q := SettleLatches(c, o))
  }

  /** Rewriting cones with this latch keeps every flop on every run from power-on. */
  ghost predicate RewriteSound(l: Latch) {
    forall c: Circuit, regs: seq<bool>, inp: seq<bool>, es: seq<Event> ::
      (forall k :: 0 <= k < |c.cones| ==> c.cones[k].latch == l && NoLatch(c.cones[k].en)) &&
      (forall i :: 0 <= i < |c.flops| ==> c.flops[i].clock.Gated? ==> c.flops[i].clock.k < |c.cones|) &&
      |regs| == |c.flops| ==>
      LatchedRun(c, PowerOn(c, regs, inp), es).regs ==
      EnabledRun(Rewrite(c), Enabled(false, regs, seq(|c.cones|, _ => false), inp), es).regs
  }

  /** A flop loading 1 behind a gate whose enable is input 0. */
  function Sample(l: Latch): Circuit {
    Circuit([Flop(Gated(0), Lit(true))], [Cone(l, In(0))])
  }

  /** With a latch open while the clock is high, an enable that rises in that phase clocks the
      flop at once; the rewritten flop waits for the next edge. */
  lemma OpenHighWrong(l: Latch)
    requires !Matched(l)
    ensures !RewriteSound(l)
  {
    var c, es := Sample(l), [Edge, Drive([true])];
    MatchedOpensLow(l);
    assert Open(l, true) && !Open(l, false);
    var o := PowerOn(c, [false], [false]);
    assert o == Latched(false, [false], [false], [false]);
    var o1 := LatchedStep(c, o, Edge);
    assert o1 == Latched(true, [false], [false], [false]) by {
      var moved := o.(clk := true);
      assert Capture(c, o, moved) == [false] && SettleLatches(c, moved) == [false];
      assert Capture(c, moved, moved) == [false];
    }
    var o2 := LatchedStep(c, o1, Drive([true]));
    assert o2.regs == [true] by {
      var moved := o1.(inp := [true]);
      assert Capture(c, o1, moved) == [false] && SettleLatches(c, moved) == [true];
      assert Capture(c, moved, moved.(q := [true])) == [true];
    }
    var n := Enabled(false, [false], [false], [false]);
    var n1 := EnabledStep(Rewrite(c), n, Edge);
    assert n1.regs == [false];
    assert es[..1] == [Edge] && es[..1][..0] == [];
    assert LatchedRun(c, o, []) == o && LatchedRun(c, o, es[..1]) == o1;
    assert EnabledRun(Rewrite(c), n, []) == n && EnabledRun(Rewrite(c), n, es[..1]) == n1;
    assert LatchedRun(c, o, es) == o2;
    assert seq(1, _ => false) == [false];
  }

  /** The rewrite is sound for a latch exactly when the matcher accepts it. */
  lemma MatcherExact(l: Latch)
    ensures RewriteSound(l) <==> Matched(l)
  {
    if !Matched(l) { OpenHighWrong(l); }
    else {
      forall c: Circuit, regs: seq<bool>, inp: seq<bool>, es: seq<Event> |
        (forall k :: 0 <= k < |c.cones| ==> c.cones[k].latch == l && NoLatch(c.cones[k].en)) &&
        (forall i :: 0 <= i < |c.flops| ==> c.flops[i].clock.Gated? ==> c.flops[i].clock.k < |c.cones|) &&
        |regs| == |c.flops|
        ensures LatchedRun(c, PowerOn(c, regs, inp), es).regs ==
          EnabledRun(Rewrite(c), Enabled(false, regs, seq(|c.cones|, _ => false), inp), es).regs
      {
        var init := seq(|c.cones|, _ => false);
        assert Accepts(c);
        PowerOnRelated(c, false, regs, inp, init);
        RewriteCorrect(c, PowerOn(c, regs, inp), Enabled(false, regs, init, inp), es);
      }
    }
  }

  // ---------------------------------------------------------------- exactly these outputs

  /** An output with this expression agrees in both phases, over every accepted circuit with `n` latches and every
      run from power-on. */
  ghost predicate OutputSound(e: Expr, n: nat) {
    forall c: Circuit, regs: seq<bool>, inp: seq<bool>, es: seq<Event> ::
      Accepts(c) && |c.cones| == n && |regs| == |c.flops| ==> OutputRuns(c, e, regs, inp, es)
  }

  ghost predicate OutputRuns(c: Circuit, e: Expr, regs: seq<bool>, inp: seq<bool>, es: seq<Event>) {
    OutputAgrees(c, e, LatchedRun(c, PowerOn(c, regs, inp), es), EnabledRun(Rewrite(c), Ready(c, regs, inp), es))
  }

  function Ready(c: Circuit, regs: seq<bool>, inp: seq<bool>): Enabled {
    Enabled(false, regs, seq(|c.cones|, _ => false), inp)
  }

  /** The value of `e` depends neither on the `n` latches nor on the level of the clock. */
  ghost predicate Steady(e: Expr, n: nat) {
    forall regs, q: seq<bool>, q': seq<bool>, inp :: |q| == |q'| == n ==> SteadyAt(e, regs, q, q', inp)
  }

  predicate SteadyAt(e: Expr, regs: seq<bool>, q: seq<bool>, q': seq<bool>, inp: seq<bool>) {
    Eval(e, true, regs, q, inp) == Eval(e, false, regs, q', inp)
  }

  /** One more than the greatest input read. */
  function Inputs(e: Expr): (n: nat) {
    match e
    case In(i) => i + 1
    case Not(x) => Inputs(x)
    case And(a, b) => if Inputs(a) > Inputs(b) then Inputs(a) else Inputs(b)
    case Or(a, b) => if Inputs(a) > Inputs(b) then Inputs(a) else Inputs(b)
    case _ => 0
  }

  lemma {:induction false} InputsOnly(e: Expr, clk: bool, regs: seq<bool>, q: seq<bool>, inp: seq<bool>, inp': seq<bool>)
    requires forall i: nat :: i < Inputs(e) ==> At(inp, i) == At(inp', i)
    ensures Eval(e, clk, regs, q, inp) == Eval(e, clk, regs, q, inp')
  {
    match e
    case Not(x) => InputsOnly(x, clk, regs, q, inp, inp');
    case And(a, b) => InputsOnly(a, clk, regs, q, inp, inp'); InputsOnly(b, clk, regs, q, inp, inp');
    case Or(a, b) => InputsOnly(a, clk, regs, q, inp, inp'); InputsOnly(b, clk, regs, q, inp, inp');
    case _ =>
  }

  /** Registers that hold, and latches on inputs of their own from `m` on. */
  function Probe(f: nat, n: nat, m: nat): (c: Circuit)
    ensures |c.flops| == f && |c.cones| == n && Accepts(c)
  {
    Circuit(seq(f, i requires 0 <= i < f => Flop(Base, Reg(i))),
            seq(n, k requires 0 <= k < n => Cone(Latch(false, false), In(m + k))))
  }

  /** The inputs of `e` below `m`, the latch inputs after them. */
  function Given(m: nat, inp: seq<bool>, q: seq<bool>): (r: seq<bool>) {
    seq(m, i requires 0 <= i < m => At(inp, i)) + q
  }

  /** Raise the clock with the latches at `q`, then bring their inputs to `q'`. */
  lemma ProbeRun(f: nat, n: nat, m: nat, regs: seq<bool>, q: seq<bool>, q': seq<bool>, inp: seq<bool>)
    requires |regs| == f && |q| == |q'| == n
    ensures var c, es := Probe(f, n, m), [Edge, Drive(Given(m, inp, q'))];
      && LatchedRun(c, PowerOn(c, regs, Given(m, inp, q)), es) == Latched(true, regs, q, Given(m, inp, q'))
      && var y := EnabledRun(Rewrite(c), Ready(c, regs, Given(m, inp, q)), es);
      y.clk && y.regs == regs && y.inp == Given(m, inp, q')
  {
    var c, es := Probe(f, n, m), [Edge, Drive(Given(m, inp, q'))];
    var o, y := PowerOn(c, regs, Given(m, inp, q)), Ready(c, regs, Given(m, inp, q));
    assert o.q == q;
    RiseStep(c, o);
    assert Capture(c, o, o.(clk := true)) == regs;
    QuietStep(c, LatchedStep(c, o, Edge), es[1]);
    assert LatchedStep(c, LatchedStep(c, o, Edge), es[1]).q == q;
    assert EnabledStep(Rewrite(c), y, Edge).regs == regs;
    TwoEvents(c, o, y, es[0], es[1]);
  }

  lemma TwoEvents(c: Circuit, o: Latched, n: Enabled, e: Event, f: Event)
    ensures LatchedRun(c, o, [e, f]) == LatchedStep(c, LatchedStep(c, o, e), f)
    ensures EnabledRun(Rewrite(c), n, [e, f]) == EnabledStep(Rewrite(c), EnabledStep(Rewrite(c), n, e), f)
  {
    assert [e, f][..1] == [e] && [e][..0] == [];
    assert LatchedRun(c, o, [e]) == LatchedStep(c, LatchedRun(c, o, []), e);
    assert EnabledRun(Rewrite(c), n, [e]) == EnabledStep(Rewrite(c), EnabledRun(Rewrite(c), n, []), e);
  }

  /** So an output that is sound is steady. */
  lemma SoundSteady(e: Expr, regs: seq<bool>, q: seq<bool>, q': seq<bool>, inp: seq<bool>)
    requires |q| == |q'| && OutputSound(e, |q|)
    ensures SteadyAt(e, regs, q, q', inp)
  {
    var m := Inputs(e);
    var c, end := Probe(|regs|, |q|, m), Given(m, inp, q');
    ProbeRun(|regs|, |q|, m, regs, q, q', inp);
    assert OutputRuns(c, e, regs, Given(m, inp, q), [Edge, Drive(end)]);
    forall k | 0 <= k < |q'| ensures q'[k] == Eval(c.cones[k].en, false, regs, [], end) {}
    ConnectMeans(c, e, regs, q', end);
    InputsOnly(e, true, regs, q, inp, end);
    InputsOnly(e, false, regs, q', inp, end);
  }

  /** An output agrees in both phases, over all accepted circuits and runs, exactly when its value depends neither
      on the latches nor on the level of the clock. */
  lemma OutputExact(e: Expr, n: nat)
    ensures OutputSound(e, n) <==> Steady(e, n)
  {
    if Steady(e, n) {
      forall c: Circuit, regs: seq<bool>, inp: seq<bool>, es: seq<Event> |
        Accepts(c) && |c.cones| == n && |regs| == |c.flops|
        ensures OutputRuns(c, e, regs, inp, es)
      {
        SteadyRuns(c, e, regs, inp, es);
      }
    }
    if OutputSound(e, n) {
      forall regs, q: seq<bool>, q': seq<bool>, inp | |q| == |q'| == n ensures SteadyAt(e, regs, q, q', inp) {
        SoundSteady(e, regs, q, q', inp);
      }
    }
  }

  lemma SteadyRuns(c: Circuit, e: Expr, regs: seq<bool>, inp: seq<bool>, es: seq<Event>)
    requires Accepts(c) && |regs| == |c.flops| && Steady(e, |c.cones|)
    ensures OutputRuns(c, e, regs, inp, es)
  {
    var o, n := PowerOn(c, regs, inp), Ready(c, regs, inp);
    PowerOnRelated(c, false, regs, inp, n.hold);
    RewriteCorrect(c, o, n, es);
    var x, y := LatchedRun(c, o, es), EnabledRun(Rewrite(c), n, es);
    if x.clk {
      var q := seq(|c.cones|, k requires 0 <= k < |c.cones| => Eval(c.cones[k].en, false, x.regs, [], x.inp));
      ConnectMeans(c, e, x.regs, q, x.inp);
      assert SteadyAt(e, x.regs, x.q, q, x.inp);
    }
  }

  /** A latch or the clock itself on an output does not agree. */
  lemma LatchOutputWrong(k: nat, n: nat)
    ensures k < n ==> !OutputSound(LatchQ(k), n)
    ensures !OutputSound(Clk, n)
  {
    OutputExact(Clk, n);
    var ones, zeros := seq(n, _ => true), seq(n, _ => false);
    assert !SteadyAt(Clk, [], zeros, zeros, []);
    if k < n {
      OutputExact(LatchQ(k), n);
      assert !SteadyAt(LatchQ(k), [], ones, zeros, []);
    }
  }

  /** An output that mentions neither does. */
  predicate Mentions(e: Expr) {
    match e
    case LatchQ(_) => true
    case Clk => true
    case Not(x) => Mentions(x)
    case And(a, b) => Mentions(a) || Mentions(b)
    case Or(a, b) => Mentions(a) || Mentions(b)
    case _ => false
  }

  lemma {:induction false} PlainSteady(e: Expr, regs: seq<bool>, q: seq<bool>, q': seq<bool>, inp: seq<bool>)
    requires !Mentions(e)
    ensures SteadyAt(e, regs, q, q', inp)
  {
    match e
    case Not(x) => PlainSteady(x, regs, q, q', inp);
    case And(a, b) => PlainSteady(a, regs, q, q', inp); PlainSteady(b, regs, q, q', inp);
    case Or(a, b) => PlainSteady(a, regs, q, q', inp); PlainSteady(b, regs, q, q', inp);
    case _ =>
  }

  lemma PlainOutputs(e: Expr, n: nat)
    requires !Mentions(e)
    ensures OutputSound(e, n)
  {
    forall regs, q: seq<bool>, q': seq<bool>, inp | |q| == |q'| == n ensures SteadyAt(e, regs, q, q', inp) {
      PlainSteady(e, regs, q, q', inp);
    }
    OutputExact(e, n);
  }
}
