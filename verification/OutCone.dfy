/** Output cones. */
module OutCone {
  // Output cones: which outputs each cell feeds, the evaluation that skips cells feeding only
  // dead outputs, and the fused clock edge that recomputes only the cones.

  import opened Netlist
  import opened Clocking

  // ---------------------------------------------------------------- feed masks

  const MASK_BITS := 256

  type Mask = set<nat>

  predicate InMask(i: nat) { i < MASK_BITS }

  function FullMask(): (m: Mask)
    ensures forall i: nat :: i in m <==> i < MASK_BITS
  {
    set i: nat | i < MASK_BITS && InMask(i)
  }

  /** Output numbers beyond the mask saturate it. */
  function SetBit(m: Mask, o: nat): Mask {
    if o < MASK_BITS then m + {o} else FullMask()
  }

  /** Output numbers beyond the mask are reported present. */
  predicate HasBit(m: Mask, o: nat) {
    o < MASK_BITS ==> o in m
  }

  datatype Analysis = Analysis(feeds: seq<Mask>, cone: set<nat>, regs: set<nat>)

  function DriverFrom(d: Design, b: nat, c: nat): (r: nat)
    requires c <= |d.cells|
    ensures r <= |d.cells|
    ensures r < |d.cells| ==> Drives(d, r, b)
    ensures forall k: nat :: c <= k < r ==> !Drives(d, k, b)
    decreases |d.cells| - c
  {
    if c == |d.cells| || b in d.cells[c].outs then c else DriverFrom(d, b, c + 1)
  }

  /** The cell driving bit `b`, or `|d.cells|` when there is none. */
  function DriverOf(d: Design, b: nat): (r: nat)
    ensures r <= |d.cells|
    ensures r < |d.cells| ==> Drives(d, r, b)
    ensures r == |d.cells| ==> !Driven(d, b)
  {
    DriverFrom(d, b, 0)
  }

  function NetBits(ss: seq<Sig>): (r: seq<nat>)
    ensures forall b: nat :: b in r <==> Net(b) in ss
  {
    if ss == [] then []
    else if ss[0].Net? then [ss[0].bit] + NetBits(ss[1..])
    else NetBits(ss[1..])
  }

  function Unseen(d: Design, seen: set<nat>): set<nat> {
    set b: nat | b < |d.wireOf| && b !in seen
  }

  /** The backward walk from one output: `wl` is the worklist, last entry first. */
  function Walk(d: Design, o: nat, wl: seq<nat>, seen: set<nat>, a: Analysis): (r: Analysis)
    requires |a.feeds| == |d.cells|
    ensures |r.feeds| == |d.cells|
    decreases Unseen(d, seen), |wl|
  {
    if wl == [] then a
    else
      var b, rest := wl[|wl|-1], wl[..|wl|-1];
      if b in seen || b >= |d.wireOf| then Walk(d, o, rest, seen, a)
      else
        assert b in Unseen(d, seen);
        var seen' := seen + {b};
        match KindOf(d, b)
        case Register => Walk(d, o, rest, seen', a.(regs := a.regs + {d.wireOf[b]}))
        case Input => Walk(d, o, rest, seen', a)
        case Comb =>
          var c := DriverOf(d, b);
          if c == |d.cells| || (HasBit(a.feeds[c], o) && c in a.cone) then Walk(d, o, rest, seen', a)
          else
            var a' := a.(feeds := a.feeds[c := SetBit(a.feeds[c], o)], cone := a.cone + {c});
            Walk(d, o, rest + NetBits(d.cells[c].ins), seen', a')
  }

  function AnalyzeUpTo(d: Design, n: nat): (r: Analysis)
    requires n <= |d.outputs|
    ensures |r.feeds| == |d.cells|
  {
    if n == 0 then Analysis(seq(|d.cells|, _ => {}), {}, {})
    else Walk(d, n - 1, d.outputs[n-1], {}, AnalyzeUpTo(d, n - 1))
  }

  function Analyze(d: Design): (r: Analysis)
    ensures |r.feeds| == |d.cells|
  {
    AnalyzeUpTo(d, |d.outputs|)
  }

  /** The emitter's nested worklist loops. */
  method ComputeFeeds(d: Design) returns (a: Analysis)
    ensures a == Analyze(d)
  {
    a := Analysis(seq(|d.cells|, _ => {}), {}, {});
    var o := 0;
    while o < |d.outputs|
      invariant 0 <= o <= |d.outputs|
      invariant a == AnalyzeUpTo(d, o)
    {
      var wl := d.outputs[o];
      var seen: set<nat> := {};
      while wl != []
        invariant |a.feeds| == |d.cells|
        invariant Walk(d, o, wl, seen, a) == AnalyzeUpTo(d, o + 1)
        decreases Unseen(d, seen), |wl|
      {
        var b := wl[|wl|-1];
        wl := wl[..|wl|-1];
        if b in seen || b >= |d.wireOf| { continue; }
        assert b in Unseen(d, seen);
        seen := seen + {b};
        match KindOf(d, b)
        case Register => a := a.(regs := a.regs + {d.wireOf[b]});
        case Input =>
        case Comb =>
          var c := DriverOf(d, b);
          if c < |d.cells| && !(HasBit(a.feeds[c], o) && c in a.cone) {
            a := a.(feeds := a.feeds[c := SetBit(a.feeds[c], o)], cone := a.cone + {c});
            wl := wl + NetBits(d.cells[c].ins);
          }
      }
      o := o + 1;
    }
  }

  // ---------------------------------------------------------------- closure

  /** What must be covered once bit `b` has been reached from output `o`. */
  ghost predicate Reached(d: Design, a: Analysis, o: nat, b: nat)
    requires |a.feeds| == |d.cells|
  {
    && (forall c: nat :: Drives(d, c, b) ==> o in a.feeds[c])
    && (KindOf(d, b) == Register ==> d.wireOf[b] in a.regs)
  }

  /** The set of cells feeding output `o` is closed under predecessors. */
  ghost predicate ClosedFor(d: Design, a: Analysis, o: nat) {
    && |a.feeds| == |d.cells| && o < |d.outputs|
    && (forall b :: b in d.outputs[o] && b < |d.wireOf| ==> Reached(d, a, o, b))
    && (forall c: nat, b: nat :: Reads(d, c, b) && o in a.feeds[c] ==> b < |d.wireOf| && Reached(d, a, o, b))
  }

  ghost predicate ConeIsFed(a: Analysis) {
    forall c: nat :: c < |a.feeds| ==> (c in a.cone <==> a.feeds[c] != {})
  }

  ghost predicate Grown(a: Analysis, r: Analysis, o: nat) {
    && |r.feeds| == |a.feeds|
    && a.regs <= r.regs && a.cone <= r.cone
    && forall c: nat :: c < |a.feeds| ==> r.feeds[c] == a.feeds[c] || r.feeds[c] == a.feeds[c] + {o}
  }

  lemma {:induction false} WalkCloses(d: Design, o: nat, wl: seq<nat>, seen: set<nat>, a: Analysis)
    requires WellFormed(d) && |a.feeds| == |d.cells| && o < MASK_BITS && ConeIsFed(a)
    requires forall b :: b in seen ==> b < |d.wireOf| && Reached(d, a, o, b)
    requires forall c: nat, b: nat :: Reads(d, c, b) && o in a.feeds[c] ==> b in seen || b in wl
    ensures var r := Walk(d, o, wl, seen, a);
      && Grown(a, r, o) && ConeIsFed(r)
      && (forall b :: (b in wl && b < |d.wireOf|) || b in seen ==> Reached(d, r, o, b))
      && (forall c: nat, b: nat :: Reads(d, c, b) && o in r.feeds[c] ==> b < |d.wireOf| && Reached(d, r, o, b))
    decreases Unseen(d, seen), |wl|
  {
    if wl == [] { return; }
    var b, rest := wl[|wl|-1], wl[..|wl|-1];
    assert wl == rest + [b];
    if b in seen || b >= |d.wireOf| {
      WalkCloses(d, o, rest, seen, a);
      return;
    }
    assert b in Unseen(d, seen);
    var seen' := seen + {b};
    match KindOf(d, b)
    case Register => WalkCloses(d, o, rest, seen', a.(regs := a.regs + {d.wireOf[b]}));
    case Input => WalkCloses(d, o, rest, seen', a);
    case Comb =>
      var c := DriverOf(d, b);
      if c == |d.cells| || (HasBit(a.feeds[c], o) && c in a.cone) {
        WalkCloses(d, o, rest, seen', a);
      } else {
        var a' := a.(feeds := a.feeds[c := SetBit(a.feeds[c], o)], cone := a.cone + {c});
        var wl' := rest + NetBits(d.cells[c].ins);
        forall x | x in seen' ensures x < |d.wireOf| && Reached(d, a', o, x) {
          if x != b { assert Reached(d, a, o, x); }
        }
        forall k: nat, x: nat | Reads(d, k, x) && o in a'.feeds[k] ensures x in seen' || x in wl' {
          if k == c { assert Net(x) in d.cells[c].ins; }
        }
        WalkCloses(d, o, wl', seen', a');
        assert Reached(d, Walk(d, o, wl', seen', a'), o, b);
      }
  }

  lemma ReachedMono(d: Design, a: Analysis, r: Analysis, o: nat, k: nat)
    requires Grown(a, r, k) && o != k && ClosedFor(d, a, o) && o < |d.outputs|
    ensures ClosedFor(d, r, o)
  {
    forall b: nat | b < |d.wireOf| && Reached(d, a, o, b) ensures Reached(d, r, o, b) {}
  }

  /** With at most 256 outputs every feed set is closed under predecessors. */
  lemma {:induction false} AnalysisCloses(d: Design, n: nat)
    requires WellFormed(d) && n <= |d.outputs| <= MASK_BITS
    ensures var a := AnalyzeUpTo(d, n);
      && ConeIsFed(a)
      && (forall o :: 0 <= o < n ==> ClosedFor(d, a, o))
      && (forall c: nat, o: nat :: c < |d.cells| && o in a.feeds[c] ==> o < n)
  {
    if n == 0 {
    } else {
      var before, o := AnalyzeUpTo(d, n - 1), n - 1;
      AnalysisCloses(d, o);
      WalkCloses(d, o, d.outputs[o], {}, before);
      var a := AnalyzeUpTo(d, n);
      assert Grown(before, a, o);
      forall k | 0 <= k < n ensures ClosedFor(d, a, k) {
        if k < o { ReachedMono(d, before, a, k, o); }
      }
    }
  }

  // ---------------------------------------------------------------- the pruned schedule

  /** The first `n` cells of `order` that are in `keep`. */
  function FilterTo(order: seq<nat>, keep: set<nat>, n: nat): (r: seq<nat>)
    requires n <= |order|
    ensures forall c :: c in r <==> c in keep && exists i :: 0 <= i < n && order[i] == c
  {
    if n == 0 then []
    else FilterTo(order, keep, n - 1) + (if order[n-1] in keep then [order[n-1]] else [])
  }

  function Filter(order: seq<nat>, keep: set<nat>): (r: seq<nat>)
    ensures forall c :: c in r <==> c in order && c in keep
  {
    FilterTo(order, keep, |order|)
  }

  /** What stands before a kept element in `order` and is kept stands before it in the filtered list. */
  lemma {:induction false} FilterKeepsOrder(order: seq<nat>, keep: set<nat>, n: nat, i: nat) returns (j: nat)
    requires n <= |order| && i < |FilterTo(order, keep, n)|
    ensures j < n && order[j] == FilterTo(order, keep, n)[i]
    ensures forall p :: p in order[..j] && p in keep ==> p in FilterTo(order, keep, n)[..i]
    decreases n
  {
    var f := FilterTo(order, keep, n - 1);
    if i < |f| {
      j := FilterKeepsOrder(order, keep, n - 1, i);
      assert FilterTo(order, keep, n)[..i] == f[..i];
    } else {
      j := n - 1;
      assert FilterTo(order, keep, n)[..i] == f;
    }
  }

  predicate Exclusive(m: Mask) { |m| == 1 }

  function SharedCells(a: Analysis): set<nat> {
    set c | c in a.cone && c < |a.feeds| && !Exclusive(a.feeds[c])
  }

  function Bucket(a: Analysis, o: nat): set<nat> {
    set c | c in a.cone && c < |a.feeds| && Exclusive(a.feeds[c]) && o in a.feeds[c]
  }

  predicate Live(live: seq<bool>, o: nat) {
    o < MASK_BITS && o < |live| ==> live[o]
  }

  /** The groups the pruned code runs: shared cells, then the bucket of each live output. */
  function Groups(d: Design, a: Analysis, live: seq<bool>): (r: seq<set<nat>>)
    ensures |r| == |d.outputs| + 1 && r[0] == SharedCells(a)
    ensures forall o: nat :: o < |d.outputs| ==>
      r[o + 1] == if o < MASK_BITS && Live(live, o) then Bucket(a, o) else {}
  {
    [SharedCells(a)] + seq(|d.outputs|, o requires 0 <= o < |d.outputs| =>
      if o < MASK_BITS && Live(live, o) then Bucket(a, o) else {})
  }

  /** The first `n` groups, each in the order of `order`. */
  function Concat(order: seq<nat>, groups: seq<set<nat>>, n: nat): (r: seq<nat>)
    requires n <= |groups|
  {
    if n == 0 then [] else Concat(order, groups, n - 1) + Filter(order, groups[n-1])
  }

  function Pruned(d: Design, a: Analysis, order: seq<nat>, live: seq<bool>): (r: seq<nat>)
  {
    Concat(order, Groups(d, a, live), |d.outputs| + 1)
  }

  lemma {:induction false} ConcatHas(order: seq<nat>, groups: seq<set<nat>>, n: nat, g: nat, c: nat)
    requires g < n <= |groups| && c in order && c in groups[g]
    ensures c in Concat(order, groups, n)
    decreases n
  {
    if g < n - 1 { ConcatHas(order, groups, n - 1, g, c); }
    else { assert c in Filter(order, groups[g]); }
  }

  lemma {:induction false} ConcatFrom(order: seq<nat>, groups: seq<set<nat>>, n: nat, c: nat)
    requires n <= |groups| && c in Concat(order, groups, n)
    ensures c in order && exists g :: 0 <= g < n && c in groups[g]
    decreases n
  {
    if c in Concat(order, groups, n - 1) { ConcatFrom(order, groups, n - 1, c); }
    else { assert c in Filter(order, groups[n-1]); }
  }

  lemma SingletonMask(m: Mask, x: nat, y: nat)
    requires Exclusive(m) && x in m && y in m
    ensures x == y
  {
    if x != y { assert |m| >= |{x, y}| by { SubsetCard({x, y}, m); } }
  }

  lemma SubsetCard(s: set<nat>, t: set<nat>)
    requires s <= t
    ensures |s| <= |t|
  {
    if s != {} {
      var x :| x in s;
      SubsetCard(s - {x}, t - {x});
    }
  }

  /** A predecessor of a cell the pruned code runs is shared or in the same bucket. */
  lemma DriverKept(d: Design, a: Analysis, c: nat, p: nat, b: nat)
    requires WellFormed(d) && ConeIsFed(a) && |a.feeds| == |d.cells|
    requires Reads(d, c, b) && Drives(d, p, b) && c in a.cone
    requires forall o: nat :: o in a.feeds[c] ==> ClosedFor(d, a, o)
    ensures a.feeds[c] <= a.feeds[p]
    ensures c in SharedCells(a) ==> p in SharedCells(a)
    ensures forall o :: c in Bucket(a, o) ==> p in SharedCells(a) || p in Bucket(a, o)
  {
    forall o | o in a.feeds[c] ensures o in a.feeds[p] {
      assert ClosedFor(d, a, o);
      assert Reached(d, a, o, b);
    }
    if c in SharedCells(a) && p !in SharedCells(a) {
      SubsetCard(a.feeds[c], a.feeds[p]);
    }
  }

  /** Within one filtered part the order of `order` is kept. */
  lemma PartReady(d: Design, order: seq<nat>, keep: set<nat>, i: nat, p: nat, b: nat)
    requires Topological(d, order)
    requires i < |Filter(order, keep)| && Reads(d, Filter(order, keep)[i], b) && Drives(d, p, b) && p in keep
    ensures p in Filter(order, keep)[..i]
  {
    var j := FilterKeepsOrder(order, keep, |order|, i);
    assert ReadyAt(d, order, j);
  }

  /** Every non-empty feed set is closed under predecessors. */
  ghost predicate WellFed(d: Design, a: Analysis) {
    && |a.feeds| == |d.cells| && ConeIsFed(a)
    && forall c: nat, o: nat :: c < |d.cells| && o in a.feeds[c] ==> ClosedFor(d, a, o)
  }

  /** Every cell of the list finds its predecessors before it in the list. */
  ghost predicate ReadyList(d: Design, list: seq<nat>) {
    forall i, b: nat, p: nat :: 0 <= i < |list| && Reads(d, list[i], b) && Drives(d, p, b) ==> p in list[..i]
  }

  lemma AppendReady(d: Design, xs: seq<nat>, ys: seq<nat>)
    requires ReadyList(d, xs)
    requires forall k, b: nat, p: nat ::
      0 <= k < |ys| && Reads(d, ys[k], b) && Drives(d, p, b) ==> p in xs || p in ys[..k]
    ensures ReadyList(d, xs + ys)
  {
    var list := xs + ys;
    forall i, b: nat, p: nat | 0 <= i < |list| && Reads(d, list[i], b) && Drives(d, p, b)
      ensures p in list[..i]
    {
      if i < |xs| { assert list[..i] == xs[..i]; }
      else { assert list[..i] == xs + ys[..i - |xs|] && list[i] == ys[i - |xs|]; }
    }
  }

  /** Group `g` is closed under predecessors, up to earlier groups. */
  ghost predicate GroupClosed(d: Design, groups: seq<set<nat>>, g: nat)
    requires g < |groups|
  {
    forall c: nat, b: nat, p: nat :: c in groups[g] && Reads(d, c, b) && Drives(d, p, b) ==>
      p in groups[g] || exists k :: 0 <= k < g && p in groups[k]
  }

  /** Closed groups concatenate to a ready list. */
  lemma {:induction false} ConcatReady(d: Design, order: seq<nat>, groups: seq<set<nat>>, n: nat)
    requires Topological(d, order) && n <= |groups|
    requires forall g :: 0 <= g < n ==> GroupClosed(d, groups, g)
    ensures ReadyList(d, Concat(order, groups, n))
    decreases n
  {
    if n == 0 {
    } else {
      ConcatReady(d, order, groups, n - 1);
      var before, keep := Concat(order, groups, n - 1), groups[n-1];
      var part := Filter(order, keep);
      assert GroupClosed(d, groups, n - 1);
      forall k, b: nat, p: nat | 0 <= k < |part| && Reads(d, part[k], b) && Drives(d, p, b)
        ensures p in before || p in part[..k]
      {
        assert part[k] in part;
        if p in keep {
          PartReady(d, order, keep, k, p, b);
        } else {
          var g :| 0 <= g < n - 1 && p in groups[g];
          assert p in order;
          ConcatHas(order, groups, n - 1, g, p);
        }
      }
      AppendReady(d, before, part);
    }
  }

  lemma PrunedReady(d: Design, a: Analysis, order: seq<nat>, live: seq<bool>)
    requires WellFormed(d) && Topological(d, order) && WellFed(d, a)
    ensures ReadyList(d, Pruned(d, a, order, live))
  {
    var groups := Groups(d, a, live);
    forall g | 0 <= g < |groups| ensures GroupClosed(d, groups, g) {
      forall c: nat, b: nat, p: nat | c in groups[g] && Reads(d, c, b) && Drives(d, p, b)
        ensures p in groups[g] || exists k :: 0 <= k < g && p in groups[k]
      {
        assert g > 0 ==> groups[g] == groups[(g - 1) + 1];
        DriverKept(d, a, c, p, b);
        assert p in SharedCells(a) ==> p in groups[0];
      }
    }
    ConcatReady(d, order, groups, |groups|);
  }

  /** The pruned list holds only cone cells ... */
  lemma PrunedInCone(d: Design, a: Analysis, order: seq<nat>, live: seq<bool>, c: nat)
    requires c in Pruned(d, a, order, live)
    ensures c in order && c in a.cone && c < |a.feeds|
  {
    var groups := Groups(d, a, live);
    ConcatFrom(order, groups, |groups|, c);
    var g :| 0 <= g < |groups| && c in groups[g];
    assert g > 0 ==> groups[g] == groups[(g - 1) + 1];
  }

  /** ... and all those that feed a live output. */
  lemma PrunedHas(d: Design, a: Analysis, order: seq<nat>, live: seq<bool>, o: nat, c: nat)
    requires o < |d.outputs| <= MASK_BITS && Live(live, o)
    requires c in order && c in a.cone && c < |a.feeds| && o in a.feeds[c]
    ensures c in Pruned(d, a, order, live)
  {
    var groups := Groups(d, a, live);
    ConcatHas(order, groups, |groups|, if Exclusive(a.feeds[c]) then o + 1 else 0, c);
  }

  // ---------------------------------------------------------------- correctness

  /** An environment good enough to start a cone evaluation from: undriven combinational bits,
      inputs and the refreshed registers have the right values; anything else may be stale. */
  predicate Stale(d: Design, a: Analysis, b: nat) {
    KindOf(d, b) == Register && !(b < |d.wireOf| && d.wireOf[b] in a.regs)
  }

  ghost predicate ConeReady(d: Design, a: Analysis, env: Env, sol: Env) {
    && |env| == |sol| == |d.wireOf|
    && forall b: nat :: b < |env| && !Driven(d, b) && !Stale(d, a, b) ==> env[b] == sol[b]
  }

  /** What a cell of the pruned list reads is driven earlier in the list or right from the start. */
  lemma PrunedReads(d: Design, order: seq<nat>, live: seq<bool>, env: Env, sol: Env, list: seq<nat>, i: nat, b: nat)
    requires WellFormed(d) && Topological(d, order) && |d.outputs| <= MASK_BITS
    requires list == Pruned(d, Analyze(d), order, live) && ConeReady(d, Analyze(d), env, sol)
    requires i < |list| && Reads(d, list[i], b)
    ensures b < |env| && (env[b] == sol[b] || exists k :: 0 <= k < i && Drives(d, list[k], b))
  {
    var a := Analyze(d);
    AnalysisCloses(d, |d.outputs|);
    PrunedInCone(d, a, order, live, list[i]);
    if Driven(d, b) {
      PrunedReady(d, a, order, live);
      assert ReadyAt(d, list, i);
      var p: nat :| Drives(d, p, b);
      var k :| 0 <= k < i && list[k] == p;
      assert Drives(d, list[k], b);
    } else {
      var x :| x in a.feeds[list[i]];
      assert ClosedFor(d, a, x);
      assert Reached(d, a, x, b);
    }
  }

  /** Running the pruned list makes every cell in it right and spoils nothing. */
  lemma PrunedRight(d: Design, order: seq<nat>, live: seq<bool>, env: Env, mem: Mem, sol: Env, b: nat)
    requires WellFormed(d) && Topological(d, order) && |d.outputs| <= MASK_BITS
    requires ConeReady(d, Analyze(d), env, sol) && b < |env|
    requires forall c: nat :: c < |d.cells| ==> Holds(d, c, sol, mem)
    requires env[b] == sol[b] || exists p: nat :: p in Pruned(d, Analyze(d), order, live) && Drives(d, p, b)
    ensures Sweep(d, Pruned(d, Analyze(d), order, live), env, mem)[b] == sol[b]
  {
    var list := Pruned(d, Analyze(d), order, live);
    OrderInRange(d, order);
    forall i | 0 <= i < |list| ensures list[i] < |d.cells| {
      PrunedInCone(d, Analyze(d), order, live, list[i]);
    }
    forall i, b: nat | 0 <= i < |list| && Reads(d, list[i], b)
      ensures env[b] == sol[b] || exists k :: 0 <= k < i && Drives(d, list[k], b)
    {
      PrunedReads(d, order, live, env, sol, list, i, b);
    }
    RunRight(d, list, |list|, env, mem, sol);
    if env[b] != sol[b] {
      var p: nat :| p in list && Drives(d, p, b);
      var k :| 0 <= k < |list| && list[k] == p;
      assert Drives(d, list[k], b);
    }
  }

  /** Running the pruned list gives every live output its full-evaluation value. */
  lemma PrunedOutputs(d: Design, order: seq<nat>, live: seq<bool>, env: Env, mem: Mem, sol: Env, o: nat)
    requires WellFormed(d) && Topological(d, order) && |d.outputs| <= MASK_BITS
    requires ConeReady(d, Analyze(d), env, sol)
    requires forall c: nat :: c < |d.cells| ==> Holds(d, c, sol, mem)
    requires o < |d.outputs| && Live(live, o)
    ensures PortBits(d, Sweep(d, Pruned(d, Analyze(d), order, live), env, mem), o) == PortBits(d, sol, o)
  {
    var a := Analyze(d);
    AnalysisCloses(d, |d.outputs|);
    var e := Sweep(d, Pruned(d, a, order, live), env, mem);
    assert ClosedFor(d, a, o);
    forall k | 0 <= k < |d.outputs[o]|
      ensures Value(Net(d.outputs[o][k]), e) == Value(Net(d.outputs[o][k]), sol)
    {
      var b := d.outputs[o][k];
      if b < |d.wireOf| {
        assert Reached(d, a, o, b);
        if Driven(d, b) {
          var p: nat :| Drives(d, p, b);
          assert p in order;
          PrunedHas(d, a, order, live, o, p);
        }
        PrunedRight(d, order, live, env, mem, sol, b);
      }
    }
  }

  /** Dead-output pruning: starting from the prologue, every live output equals full evaluation. */
  lemma PruningCorrect(d: Design, order: seq<nat>, live: seq<bool>, st: Env, inp: Env, mem: Mem, o: nat)
    requires WellFormed(d) && Topological(d, order) && |d.outputs| <= MASK_BITS
    requires o < |d.outputs| && Live(live, o)
    ensures PortBits(d, Sweep(d, Pruned(d, Analyze(d), order, live), Base(d, st, inp), mem), o) ==
            PortBits(d, Eval(d, order, st, inp, mem), o)
  {
    SweepSolves(d, order, Base(d, st, inp), mem);
    PrunedOutputs(d, order, live, Base(d, st, inp), mem, Eval(d, order, st, inp, mem), o);
  }

  /** The register aliases after the edge: only registers the cones read are refreshed. */
  function Refresh(d: Design, a: Analysis, env: Env, st: Env): (r: Env) {
    seq(|env|, b requires 0 <= b < |env| =>
      if KindOf(d, b) == Register && b < |d.wireOf| && d.wireOf[b] in a.regs then b < |st| && st[b] else env[b])
  }

  /** What the emitted fused edge leaves in its local wires. */
  function FusedEnv(d: Design, order: seq<nat>, live: seq<bool>, st: Env, inp: Env, mem: Mem): (r: Env) {
    var pre := Eval(d, order, st, inp, mem);
    var a := Analyze(d);
    Sweep(d, Pruned(d, a, order, live), Refresh(d, a, pre, NextState(d, pre, st)), NextMem(d, pre, mem))
  }

  /** The fused edge: the live outputs it leaves are those of a full evaluation of the
      post-edge state and memories, although all other wires are still pre-edge. */
  lemma FusedEdgeCorrect(d: Design, order: seq<nat>, live: seq<bool>, st: Env, inp: Env, mem: Mem, o: nat)
    requires WellFormed(d) && Topological(d, order) && |d.outputs| <= MASK_BITS && |st| == |d.wireOf|
    requires o < |d.outputs| && Live(live, o)
    ensures var pre := Eval(d, order, st, inp, mem);
      PortBits(d, FusedEnv(d, order, live, st, inp, mem), o) ==
      PortBits(d, Eval(d, order, NextState(d, pre, st), inp, NextMem(d, pre, mem)), o)
  {
    var pre := Eval(d, order, st, inp, mem);
    var st', mem', a := NextState(d, pre, st), NextMem(d, pre, mem), Analyze(d);
    var sol := Eval(d, order, st', inp, mem');
    SweepSolves(d, order, Base(d, st, inp), mem);
    SweepSolves(d, order, Base(d, st', inp), mem');
    var env := Refresh(d, a, pre, st');
    forall b: nat | b < |env| && !Driven(d, b) && !Stale(d, a, b)
      ensures env[b] == sol[b]
    {
      assert sol[b] == Base(d, st', inp)[b];
      assert pre[b] == Base(d, st, inp)[b];
    }
    PrunedOutputs(d, order, live, env, mem', sol, o);
  }

  lemma FusedOutputs(d: Design, order: seq<nat>, live: seq<bool>, st: Env, inp: Env, mem: Mem, prev: seq<seq<bool>>)
    requires WellFormed(d) && Topological(d, order) && |d.outputs| <= MASK_BITS && |st| == |d.wireOf|
    ensures var pre := Eval(d, order, st, inp, mem);
      EmitOutputs(d, FusedEnv(d, order, live, st, inp, mem), live, prev) ==
      EmitOutputs(d, Eval(d, order, NextState(d, pre, st), inp, NextMem(d, pre, mem)), live, prev)
  {
    forall o: nat | o < |d.outputs| && Live(live, o)
      ensures var pre := Eval(d, order, st, inp, mem);
        PortBits(d, FusedEnv(d, order, live, st, inp, mem), o) ==
        PortBits(d, Eval(d, order, NextState(d, pre, st), inp, NextMem(d, pre, mem)), o)
    {
      FusedEdgeCorrect(d, order, live, st, inp, mem, o);
    }
  }

  lemma OrderInRange(d: Design, order: seq<nat>)
    requires Topological(d, order)
    ensures forall c :: c in order ==> c < |d.cells|
  {
    forall c | c in order ensures c < |d.cells| {
      var i :| 0 <= i < |order| && order[i] == c;
    }
  }

  lemma PrunedInRange(d: Design, a: Analysis, order: seq<nat>, live: seq<bool>)
    requires Topological(d, order)
    ensures forall c :: c in Pruned(d, a, order, live) ==> c < |d.cells|
  {
    OrderInRange(d, order);
    forall c | c in Pruned(d, a, order, live) ensures c < |d.cells| {
      PrunedInCone(d, a, order, live, c);
    }
  }

  // ---------------------------------------------------------------- emitted code

  /** Live outputs are copied from the wires; dead ones keep what the caller's struct held. */
  function EmitOutputs(d: Design, env: Env, live: seq<bool>, prev: seq<seq<bool>>): (r: seq<seq<bool>>) {
    seq(|d.outputs|, o requires 0 <= o < |d.outputs| =>
      if Live(live, o) then PortBits(d, env, o) else if o < |prev| then prev[o] else [])
  }

  /** The outputs after a call, spelt out: each bit of an output is its net, but an output among the first 256 whose
      mask bit is given and clear keeps what the caller's struct held. */
  ghost predicate Emitted(d: Design, env: Env, live: seq<bool>, prev: seq<seq<bool>>, outs: seq<seq<bool>>) {
    && |outs| == |d.outputs|
    && forall o: nat :: o < |outs| ==>
      if o < 256 && o < |live| && !live[o] then outs[o] == if o < |prev| then prev[o] else []
      else |outs[o]| == |d.outputs[o]| && forall k :: 0 <= k < |outs[o]| ==>
        outs[o][k] == (d.outputs[o][k] < |env| && env[d.outputs[o][k]])
  }

  lemma EmitMeans(d: Design, env: Env, live: seq<bool>, prev: seq<seq<bool>>)
    ensures Emitted(d, env, live, prev, EmitOutputs(d, env, live, prev))
  {
    var outs := EmitOutputs(d, env, live, prev);
    forall o: nat | o < |outs| && Live(live, o) ensures |outs[o]| == |d.outputs[o]| && forall k :: 0 <= k < |outs[o]| ==>
      outs[o][k] == (d.outputs[o][k] < |env| && env[d.outputs[o][k]])
    {
      assert outs[o] == PortBits(d, env, o);
    }
  }

  method Prologue(d: Design, st: array<bool>, inp: Env) returns (vals: array<bool>)
    ensures fresh(vals) && vals[..] == Base(d, st[..], inp)
  {
    vals := new bool[|d.wireOf|](b requires 0 <= b < |d.wireOf| reads st =>
      match KindOf(d, b)
      case Input => b < |inp| && inp[b]
      case Register => b < st.Length && st[b]
      case Comb => false);
  }

  /** The emitted `sm_comb`: prologue, pruned cones, live outputs. */
  method SmComb(d: Design, a: Analysis, order: seq<nat>, live: seq<bool>,
                st: array<bool>, inp: Env, mem: Mem, prev: seq<seq<bool>>)
    returns (outs: seq<seq<bool>>)
    requires WellFormed(d) && Topological(d, order) && |d.outputs| <= MASK_BITS
    requires a == Analyze(d) && st.Length == |d.wireOf|
    ensures outs == EmitOutputs(d, Eval(d, order, st[..], inp, mem), live, prev)
    ensures Emitted(d, Eval(d, order, st[..], inp, mem), live, prev, outs)
  {
    EmitMeans(d, Eval(d, order, st[..], inp, mem), live, prev);
    var vals := Prologue(d, st, inp);
    var list := Pruned(d, a, order, live);
    PrunedInRange(d, a, order, live);
    RunCells(d, list, vals, mem);
    outs := EmitOutputs(d, vals[..], live, prev);
    forall o | 0 <= o < |d.outputs|
      ensures outs[o] == EmitOutputs(d, Eval(d, order, st[..], inp, mem), live, prev)[o]
    {
      if Live(live, o) { PruningCorrect(d, order, live, st[..], inp, mem, o); }
    }
  }

  method RefreshRegisters(d: Design, a: Analysis, vals: array<bool>, st: array<bool>)
    requires vals.Length == st.Length == |d.wireOf| && vals != st
    modifies vals
    ensures vals[..] == Refresh(d, a, old(vals[..]), st[..])
  {
    var b := 0;
    while b < vals.Length
      invariant 0 <= b <= vals.Length
      invariant forall k :: 0 <= k < vals.Length ==>
        vals[k] == if k < b then Refresh(d, a, old(vals[..]), st[..])[k] else old(vals[k])
    {
      if KindOf(d, b) == Register && d.wireOf[b] in a.regs { vals[b] := st[b]; }
      b := b + 1;
    }
  }

  /** The emitted `sm_clock_out`: full evaluation, commit, refresh, cones again. */
  method SmClockOut(d: Design, a: Analysis, order: seq<nat>, live: seq<bool>,
                    st: array<bool>, inp: Env, mem: Mem, prev: seq<seq<bool>>)
    returns (mem': Mem, outs: seq<seq<bool>>)
    requires WellFormed(d) && Topological(d, order) && |d.outputs| <= MASK_BITS
    requires a == Analyze(d) && st.Length == |d.wireOf|
    modifies st
    ensures var pre := Eval(d, order, old(st[..]), inp, mem);
      && st[..] == NextState(d, pre, old(st[..]))
      && mem' == NextMem(d, pre, mem)
      && outs == EmitOutputs(d, Eval(d, order, st[..], inp, mem'), live, prev)
  {
    ghost var st0 := st[..];
    var vals := Prologue(d, st, inp);
    OrderInRange(d, order);
    RunCells(d, order, vals, mem);
    var env := vals[..];
    CommitRegisters(d, env, st);
    mem' := CommitMemories(d, env, mem);
    RefreshRegisters(d, a, vals, st);
    var list := Pruned(d, a, order, live);
    PrunedInRange(d, a, order, live);
    RunCells(d, list, vals, mem');
    assert vals[..] == FusedEnv(d, order, live, st0, inp, mem);
    outs := EmitOutputs(d, vals[..], live, prev);
    FusedOutputs(d, order, live, st0, inp, mem, prev);
  }
}
