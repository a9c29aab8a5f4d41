/** The re-sorted order. */
module Resort {
  // The activity-guided re-sort of the emission order.
  //
  // The re-sort records one writer per wire, the last in the old order, and builds a new order by
  // Kahn's algorithm over the edges from recorded writers to readers, the most active ready cell
  // first.  When the edges form a cycle the old order is kept.  A wire driven slice by slice has
  // drivers that are not recorded.

  import opened Bits
  import opened Netlist

  predicate Writes(d: Design, c: nat, w: nat) {
    c < |d.cells| && exists j :: 0 <= j < |d.cells[c].outs| && IsWire(d, d.cells[c].outs[j], w)
  }

  predicate IsWire(d: Design, b: nat, w: nat) { b < |d.wireOf| && d.wireOf[b] == w }

  /** The writer recorded for wire `w` by the first `n` cells; `|d.cells|` when there is none. */
  function Recorded(d: Design, sorted: seq<nat>, n: nat, w: nat): (p: nat)
    requires n <= |sorted|
    ensures p < |d.cells| ==> p in sorted && Writes(d, p, w)
    decreases n
  {
    if n == 0 then |d.cells| else if Writes(d, sorted[n - 1], w) then sorted[n - 1] else Recorded(d, sorted, n - 1, w)
  }

  /** No two cells drive slices of one wire. */
  ghost predicate OneWriter(d: Design) {
    forall p: nat, q: nat, w: nat :: Writes(d, p, w) && Writes(d, q, w) ==> p == q
  }

  lemma {:induction false} RecordedSome(d: Design, sorted: seq<nat>, n: nat, w: nat, i: nat)
    requires i < n <= |sorted| && Writes(d, sorted[i], w)
    ensures Recorded(d, sorted, n, w) < |d.cells|
    decreases n
  {
    if i == n - 1 {
    } else {
      RecordedSome(d, sorted, n - 1, w, i);
    }
  }

  /** In a design with a dependency order no cell reads what it drives. */
  lemma NotOwnReader(d: Design, sorted: seq<nat>, c: nat, b: nat)
    requires Topological(d, sorted) && Reads(d, c, b)
    ensures !Drives(d, c, b)
  {
    assert c in sorted;
    var i :| 0 <= i < |sorted| && sorted[i] == c;
    assert ReadyAt(d, sorted, i);
  }

  /** `p` is the recorded writer of a wire that `c` reads. */
  predicate Edge(d: Design, sorted: seq<nat>, p: nat, c: nat) {
    p < |d.cells| && c < |d.cells| && p != c &&
    exists j :: 0 <= j < |d.cells[c].ins| && EdgeAt(d, sorted, p, d.cells[c].ins[j])
  }

  predicate EdgeAt(d: Design, sorted: seq<nat>, p: nat, x: Sig) {
    x.Net? && x.bit < |d.wireOf| && Recorded(d, sorted, |sorted|, d.wireOf[x.bit]) == p
  }

  // ---------------------------------------------------------------- Kahn's algorithm

  /** The writers of `c` not yet in the new order. */
  function Waiting(d: Design, sorted: seq<nat>, done: seq<nat>, c: nat): (ps: set<nat>) {
    set p: nat | p < |d.cells| && Edge(d, sorted, p, c) && p !in done
  }

  function ReadySet(d: Design, sorted: seq<nat>, done: seq<nat>): (cs: set<nat>) {
    set c: nat | c < |d.cells| && c !in done && Waiting(d, sorted, done, c) == {}
  }

  /** The number of binary digits of a count. */
  function Bucket(a: nat): (n: nat)
    ensures n == 0 <==> a == 0
  {
    if a == 0 then 0 else 1 + Bucket(a / 2)
  }

  /** The bucket is the binary logarithm, rounded down, plus one. */
  lemma {:induction false} BucketMeans(a: nat)
    requires a > 0
    ensures Bucket(a) > 0 && Pow2(Bucket(a) - 1) <= a < Pow2(Bucket(a))
    decreases a
  {
    if a == 1 {
      assert Bucket(1) == 1 + Bucket(0) && Pow2(1) == 2 * Pow2(0);
    } else {
      BucketMeans(a / 2);
    }
  }

  /** The ready cell among the first `n` with the least key: most active first, then the old position. */
  function Pick(sorted: seq<nat>, act: seq<nat>, ready: set<nat>, n: nat): (c: nat)
    requires n <= |sorted| && forall k :: 0 <= k < |sorted| ==> sorted[k] < |act|
    ensures (c < |act| && c in ready && c in sorted[..n]) || (c == |act| && forall x :: x in sorted[..n] ==> x !in ready)
    decreases n
  {
    if n == 0 then |act|
    else
      assert sorted[..n] == sorted[..n - 1] + [sorted[n - 1]] && sorted[n - 1] in sorted;
      var c, x := Pick(sorted, act, ready, n - 1), sorted[n - 1];
      if x in ready && (c == |act| || Bucket(act[x]) > Bucket(act[c])) then x else c
  }

  /** The cells emitted by the first `n` turns. */
  function KahnTo(d: Design, sorted: seq<nat>, act: seq<nat>, n: nat): (done: seq<nat>)
    requires |act| == |d.cells| && forall k :: 0 <= k < |sorted| ==> sorted[k] < |act|
    ensures |done| <= n
    decreases n
  {
    if n == 0 then []
    else
      var before := KahnTo(d, sorted, act, n - 1);
      var c := Pick(sorted, act, ReadySet(d, sorted, before), |sorted|);
      if c < |d.cells| then before + [c] else before
  }

  /** The order the generator goes on with: the new one when it is complete. */
  function Adopt(d: Design, sorted: seq<nat>, act: seq<nat>): (order: seq<nat>)
    requires |act| == |d.cells| && forall k :: 0 <= k < |sorted| ==> sorted[k] < |act|
  {
    var done := KahnTo(d, sorted, act, |sorted|);
    if |done| == |sorted| then done else sorted
  }

  ghost predicate Listed(d: Design, sorted: seq<nat>) {
    && Distinct(sorted) && (forall k :: 0 <= k < |sorted| ==> sorted[k] < |d.cells|)
    && forall c: nat :: c < |d.cells| ==> c in sorted
  }

  lemma OrderListed(d: Design, sorted: seq<nat>)
    requires Topological(d, sorted)
    ensures Listed(d, sorted)
  {
  }

  /** What is emitted is emitted once, after its recorded writers. */
  ghost predicate Emitted(d: Design, sorted: seq<nat>, done: seq<nat>) {
    && Distinct(done)
    && forall i :: 0 <= i < |done| ==> done[i] < |d.cells| && Waiting(d, sorted, done[..i], done[i]) == {}
  }

  lemma EmitOne(d: Design, sorted: seq<nat>, done: seq<nat>, c: nat)
    requires Emitted(d, sorted, done) && c in ReadySet(d, sorted, done)
    ensures Emitted(d, sorted, done + [c])
  {
    var r := done + [c];
    forall i | 0 <= i < |r| ensures r[i] < |d.cells| && Waiting(d, sorted, r[..i], r[i]) == {} {
      assert r[..i] == done[..i];
      assert i == |done| ==> r[..i] == done;
    }
  }

  lemma {:induction false} KahnEmits(d: Design, sorted: seq<nat>, act: seq<nat>, n: nat)
    requires Listed(d, sorted) && |act| == |d.cells|
    ensures Emitted(d, sorted, KahnTo(d, sorted, act, n))
    decreases n
  {
    if n == 0 {
    } else {
      KahnEmits(d, sorted, act, n - 1);
      var before := KahnTo(d, sorted, act, n - 1);
      if Pick(sorted, act, ReadySet(d, sorted, before), |sorted|) < |d.cells| {
        EmitOne(d, sorted, before, Pick(sorted, act, ReadySet(d, sorted, before), |sorted|));
      }
    }
  }

  // ---------------------------------------------------------------- the emitted loop

  /** The key of the chosen cell is the least: no ready cell is more active, and none as active stands before it. */
  lemma {:induction false} PickLeast(sorted: seq<nat>, act: seq<nat>, ready: set<nat>, n: nat, i: nat)
    requires n <= |sorted| && (forall k :: 0 <= k < |sorted| ==> sorted[k] < |act|) && i < n && sorted[i] in ready
    ensures var c := Pick(sorted, act, ready, n);
      && c in ready && Bucket(act[c]) >= Bucket(act[sorted[i]])
      && (Bucket(act[c]) == Bucket(act[sorted[i]]) ==> exists k :: 0 <= k <= i && sorted[k] == c)
    decreases n
  {
    if i < n - 1 {
      PickLeast(sorted, act, ready, n - 1, i);
    } else {
      assert sorted[i] == sorted[n - 1];
      assert sorted[i] in sorted[..n];
      PickPlace(sorted, act, ready, n);
    }
  }

  lemma PickPlace(sorted: seq<nat>, act: seq<nat>, ready: set<nat>, n: nat)
    requires n <= |sorted| && (forall k :: 0 <= k < |sorted| ==> sorted[k] < |act|) && Pick(sorted, act, ready, n) in ready
    requires Pick(sorted, act, ready, n) < |act|
    ensures exists k :: 0 <= k < n && sorted[k] == Pick(sorted, act, ready, n)
  {
    var k :| 0 <= k < n && sorted[..n][k] == Pick(sorted, act, ready, n);
    assert sorted[k] == Pick(sorted, act, ready, n);
  }

  /** Emitting `c` is one writer less for its readers. */
  lemma WaitingNext(d: Design, sorted: seq<nat>, done: seq<nat>, c: nat, x: nat)
    requires c < |d.cells| && c !in done
    ensures var w, w' := Waiting(d, sorted, done, x), Waiting(d, sorted, done + [c], x);
      if Edge(d, sorted, c, x) then w == w' + {c} && |w| == |w'| + 1 else w' == w
  {
    var w, w' := Waiting(d, sorted, done, x), Waiting(d, sorted, done + [c], x);
    assert w' == w - {c};
  }

  /** The recorded writers of an emitted cell are emitted. */
  lemma WritersDone(d: Design, sorted: seq<nat>, done: seq<nat>, c: nat, x: nat)
    requires Emitted(d, sorted, done) && Edge(d, sorted, c, x) && x in done
    ensures c in done
  {
    var i :| 0 <= i < |done| && done[i] == x;
    assert c !in Waiting(d, sorted, done[..i], done[i]);
  }

  /** The counters after the readers of `c` among the first `i` cells have been visited. */
  ghost predicate Counted(d: Design, sorted: seq<nat>, done: seq<nat>, c: nat, i: nat, pred: seq<nat>)
    requires i <= |sorted|
  {
    |pred| == |d.cells| && forall x: nat :: x < |pred| ==> CountedAt(d, sorted, done, c, i, x, pred[x])
  }

  ghost predicate CountedAt(d: Design, sorted: seq<nat>, done: seq<nat>, c: nat, i: nat, x: nat, n: nat)
    requires i <= |sorted|
  {
    n == |Waiting(d, sorted, if x in sorted[..i] then done + [c] else done, x)|
  }

  /** Visiting cell `i` changes the count of that cell only, and only if it reads `c`'s wires. */
  lemma VisitAt(d: Design, sorted: seq<nat>, done: seq<nat>, c: nat, i: nat, x: nat, n: nat, n': nat)
    requires Distinct(sorted) && c < |d.cells| && c !in done && i < |sorted| && CountedAt(d, sorted, done, c, i, x, n)
    requires if x == sorted[i] && Edge(d, sorted, c, x) then n' + 1 == n else n' == n
    ensures CountedAt(d, sorted, done, c, i + 1, x, n')
  {
    assert sorted[..i + 1] == sorted[..i] + [sorted[i]];
    if x == sorted[i] {
      assert x !in sorted[..i];
      WaitingNext(d, sorted, done, c, x);
    }
  }

  /** The ready set at that point. */
  ghost predicate Released(d: Design, sorted: seq<nat>, done: seq<nat>, c: nat, i: nat, ready: set<nat>)
    requires i <= |sorted|
  {
    forall x: nat :: x in ready <==>
      (x != c && x in ReadySet(d, sorted, done)) ||
      (x in sorted[..i] && Edge(d, sorted, c, x) && Waiting(d, sorted, done + [c], x) == {})
  }

  lemma ReleasedAll(d: Design, sorted: seq<nat>, done: seq<nat>, c: nat, ready: set<nat>)
    requires Listed(d, sorted) && Emitted(d, sorted, done) && c in ReadySet(d, sorted, done)
    requires Released(d, sorted, done, c, |sorted|, ready)
    ensures ready == ReadySet(d, sorted, done + [c])
  {
    assert sorted[..|sorted|] == sorted;
    forall x: nat ensures x in ready <==> x in ReadySet(d, sorted, done + [c]) {
      if x < |d.cells| {
        WaitingNext(d, sorted, done, c, x);
        if Edge(d, sorted, c, x) && x in done { WritersDone(d, sorted, done, c, x); }
      }
    }
  }

  /** One reader visited. */
  lemma VisitNext(d: Design, sorted: seq<nat>, done: seq<nat>, c: nat, i: nat, pred: seq<nat>, pred': seq<nat>)
    requires Listed(d, sorted) && c < |d.cells| && c !in done && i < |sorted| && Counted(d, sorted, done, c, i, pred)
    requires |pred'| == |pred| && forall x: nat :: x < |pred| ==>
      if x == sorted[i] && Edge(d, sorted, c, x) then pred'[x] + 1 == pred[x] else pred'[x] == pred[x]
    ensures Counted(d, sorted, done, c, i + 1, pred')
  {
    forall x: nat | x < |pred'| ensures CountedAt(d, sorted, done, c, i + 1, x, pred'[x]) {
      VisitAt(d, sorted, done, c, i, x, pred[x], pred'[x]);
    }
  }

  /** After `c` was emitted: count down its readers and release those that wait no more. */
  method Release(d: Design, sorted: seq<nat>, ghost done: seq<nat>, c: nat, pred: seq<nat>, ready: set<nat>)
    returns (pred': seq<nat>, ready': set<nat>)
    requires Listed(d, sorted) && Emitted(d, sorted, done) && c in ReadySet(d, sorted, done)
    requires |pred| == |d.cells| && forall x: nat :: x < |pred| ==> pred[x] == |Waiting(d, sorted, done, x)|
    requires ready == ReadySet(d, sorted, done)
    ensures |pred'| == |d.cells| && forall x: nat :: x < |pred'| ==> pred'[x] == |Waiting(d, sorted, done + [c], x)|
    ensures ready' == ReadySet(d, sorted, done + [c])
  {
    pred', ready' := pred, ready - {c};
    for i := 0 to |sorted|
      invariant Counted(d, sorted, done, c, i, pred') && Released(d, sorted, done, c, i, ready')
    {
      pred', ready' := VisitReader(d, sorted, done, c, i, pred', ready');
    }
    ReleasedAll(d, sorted, done, c, ready');
    assert sorted[..|sorted|] == sorted;
  }

  method VisitReader(d: Design, sorted: seq<nat>, ghost done: seq<nat>, c: nat, i: nat, pred: seq<nat>, ready: set<nat>)
    returns (pred': seq<nat>, ready': set<nat>)
    requires Listed(d, sorted) && c < |d.cells| && c !in done && i < |sorted|
    requires Counted(d, sorted, done, c, i, pred) && Released(d, sorted, done, c, i, ready)
    ensures Counted(d, sorted, done, c, i + 1, pred') && Released(d, sorted, done, c, i + 1, ready')
  {
    var x := sorted[i];
    pred', ready' := pred, ready;
    CountOf(d, sorted, done, c, i, pred);
    if Edge(d, sorted, c, x) {
      pred' := pred[x := pred[x] - 1];
      if pred'[x] == 0 { ready' := ready + {x}; }
    }
    VisitNext(d, sorted, done, c, i, pred, pred');
    ReleaseNext(d, sorted, done, c, i, ready, ready');
  }

  /** The count of the cell about to be visited. */
  lemma CountOf(d: Design, sorted: seq<nat>, done: seq<nat>, c: nat, i: nat, pred: seq<nat>)
    requires Listed(d, sorted) && c < |d.cells| && c !in done && i < |sorted| && Counted(d, sorted, done, c, i, pred)
    ensures sorted[i] < |pred| == |d.cells|
    ensures Edge(d, sorted, c, sorted[i]) ==> pred[sorted[i]] == |Waiting(d, sorted, done + [c], sorted[i])| + 1
  {
    assert sorted[i] !in sorted[..i];
    assert CountedAt(d, sorted, done, c, i, sorted[i], pred[sorted[i]]);
    WaitingNext(d, sorted, done, c, sorted[i]);
  }

  lemma ReleaseNext(d: Design, sorted: seq<nat>, done: seq<nat>, c: nat, i: nat, ready: set<nat>, ready': set<nat>)
    requires i < |sorted| && Released(d, sorted, done, c, i, ready)
    requires ready' == if Edge(d, sorted, c, sorted[i]) && Waiting(d, sorted, done + [c], sorted[i]) == {} then ready + {sorted[i]}
      else ready
    ensures Released(d, sorted, done, c, i + 1, ready')
  {
    assert sorted[..i + 1] == sorted[..i] + [sorted[i]];
  }

  /** Once nothing is ready the order does not grow. */
  lemma {:induction false} Stuck(d: Design, sorted: seq<nat>, act: seq<nat>, n: nat, m: nat)
    requires |act| == |d.cells| && (forall k :: 0 <= k < |sorted| ==> sorted[k] < |act|) && n <= m
    requires ReadySet(d, sorted, KahnTo(d, sorted, act, n)) == {}
    ensures KahnTo(d, sorted, act, m) == KahnTo(d, sorted, act, n)
    decreases m
  {
    if n < m {
      Stuck(d, sorted, act, n, m - 1);
    }
  }

  function Cells(s: seq<nat>): (r: set<nat>)
    ensures forall c :: c in r <==> c in s
  {
    set c | c in s
  }

  /** Distinct cells are no more than the cells there are. */
  lemma EmittedFew(d: Design, sorted: seq<nat>, done: seq<nat>)
    requires Listed(d, sorted) && Emitted(d, sorted, done)
    ensures |done| <= |sorted| && (|done| == |sorted| ==> forall c: nat :: c < |d.cells| ==> c in done)
  {
    SetSize(sorted);
    SetSize(done);
    forall c | c in Cells(done) ensures c in Cells(sorted) {
      var i :| 0 <= i < |done| && done[i] == c;
    }
    SubsetSize(Cells(done), Cells(sorted));
  }

  lemma {:induction false} SetSize(s: seq<nat>)
    requires Distinct(s)
    ensures |Cells(s)| == |s|
    decreases |s|
  {
    if s == [] {
    } else {
      var r, x := s[..|s| - 1], s[|s| - 1];
      SetSize(r);
      assert s == r + [x] && x !in r;
      assert Cells(s) == Cells(r) + {x};
    }
  }

  lemma {:induction false} SubsetSize(a: set<nat>, b: set<nat>)
    requires a <= b
    ensures |a| <= |b| && (|a| == |b| ==> a == b)
    decreases |a|
  {
    if a == {} {
    } else {
      var x :| x in a;
      SubsetSize(a - {x}, b - {x});
      assert |a - {x}| == |a| - 1 && |b - {x}| == |b| - 1;
      assert a == (a - {x}) + {x} && b == (b - {x}) + {x};
    }
  }

  /** The re-sort. */
  method Kahn(d: Design, sorted: seq<nat>, act: seq<nat>) returns (order: seq<nat>)
    requires Topological(d, sorted) && |act| == |d.cells|
    ensures order == Adopt(d, sorted, act)
  {
    var pred := seq(|d.cells|, c requires 0 <= c < |d.cells| => |Waiting(d, sorted, [], c)|);
    var ready := set c: nat | c < |d.cells| && pred[c] == 0;
    var done: seq<nat> := [];
    assert ready == ReadySet(d, sorted, done);
    while ready != {}
      invariant Emitted(d, sorted, done) && done == KahnTo(d, sorted, act, |done|) && |done| <= |sorted|
      invariant |pred| == |d.cells| && forall x: nat :: x < |pred| ==> pred[x] == |Waiting(d, sorted, done, x)|
      invariant ready == ReadySet(d, sorted, done)
      decreases |sorted| - |done|
    {
      var c := Pick(sorted, act, ready, |sorted|);
      KahnTurn(d, sorted, act, done);
      pred, ready := Release(d, sorted, done, c, pred, ready);
      done := done + [c];
    }
    Stuck(d, sorted, act, |done|, |sorted|);
    order := if |done| == |sorted| then done else sorted;
  }

  lemma PickReady(d: Design, sorted: seq<nat>, act: seq<nat>, ready: set<nat>)
    requires Listed(d, sorted) && |act| == |d.cells| && ready != {} && forall c :: c in ready ==> c < |d.cells|
    ensures Pick(sorted, act, ready, |sorted|) in ready && Pick(sorted, act, ready, |sorted|) < |d.cells|
  {
    var x :| x in ready;
    assert x in sorted && sorted[..|sorted|] == sorted;
  }

  lemma KahnTurn(d: Design, sorted: seq<nat>, act: seq<nat>, done: seq<nat>)
    requires Listed(d, sorted) && |act| == |d.cells| && Emitted(d, sorted, done)
    requires done == KahnTo(d, sorted, act, |done|) && ReadySet(d, sorted, done) != {}
    ensures var c := Pick(sorted, act, ReadySet(d, sorted, done), |sorted|);
      && c in ReadySet(d, sorted, done) && Emitted(d, sorted, done + [c]) && |done| < |sorted|
      && done + [c] == KahnTo(d, sorted, act, |done + [c]|)
  {
    PickReady(d, sorted, act, ReadySet(d, sorted, done));
    var c := Pick(sorted, act, ReadySet(d, sorted, done), |sorted|);
    EmitOne(d, sorted, done, c);
    EmittedFew(d, sorted, done + [c]);
    KahnNext(d, sorted, act, |done|);
  }

  lemma KahnNext(d: Design, sorted: seq<nat>, act: seq<nat>, n: nat)
    requires Listed(d, sorted) && |act| == |d.cells|
    ensures var before := KahnTo(d, sorted, act, n); var c := Pick(sorted, act, ReadySet(d, sorted, before), |sorted|);
      KahnTo(d, sorted, act, n + 1) == if c < |d.cells| then before + [c] else before
  {
  }

  // ---------------------------------------------------------------- when the order is complete

  /** What the re-sort guarantees of a complete order. */
  ghost predicate Resorted(d: Design, sorted: seq<nat>, order: seq<nat>) {
    Emitted(d, sorted, order) && forall c: nat :: c < |d.cells| ==> c in order
  }

  /** No chain of recorded writers leads back. */
  ghost predicate RecordRanked(d: Design, sorted: seq<nat>, rank: seq<nat>) {
    |rank| == |d.cells| && forall p: nat, c: nat :: Edge(d, sorted, p, c) ==> rank[p] < rank[c]
  }

  ghost predicate RecordAcyclic(d: Design, sorted: seq<nat>) {
    exists rank: seq<nat> :: RecordRanked(d, sorted, rank)
  }

  lemma ResortedRank(d: Design, sorted: seq<nat>, order: seq<nat>)
    requires Resorted(d, sorted, order)
    ensures RecordAcyclic(d, sorted)
  {
    assert forall c: nat :: c < |d.cells| ==> c in order;
    var rank := seq(|d.cells|, c requires 0 <= c < |d.cells| => Pos(order, c));
    forall p: nat, c: nat | Edge(d, sorted, p, c) ensures rank[p] < rank[c] {
      WriterBefore(d, sorted, order, Pos(order, c), p);
    }
    assert RecordRanked(d, sorted, rank);
  }

  lemma WriterBefore(d: Design, sorted: seq<nat>, order: seq<nat>, i: nat, p: nat)
    requires Emitted(d, sorted, order) && i < |order| && Edge(d, sorted, p, order[i])
    ensures p in order[..i] && p in order && Pos(order, p) < i
  {
    assert p !in Waiting(d, sorted, order[..i], order[i]);
    var k :| 0 <= k < i && order[..i][k] == p;
    assert order[k] == p;
    assert order[Pos(order, p)] == order[k];
  }

  /** Of a set of cells closed under recorded writers, as long as one is missing one is ready. */
  lemma ReadyIn(d: Design, sorted: seq<nat>, rank: seq<nat>, done: seq<nat>, s: set<nat>, c: nat) returns (x: nat)
    requires RecordRanked(d, sorted, rank) && WriterClosed(d, sorted, s) && c in s && c < |d.cells| && c !in done
    ensures x in s && x in ReadySet(d, sorted, done)
    decreases rank[c]
  {
    if Waiting(d, sorted, done, c) == {} {
      x := c;
    } else {
      var p :| p in Waiting(d, sorted, done, c);
      x := ReadyIn(d, sorted, rank, done, s, p);
    }
  }

  ghost predicate WriterClosed(d: Design, sorted: seq<nat>, s: set<nat>) {
    forall p: nat, c: nat :: c in s && Edge(d, sorted, p, c) ==> p in s
  }

  /** Without a cycle every turn emits a cell. */
  lemma KahnGrows(d: Design, sorted: seq<nat>, act: seq<nat>, rank: seq<nat>, n: nat)
    requires Listed(d, sorted) && |act| == |d.cells| && RecordRanked(d, sorted, rank) && n <= |sorted|
    ensures |KahnTo(d, sorted, act, n)| == n
  {
    for m := 0 to n
      invariant Grown(d, sorted, act, m)
    {
      GrowNext(d, sorted, act, rank, m);
    }
  }

  ghost predicate Grown(d: Design, sorted: seq<nat>, act: seq<nat>, n: nat)
    requires Listed(d, sorted) && |act| == |d.cells|
  {
    |KahnTo(d, sorted, act, n)| == n
  }

  lemma GrowNext(d: Design, sorted: seq<nat>, act: seq<nat>, rank: seq<nat>, n: nat)
    requires Listed(d, sorted) && |act| == |d.cells| && RecordRanked(d, sorted, rank) && n < |sorted|
    requires Grown(d, sorted, act, n)
    ensures Grown(d, sorted, act, n + 1)
  {
    KahnEmits(d, sorted, act, n);
    SomePicked(d, sorted, act, rank, KahnTo(d, sorted, act, n));
    KahnNext(d, sorted, act, n);
  }

  lemma SomePicked(d: Design, sorted: seq<nat>, act: seq<nat>, rank: seq<nat>, done: seq<nat>)
    requires Listed(d, sorted) && RecordRanked(d, sorted, rank) && Emitted(d, sorted, done) && |done| < |sorted| && |act| == |d.cells|
    ensures Pick(sorted, act, ReadySet(d, sorted, done), |sorted|) < |d.cells|
  {
    var c := SomeMissing(d, sorted, done);
    var x := ReadyIn(d, sorted, rank, done, Cells(sorted), c);
    PickReady(d, sorted, act, ReadySet(d, sorted, done));
  }

  lemma SomeMissing(d: Design, sorted: seq<nat>, done: seq<nat>) returns (c: nat)
    requires Listed(d, sorted) && Emitted(d, sorted, done) && |done| < |sorted|
    ensures c < |d.cells| && c !in done
  {
    if forall c: nat :: c < |d.cells| ==> c in done {
      SetSize(sorted);
      SetSize(done);
      SubsetSize(Cells(sorted), Cells(done));
      assert false;
    }
    c :| c < |d.cells| && c !in done;
  }

  /** The new order is complete exactly when the recorded writers form no cycle. */
  lemma CompleteExact(d: Design, sorted: seq<nat>, act: seq<nat>)
    requires Listed(d, sorted) && |act| == |d.cells|
    ensures |KahnTo(d, sorted, act, |sorted|)| == |sorted| <==> RecordAcyclic(d, sorted)
    ensures RecordAcyclic(d, sorted) ==> Resorted(d, sorted, KahnTo(d, sorted, act, |sorted|))
  {
    var done := KahnTo(d, sorted, act, |sorted|);
    KahnEmits(d, sorted, act, |sorted|);
    EmittedFew(d, sorted, done);
    if |done| == |sorted| { ResortedRank(d, sorted, done); }
    if RecordAcyclic(d, sorted) {
      var rank: seq<nat> :| RecordRanked(d, sorted, rank);
      KahnGrows(d, sorted, act, rank, |sorted|);
    }
  }

  // ---------------------------------------------------------------- when it is a dependency order

  /** A chain of `n` edges leads from `p` to `c`. */
  ghost predicate Chain(d: Design, sorted: seq<nat>, p: nat, c: nat, n: nat)
    decreases n
  {
    if n == 0 then p == c else exists q: nat :: Edge(d, sorted, p, q) && Chain(d, sorted, q, c, n - 1)
  }

  lemma ChainStep(d: Design, sorted: seq<nat>, p: nat, q: nat, c: nat, n: nat)
    requires Edge(d, sorted, p, q) && Chain(d, sorted, q, c, n)
    ensures Chain(d, sorted, p, c, n + 1)
  {
  }

  ghost predicate Ancestor(d: Design, sorted: seq<nat>, p: nat, c: nat) {
    exists n: nat :: Chain(d, sorted, p, c, n)
  }

  /** Every driver of a bit that is read is the reader's ancestor by recorded writers. */
  ghost predicate DriversForced(d: Design, sorted: seq<nat>) {
    forall c: nat, b: nat, p: nat :: Reads(d, c, b) && Drives(d, p, b) ==> Ancestor(d, sorted, p, c)
  }

  lemma {:induction false} ChainBefore(d: Design, sorted: seq<nat>, order: seq<nat>, p: nat, i: nat, n: nat)
    requires Resorted(d, sorted, order) && i < |order| && Chain(d, sorted, p, order[i], n)
    ensures p in order[..i + 1]
    decreases n
  {
    if n == 0 {
      assert order[..i + 1][i] == p;
    } else {
      var q: nat :| Edge(d, sorted, p, q) && Chain(d, sorted, q, order[i], n - 1);
      ChainBefore(d, sorted, order, q, i, n - 1);
      var k :| 0 <= k <= i && order[..i + 1][k] == q;
      WriterBefore(d, sorted, order, k, p);
      PrefixHas(order, k, i + 1, p);
    }
  }

  lemma PrefixHas(s: seq<nat>, k: nat, i: nat, x: nat)
    requires k <= i <= |s| && x in s[..k]
    ensures x in s[..i]
  {
    assert s[..k] == s[..i][..k];
  }

  /** A complete re-sorted order is a dependency order when the drivers of what is read are ancestors. */
  lemma ResortedOrder(d: Design, sorted: seq<nat>, order: seq<nat>)
    requires Topological(d, sorted) && Resorted(d, sorted, order) && DriversForced(d, sorted)
    ensures Topological(d, order)
  {
    forall i | 0 <= i < |order| ensures ReadyAt(d, order, i) {
      forall b: nat, p: nat | Reads(d, order[i], b) && Drives(d, p, b) ensures p in order[..i] {
        NotOwnReader(d, sorted, order[i], b);
        var n: nat :| Chain(d, sorted, p, order[i], n);
        ChainBefore(d, sorted, order, p, i, n);
        assert order[..i + 1] == order[..i] + [order[i]];
      }
    }
  }

  /** With one writer per wire every driver of what is read is the recorded writer. */
  lemma OneWriterSuffices(d: Design, sorted: seq<nat>)
    requires WellFormed(d) && Topological(d, sorted) && OneWriter(d)
    ensures DriversForced(d, sorted)
  {
    forall c: nat, b: nat, p: nat | Reads(d, c, b) && Drives(d, p, b) ensures Ancestor(d, sorted, p, c) {
      NotOwnReader(d, sorted, c, b);
      OnlyWriter(d, sorted, b, p);
      var j :| 0 <= j < |d.cells[c].ins| && d.cells[c].ins[j] == Net(b);
      assert EdgeAt(d, sorted, p, d.cells[c].ins[j]);
      assert Chain(d, sorted, c, c, 0);
      ChainStep(d, sorted, p, c, c, 0);
    }
  }

  lemma OnlyWriter(d: Design, sorted: seq<nat>, b: nat, p: nat)
    requires WellFormed(d) && Topological(d, sorted) && OneWriter(d) && Drives(d, p, b)
    ensures b < |d.wireOf| && Recorded(d, sorted, |sorted|, d.wireOf[b]) == p
  {
    var j :| 0 <= j < |d.cells[p].outs| && d.cells[p].outs[j] == b;
    assert IsWire(d, d.cells[p].outs[j], d.wireOf[b]);
    assert p in sorted;
    var i :| 0 <= i < |sorted| && sorted[i] == p;
    RecordedSome(d, sorted, |sorted|, d.wireOf[b], i);
    assert Writes(d, p, d.wireOf[b]) && Writes(d, Recorded(d, sorted, |sorted|, d.wireOf[b]), d.wireOf[b]);
  }

  // ---------------------------------------------------------------- a profile that misplaces a driver

  ghost function Ancestors(d: Design, sorted: seq<nat>, c: nat): (s: set<nat>)
    requires c < |d.cells|
    ensures c in s && WriterClosed(d, sorted, s)
  {
    var s := set p: nat | p < |d.cells| && Ancestor(d, sorted, p, c);
    AncestorsClosed(d, sorted, c, s);
    s
  }

  lemma AncestorsClosed(d: Design, sorted: seq<nat>, c: nat, s: set<nat>)
    requires c < |d.cells| && s == set p: nat | p < |d.cells| && Ancestor(d, sorted, p, c)
    ensures c in s && WriterClosed(d, sorted, s)
  {
    assert Chain(d, sorted, c, c, 0);
    forall p: nat, q: nat | q in s && Edge(d, sorted, p, q) ensures p in s {
      var n: nat :| Chain(d, sorted, q, c, n);
      ChainStep(d, sorted, p, q, c, n);
    }
  }

  /** Hot on `s`, cold elsewhere. */
  ghost function HotOn(d: Design, s: set<nat>): (act: seq<nat>)
    ensures |act| == |d.cells| && forall c: nat :: c < |act| ==> act[c] == if c in s then 1 else 0
  {
    seq(|d.cells|, c requires 0 <= c < |d.cells| => if c in s then 1 else 0)
  }

  lemma HotPick(d: Design, sorted: seq<nat>, rank: seq<nat>, s: set<nat>, c: nat, done: seq<nat>)
    requires Listed(d, sorted) && RecordRanked(d, sorted, rank) && WriterClosed(d, sorted, s) && c in s && c < |d.cells|
    requires c !in done
    ensures Pick(sorted, HotOn(d, s), ReadySet(d, sorted, done), |sorted|) in s
  {
    var act, ready := HotOn(d, s), ReadySet(d, sorted, done);
    var x := ReadyIn(d, sorted, rank, done, s, c);
    assert x in sorted;
    var i :| 0 <= i < |sorted| && sorted[i] == x;
    PickLeast(sorted, act, ready, |sorted|, i);
    assert Bucket(act[x]) >= 1;
  }

  /** What stands before a hot cell is hot, and while a hot cell is missing so is everything. */
  ghost predicate HotFirst(n: nat, s: set<nat>, done: seq<nat>) {
    && (forall i, k :: 0 <= k < i < |done| && done[i] in s ==> done[k] in s)
    && forall c :: c in s && c < n && c !in done ==> AllHot(s, done)
  }

  ghost predicate AllHot(s: set<nat>, done: seq<nat>) { forall k :: 0 <= k < |done| ==> done[k] in s }

  lemma HotOrder(d: Design, sorted: seq<nat>, rank: seq<nat>, s: set<nat>, n: nat)
    requires Listed(d, sorted) && RecordRanked(d, sorted, rank) && WriterClosed(d, sorted, s)
    ensures HotFirst(|d.cells|, s, KahnTo(d, sorted, HotOn(d, s), n))
  {
    HotNone(d, sorted, s, HotOn(d, s));
    for m := 0 to n
      invariant HotFirst(|d.cells|, s, KahnTo(d, sorted, HotOn(d, s), m))
    {
      HotTurn(d, sorted, rank, s, HotOn(d, s), m);
    }
  }

  lemma HotNone(d: Design, sorted: seq<nat>, s: set<nat>, act: seq<nat>)
    requires Listed(d, sorted) && |act| == |d.cells|
    ensures HotFirst(|d.cells|, s, KahnTo(d, sorted, act, 0))
  {
    assert KahnTo(d, sorted, act, 0) == [];
  }

  lemma HotTurn(d: Design, sorted: seq<nat>, rank: seq<nat>, s: set<nat>, act: seq<nat>, m: nat)
    requires Listed(d, sorted) && RecordRanked(d, sorted, rank) && WriterClosed(d, sorted, s) && act == HotOn(d, s)
    requires HotFirst(|d.cells|, s, KahnTo(d, sorted, act, m))
    ensures HotFirst(|d.cells|, s, KahnTo(d, sorted, act, m + 1))
  {
    var before := KahnTo(d, sorted, act, m);
    var c := Pick(sorted, act, ReadySet(d, sorted, before), |sorted|);
    KahnNext(d, sorted, act, m);
    if c < |d.cells| { HotNext(d, sorted, rank, s, before, c); }
  }

  /** While a hot cell is missing the next one is hot. */
  lemma HotNext(d: Design, sorted: seq<nat>, rank: seq<nat>, s: set<nat>, done: seq<nat>, c: nat)
    requires Listed(d, sorted) && RecordRanked(d, sorted, rank) && WriterClosed(d, sorted, s)
    requires HotFirst(|d.cells|, s, done) && c == Pick(sorted, HotOn(d, s), ReadySet(d, sorted, done), |sorted|) && c < |d.cells|
    ensures HotFirst(|d.cells|, s, done + [c])
  {
    assert c in ReadySet(d, sorted, done);
    forall y | y in s && y < |d.cells| && y !in done + [c] ensures AllHot(s, done + [c]) {
      HotPick(d, sorted, rank, s, y, done);
    }
  }

  /** A driver that is not forced comes after its reader for some profile. */
  lemma UnforcedMisplaced(d: Design, sorted: seq<nat>, c: nat, b: nat, p: nat)
    requires Topological(d, sorted) && RecordAcyclic(d, sorted)
    requires Reads(d, c, b) && Drives(d, p, b) && !Ancestor(d, sorted, p, c)
    ensures exists act: seq<nat> :: |act| == |d.cells| && !Topological(d, Adopt(d, sorted, act))
  {
    var s := Ancestors(d, sorted, c);
    var act := HotOn(d, s);
    var rank: seq<nat> :| RecordRanked(d, sorted, rank);
    CompleteExact(d, sorted, act);
    var order := KahnTo(d, sorted, act, |sorted|);
    assert order == Adopt(d, sorted, act);
    assert c in order;
    var i :| 0 <= i < |order| && order[i] == c;
    HotOrder(d, sorted, rank, s, |sorted|);
    assert p !in order[..i];
    assert !ReadyAt(d, order, i);
  }

  /** Over all activity profiles the adopted order is a dependency order exactly when the recorded writers
      form a cycle, so that the old order is kept, or every driver of a bit read is an ancestor of its
      reader by recorded writers. */
  lemma ResortExact(d: Design, sorted: seq<nat>)
    requires WellFormed(d) && Topological(d, sorted)
    ensures (forall act: seq<nat> :: |act| == |d.cells| ==> Topological(d, Adopt(d, sorted, act))) <==>
      !RecordAcyclic(d, sorted) || DriversForced(d, sorted)
  {
    if !RecordAcyclic(d, sorted) || DriversForced(d, sorted) {
      forall act: seq<nat> | |act| == |d.cells| ensures Topological(d, Adopt(d, sorted, act)) {
        CompleteExact(d, sorted, act);
        if RecordAcyclic(d, sorted) { ResortedOrder(d, sorted, Adopt(d, sorted, act)); }
      }
    } else {
      var c: nat, b: nat, p: nat :| Reads(d, c, b) && Drives(d, p, b) && !Ancestor(d, sorted, p, c);
      UnforcedMisplaced(d, sorted, c, b, p);
    }
  }

  // ---------------------------------------------------------------- a wire in slices

  function Buf(ins: seq<bool>, j: nat): bool { |ins| > 0 && ins[0] }

  /** Cells 0 and 1 drive one bit each of wire 1; cell 2 reads the bit of cell 0. */
  function Sliced(): Design {
    Design([0, 1, 1, 2], [Input, Comb, Comb],
           [Logic(Buf, [Net(0)], [1]), Logic(Buf, [Net(0)], [2]), Logic(Buf, [Net(1)], [3])], [], [], [[3]])
  }

  lemma SlicedPins(c: nat, b: nat)
    ensures Drives(Sliced(), c, b) <==> c < 3 && b == c + 1
    ensures Reads(Sliced(), c, b) <==> c < 3 && b == if c == 2 then 1 else 0
  {
    var d := Sliced();
    if c < 3 { assert d.cells[c].outs == [c + 1] && d.cells[c].ins == [Net(if c == 2 then 1 else 0)]; }
  }

  lemma SlicedOrder()
    ensures WellFormed(Sliced()) && Topological(Sliced(), [0, 1, 2])
  {
    var d, sorted: seq<nat> := Sliced(), [0, 1, 2];
    forall c: nat, b: nat
      ensures (Drives(d, c, b) <==> c < 3 && b == c + 1) && (Reads(d, c, b) <==> c < 3 && b == if c == 2 then 1 else 0)
    {
      SlicedPins(c, b);
    }
    forall i | 0 <= i < 3 ensures ReadyAt(d, sorted, i) {
      if i == 2 { assert sorted[..2][0] == 0; }
    }
  }

  lemma SlicedUnready()
    ensures !Topological(Sliced(), [1, 2, 0])
  {
    var order: seq<nat> := [1, 2, 0];
    SlicedPins(2, 1);
    SlicedPins(0, 1);
    assert order[1] == 2 && 0 !in order[..1];
    assert !ReadyAt(Sliced(), order, 1);
  }

  lemma SlicedWriter(w: nat)
    ensures Recorded(Sliced(), [0, 1, 2], 3, w) == if w == 1 then 1 else if w == 2 then 2 else 3
  {
    var d, sorted: seq<nat> := Sliced(), [0, 1, 2];
    forall c: nat | c < 3 ensures Writes(d, c, w) <==> w == if c == 2 then 2 else 1 {
      assert d.cells[c].outs == [c + 1] && d.cells[c].outs[0] == c + 1;
      assert IsWire(d, c + 1, w) <==> w == d.wireOf[c + 1];
    }
    assert Recorded(d, sorted, 0, w) == 3;
    assert Recorded(d, sorted, 1, w) == if w == 1 then 0 else 3;
    assert Recorded(d, sorted, 2, w) == if w == 1 then 1 else 3;
  }

  lemma SlicedEdge(p: nat, c: nat)
    ensures Edge(Sliced(), [0, 1, 2], p, c) <==> p == 1 && c == 2
  {
    var d, sorted: seq<nat> := Sliced(), [0, 1, 2];
    if c < 3 {
      var x := Net(if c == 2 then 1 else 0);
      assert d.cells[c].ins == [x];
      SlicedWriter(d.wireOf[x.bit]);
      assert Edge(d, sorted, p, c) <==> p < 3 && p != c && EdgeAt(d, sorted, p, d.cells[c].ins[0]);
    }
  }

  lemma SlicedReady(d: Design, sorted: seq<nat>, done: seq<nat>, c: nat)
    requires d == Sliced() && sorted == [0, 1, 2]
    ensures c in ReadySet(d, sorted, done) <==> c < 3 && c !in done && (c == 2 ==> 1 in done)
  {
    forall p: nat ensures Edge(d, sorted, p, c) <==> p == 1 && c == 2 { SlicedEdge(p, c); }
    if c == 2 && 1 !in done { assert 1 in Waiting(d, sorted, done, c); }
  }

  /** The most active ready cell of each turn. */
  lemma SlicedTurn(d: Design, sorted: seq<nat>, done: seq<nat>, act: seq<nat>)
    requires d == Sliced() && sorted == [0, 1, 2] && act == [0, 4, 4]
    ensures done == [] ==> Pick(sorted, act, ReadySet(d, sorted, done), |sorted|) == 1
    ensures done == [1] ==> Pick(sorted, act, ReadySet(d, sorted, done), |sorted|) == 2
    ensures done == [1, 2] ==> Pick(sorted, act, ReadySet(d, sorted, done), |sorted|) == 0
  {
    var ready, n := ReadySet(d, sorted, done), |sorted|;
    forall c: nat ensures c in ready <==> c < 3 && c !in done && (c == 2 ==> 1 in done) { SlicedReady(d, sorted, done, c); }
    SlicedPick(sorted, act, ready, n);
  }

  lemma SlicedPick(sorted: seq<nat>, act: seq<nat>, ready: set<nat>, n: nat)
    requires sorted == [0, 1, 2] && act == [0, 4, 4] && n == 3
    ensures Pick(sorted, act, ready, n) == if 1 in ready then 1 else if 2 in ready then 2 else if 0 in ready then 0 else 3
  {
    assert Bucket(4) == 3;
    assert Pick(sorted, act, ready, n - 3) == 3;
    assert Pick(sorted, act, ready, n - 2) == if 0 in ready then 0 else 3;
    assert Pick(sorted, act, ready, n - 1) == if 1 in ready then 1 else if 0 in ready then 0 else 3;
  }

  lemma KahnAppend(d: Design, sorted: seq<nat>, act: seq<nat>, n: nat, done: seq<nat>, c: nat)
    requires Listed(d, sorted) && |act| == |d.cells| && KahnTo(d, sorted, act, n) == done && c < |d.cells|
    requires Pick(sorted, act, ReadySet(d, sorted, done), |sorted|) == c
    ensures KahnTo(d, sorted, act, n + 1) == done + [c]
  {
    KahnNext(d, sorted, act, n);
  }

  lemma SlicedStep(d: Design, sorted: seq<nat>, act: seq<nat>, n: nat, done: seq<nat>, c: nat)
    requires d == Sliced() && sorted == [0, 1, 2] && act == [0, 4, 4] && KahnTo(d, sorted, act, n) == done
    requires (done == [] && c == 1) || (done == [1] && c == 2) || (done == [1, 2] && c == 0)
    ensures KahnTo(d, sorted, act, n + 1) == done + [c]
  {
    SlicedListed(d, sorted);
    SlicedTurn(d, sorted, done, act);
    KahnAppend(d, sorted, act, n, done, c);
  }

  lemma SlicedListed(d: Design, sorted: seq<nat>)
    requires d == Sliced() && sorted == [0, 1, 2]
    ensures Listed(d, sorted) && |d.cells| == 3
  {
    SlicedOrder();
    OrderListed(d, sorted);
  }

  /** The order after `n` turns. */
  function SlicedPrefix(n: nat): (done: seq<nat>) {
    if n == 0 then [] else if n == 1 then [1] else if n == 2 then [1, 2] else [1, 2, 0]
  }

  ghost predicate SlicedAfter(d: Design, sorted: seq<nat>, act: seq<nat>, n: nat)
    requires d == Sliced() && sorted == [0, 1, 2] && act == [0, 4, 4]
  {
    assert sorted[0] == 0 && sorted[1] == 1 && sorted[2] == 2;
    n <= 3 && KahnTo(d, sorted, act, n) == SlicedPrefix(n)
  }

  lemma SlicedNext(d: Design, sorted: seq<nat>, act: seq<nat>, n: nat)
    requires d == Sliced() && sorted == [0, 1, 2] && act == [0, 4, 4] && n < 3 && SlicedAfter(d, sorted, act, n)
    ensures SlicedAfter(d, sorted, act, n + 1)
  {
    var c := if n == 0 then 1 else if n == 1 then 2 else 0;
    SlicedStep(d, sorted, act, n, SlicedPrefix(n), c);
    assert SlicedPrefix(n + 1) == SlicedPrefix(n) + [c];
  }

  lemma SlicedRun(d: Design, sorted: seq<nat>, act: seq<nat>, n: nat)
    requires d == Sliced() && sorted == [0, 1, 2] && act == [0, 4, 4] && n <= 3
    ensures SlicedAfter(d, sorted, act, n)
  {
    for m := 0 to n
      invariant SlicedAfter(d, sorted, act, m)
    {
      SlicedNext(d, sorted, act, m);
    }
  }

  lemma SlicedFinal(d: Design, sorted: seq<nat>, act: seq<nat>, n: nat)
    requires d == Sliced() && sorted == [0, 1, 2] && act == [0, 4, 4] && n == |sorted| && SlicedAfter(d, sorted, act, n)
    requires Listed(d, sorted) && |act| == |d.cells|
    ensures KahnTo(d, sorted, act, n) == [1, 2, 0]
  {
    assert SlicedPrefix(n) == [1, 2, 0];
  }

  lemma AdoptIs(d: Design, sorted: seq<nat>, act: seq<nat>, n: nat, order: seq<nat>)
    requires Listed(d, sorted) && |act| == |d.cells| && KahnTo(d, sorted, act, n) == order && n == |sorted| == |order|
    ensures Adopt(d, sorted, act) == order
  {
  }

  /** The re-sort puts the reader between the two slices' drivers, before the one it needs. */
  lemma SlicesMisplaced(d: Design, sorted: seq<nat>, act: seq<nat>)
    requires d == Sliced() && sorted == [0, 1, 2] && act == [0, 4, 4]
    ensures Topological(d, sorted) && Adopt(d, sorted, act) == [1, 2, 0] && !Topological(d, [1, 2, 0])
  {
    SlicedOrder();
    OrderListed(d, sorted);
    SlicedRun(d, sorted, act, |sorted|);
    SlicedFinal(d, sorted, act, |sorted|);
    AdoptIs(d, sorted, act, |sorted|, [1, 2, 0]);
    SlicedUnready();
  }
}
