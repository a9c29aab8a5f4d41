/** The dependency order. */
module TopoSort {
  // The depth-first ordering of the combinational cells.
  //
  // Dependencies are bit-precise: a cell depends on the drivers of the very bits it
  // reads, not on every writer of the wires those bits belong to.

  import opened Netlist

  /** `rank` shows that no cell depends on itself through any chain of cells. */
  ghost predicate Ranked(d: Design, rank: seq<nat>) {
    && |rank| == |d.cells|
    && forall c: nat, p: nat, b: nat :: Reads(d, c, b) && Drives(d, p, b) ==> rank[p] < rank[c]
  }

  ghost predicate Acyclic(d: Design) {
    exists rank: seq<nat> :: Ranked(d, rank)
  }

  /** A topological order is itself a witness that the design is acyclic. */
  lemma OrderIsRank(d: Design, order: seq<nat>)
    requires Topological(d, order)
    ensures Acyclic(d)
  {
    assert forall c: nat :: c < |d.cells| ==> c in order;
    var rank := seq(|d.cells|, c requires 0 <= c < |d.cells| => Pos(order, c));
    forall c: nat, p: nat, b: nat | Reads(d, c, b) && Drives(d, p, b)
      ensures rank[p] < rank[c]
    {
      var i := Pos(order, c);
      assert ReadyAt(d, order, i);
      var k :| 0 <= k < i && order[k] == p;
      assert order[Pos(order, p)] == order[k];
    }
    assert Ranked(d, rank);
  }

  class Sorter {
    const d: Design
    const wireDriver: seq<seq<nat>>   // per wire, the cells that drive some bit of it
    var visited: set<nat>
    var sorted: seq<nat>

    ghost predicate Valid()
      reads this
    {
      && WellFormed(d)
      && |wireDriver| == |d.kind|
      && (forall w: nat, p: nat :: w < |wireDriver| && p in wireDriver[w] ==> p < |d.cells|)
      && (forall p: nat, b: nat :: Drives(d, p, b) ==> p in wireDriver[d.wireOf[b]])
      && Distinct(sorted)
      && (forall c :: c in visited ==> c < |d.cells|)
      && (forall c :: c in sorted ==> c in visited)
    }

    /** The cells entered but not yet emitted. */
    ghost predicate Open(c: nat)
      reads this
    {
      c in visited && c !in sorted
    }

    ghost function Unvisited(): set<nat>
      reads this
    {
      set c: nat | c < |d.cells| && c !in visited
    }

    constructor (design: Design)
      requires WellFormed(design)
      ensures Valid() && d == design && visited == {} && sorted == []
    {
      var drivers: seq<seq<nat>> := seq(|design.kind|, _ => []);
      var c := 0;
      while c < |design.cells|
        invariant 0 <= c <= |design.cells|
        invariant |drivers| == |design.kind|
        invariant forall w: nat, p: nat :: w < |drivers| && p in drivers[w] ==> p < |design.cells|
        invariant forall p: nat, b: nat :: p < c && Drives(design, p, b) ==> p in drivers[design.wireOf[b]]
      {
        var outs := design.cells[c].outs;
        var j := 0;
        while j < |outs|
          invariant 0 <= j <= |outs|
          invariant |drivers| == |design.kind|
          invariant forall w: nat, p: nat :: w < |drivers| && p in drivers[w] ==> p < |design.cells|
          invariant forall p: nat, b: nat :: p < c && Drives(design, p, b) ==> p in drivers[design.wireOf[b]]
          invariant forall k :: 0 <= k < j ==> outs[k] < |design.wireOf| && c in drivers[design.wireOf[outs[k]]]
        {
          assert Drives(design, c, outs[j]);
          var w := design.wireOf[outs[j]];
          drivers := drivers[w := drivers[w] + [c]];
          j := j + 1;
        }
        c := c + 1;
      }
      d := design;
      wireDriver := drivers;
      visited := {};
      sorted := [];
    }

    method Visit(c: nat, ghost rank: seq<nat>)
      requires Valid() && c < |d.cells|
      requires Ranked(d, rank) ==> forall i :: 0 <= i < |sorted| ==> ReadyAt(d, sorted, i)
      requires Ranked(d, rank) ==> forall g: nat :: Open(g) ==> rank[c] < rank[g]
      modifies this
      decreases Unvisited(), 0
      ensures Valid() && c in visited
      ensures old(visited) <= visited && old(sorted) <= sorted && (forall x :: x in old(sorted) ==> x in sorted)
      ensures forall g: nat :: Open(g) <==> old(Open(g))
      ensures Ranked(d, rank) ==> forall i :: 0 <= i < |sorted| ==> ReadyAt(d, sorted, i)
    {
      if c in visited { return; }
      visited := visited + {c};
      assert c in old(Unvisited()) && Unvisited() <= old(Unvisited());
      var ins := d.cells[c].ins;
      var i := 0;
      while i < |ins|
        invariant 0 <= i <= |ins|
        invariant Valid() && c in visited && old(visited) <= visited && old(sorted) <= sorted && (forall x :: x in old(sorted) ==> x in sorted)
        invariant forall g: nat :: Open(g) <==> old(Open(g)) || g == c
        invariant Ranked(d, rank) ==> forall k :: 0 <= k < |sorted| ==> ReadyAt(d, sorted, k)
        invariant Ranked(d, rank) ==> forall k, p: nat ::
          0 <= k < i && ins[k].Net? && Drives(d, p, ins[k].bit) ==> p in sorted
      {
        if ins[i].Net? {
          assert Reads(d, c, ins[i].bit);
          VisitDrivers(c, ins[i].bit, rank);
        }
        i := i + 1;
      }
      assert Open(c);
      ghost var was := sorted;
      sorted := sorted + [c];
      if Ranked(d, rank) {
        forall k | 0 <= k < |sorted| ensures ReadyAt(d, sorted, k) {
          assert sorted[..k] == was[..k];
          if k < |was| { assert ReadyAt(d, was, k); }
        }
      }
    }

    /** The inner loop of `Visit`: the drivers of one bit that cell `c` reads. */
    method VisitDrivers(c: nat, b: nat, ghost rank: seq<nat>)
      requires Valid() && Reads(d, c, b) && Open(c)
      requires Ranked(d, rank) ==> forall i :: 0 <= i < |sorted| ==> ReadyAt(d, sorted, i)
      requires Ranked(d, rank) ==> forall g: nat :: Open(g) && g != c ==> rank[c] < rank[g]
      modifies this
      decreases Unvisited(), 1
      ensures Valid()
      ensures old(visited) <= visited && old(sorted) <= sorted && (forall x :: x in old(sorted) ==> x in sorted)
      ensures forall g: nat :: Open(g) <==> old(Open(g))
      ensures Ranked(d, rank) ==> forall i :: 0 <= i < |sorted| ==> ReadyAt(d, sorted, i)
      ensures Ranked(d, rank) ==> forall p: nat :: Drives(d, p, b) ==> p in sorted
    {
      var drivers := wireDriver[d.wireOf[b]];
      var k := 0;
      while k < |drivers|
        invariant 0 <= k <= |drivers|
        invariant Valid() && old(visited) <= visited && old(sorted) <= sorted && (forall x :: x in old(sorted) ==> x in sorted)
        invariant forall g: nat :: Open(g) <==> old(Open(g))
        invariant Ranked(d, rank) ==> forall i :: 0 <= i < |sorted| ==> ReadyAt(d, sorted, i)
        invariant Ranked(d, rank) ==> forall x :: 0 <= x < k && Drives(d, drivers[x], b) ==> drivers[x] in sorted
      {
        assert drivers[k] in drivers;
        if Drives(d, drivers[k], b) {
          assert Unvisited() <= old(Unvisited());
          Visit(drivers[k], rank);
        }
        k := k + 1;
      }
      forall p: nat | Ranked(d, rank) && Drives(d, p, b) ensures p in sorted {
        assert p in drivers;
      }
    }
  }

  /** Every cell comes out exactly once, and after all its drivers exactly when the design has
      no combinational cycle. */
  method Sort(d: Design) returns (order: seq<nat>)
    requires WellFormed(d)
    ensures Distinct(order) && forall c: nat :: c in order <==> c < |d.cells|
    ensures Topological(d, order) <==> Acyclic(d)
  {
    var s := new Sorter(d);
    ghost var rank: seq<nat> := [];
    if Acyclic(d) { rank :| Ranked(d, rank); }
    var c := 0;
    while c < |d.cells|
      invariant 0 <= c <= |d.cells|
      invariant s.Valid() && s.d == d && fresh(s)
      invariant forall g: nat :: g < c ==> g in s.sorted
      invariant forall g: nat :: !s.Open(g)
      invariant Ranked(d, rank) ==> forall i :: 0 <= i < |s.sorted| ==> ReadyAt(d, s.sorted, i)
    {
      s.Visit(c, rank);
      assert !s.Open(c);
      c := c + 1;
    }
    order := s.sorted;
    assert forall g: nat :: g < |d.cells| ==> g in order;
    if Acyclic(d) {
      assert Ranked(d, rank);
      assert forall i :: 0 <= i < |order| ==> order[i] in order && ReadyAt(d, order, i);
    }
    if Topological(d, order) { OrderIsRank(d, order); }
  }
}
