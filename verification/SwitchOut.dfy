/** The switch-level solve. */
module SwitchOut {
  // The switch-level solve of a transistor netlist: rail values spread through ON channels by a
  // union-find that is rebuilt every sweep.

  type Node = int

  datatype Fet = Fet(d: Node, g: Node, s: Node, ntype: bool)

  datatype Option<T> = None | Some(value: T)

  type Values = map<Node, bool>

  // ---------------------------------------------------------------- ON channels and paths

  /** A transistor conducts when its gate is known and has the conducting value. */
  predicate On(val: Values, f: Fet) { f.g in val && val[f.g] == f.ntype }

  ghost predicate Joined(val: Values, fets: seq<Fet>, k: nat, x: Node, y: Node) {
    exists i :: 0 <= i < k <= |fets| && On(val, fets[i]) && ((fets[i].d == x && fets[i].s == y) || (fets[i].d == y && fets[i].s == x))
  }

  /** A path through ON channels of the first `k` transistors. */
  ghost predicate IsPath(val: Values, fets: seq<Fet>, k: nat, p: seq<Node>) {
    p != [] && forall i, j :: 0 <= i < j < |p| && j == i + 1 ==> Joined(val, fets, k, p[i], p[j])
  }

  ghost predicate Reach(val: Values, fets: seq<Fet>, k: nat, x: Node, y: Node) {
    exists p :: IsPath(val, fets, k, p) && p[0] == x && p[|p| - 1] == y
  }

  lemma ReachSelf(val: Values, fets: seq<Fet>, k: nat, x: Node)
    ensures Reach(val, fets, k, x, x)
  {
    assert IsPath(val, fets, k, [x]);
  }

  lemma ReachStep(val: Values, fets: seq<Fet>, k: nat, x: Node, y: Node)
    requires Joined(val, fets, k, x, y)
    ensures Reach(val, fets, k, x, y)
  {
    var p := [x, y];
    assert IsPath(val, fets, k, p) && p[|p| - 1] == y;
  }

  lemma ReachTrans(val: Values, fets: seq<Fet>, k: nat, x: Node, y: Node, z: Node)
    requires Reach(val, fets, k, x, y) && Reach(val, fets, k, y, z)
    ensures Reach(val, fets, k, x, z)
  {
    var p :| IsPath(val, fets, k, p) && p[0] == x && p[|p| - 1] == y;
    var q :| IsPath(val, fets, k, q) && q[0] == y && q[|q| - 1] == z;
    var r := p + q[1..];
    forall i, j | 0 <= i < j < |r| && j == i + 1 ensures Joined(val, fets, k, r[i], r[j]) {
      if j < |p| {
        assert r[i] == p[i] && r[j] == p[j];
      } else {
        assert r[j] == q[j - |p| + 1] && r[i] == q[i - |p| + 1];
      }
    }
    assert IsPath(val, fets, k, r) && r[|r| - 1] == z;
  }

  lemma ReachSym(val: Values, fets: seq<Fet>, k: nat, x: Node, y: Node)
    requires Reach(val, fets, k, x, y)
    ensures Reach(val, fets, k, y, x)
  {
    var p :| IsPath(val, fets, k, p) && p[0] == x && p[|p| - 1] == y;
    var r := seq(|p|, i requires 0 <= i < |p| => p[|p| - 1 - i]);
    forall i, j | 0 <= i < j < |r| && j == i + 1 ensures Joined(val, fets, k, r[i], r[j]) {
      assert Joined(val, fets, k, p[|p| - 1 - j], p[|p| - 1 - i]);
    }
    assert IsPath(val, fets, k, r) && r[0] == y && r[|r| - 1] == x;
  }

  /** More known values and more transistors only add paths. */
  lemma ReachMore(val: Values, val': Values, fets: seq<Fet>, k: nat, k': nat, x: Node, y: Node)
    requires Reach(val, fets, k, x, y) && k <= k' <= |fets| && Extends(val, val')
    ensures Reach(val', fets, k', x, y)
  {
    var p :| IsPath(val, fets, k, p) && p[0] == x && p[|p| - 1] == y;
    forall i, j | 0 <= i < j < |p| && j == i + 1 ensures Joined(val', fets, k', p[i], p[j]) {
      assert Joined(val, fets, k, p[i], p[j]);
      var m :| 0 <= m < k <= |fets| && On(val, fets[m]) && ((fets[m].d == p[i] && fets[m].s == p[j]) || (fets[m].d == p[j] && fets[m].s == p[i]));
      assert On(val', fets[m]);
    }
    assert IsPath(val', fets, k', p);
  }

  predicate Extends(val: Values, val': Values) {
    forall n :: n in val ==> n in val' && val'[n] == val[n]
  }

  // ---------------------------------------------------------------- union-find with path halving

  /** The parent of `x` is a key, nearer to the root unless `x` is one. */
  ghost predicate NodeOk(p: map<Node, Node>, d: map<Node, nat>, x: Node) {
    x in p && x in d && p[x] in p && p[x] in d && (p[x] != x ==> d[p[x]] < d[x])
  }

  /** Parents are keys, and `d` decreases towards the roots. */
  ghost predicate Forest(p: map<Node, Node>, d: map<Node, nat>) {
    p.Keys == d.Keys && forall x {:trigger NodeOk(p, d, x)} :: x in p ==> NodeOk(p, d, x)
  }

  ghost function Root(p: map<Node, Node>, d: map<Node, nat>, x: Node): (r: Node)
    requires Forest(p, d) && x in p
    ensures r in p && p[r] == r
    decreases d[x]
  {
    assert NodeOk(p, d, x);
    if p[x] == x then x else assert NodeOk(p, d, p[x]); Root(p, d, p[x])
  }

  /** A node never looked up stands alone. */
  ghost function RootOf(p: map<Node, Node>, d: map<Node, nat>, x: Node): Node
    requires Forest(p, d)
  {
    if x in p then Root(p, d, x) else x
  }

  ghost predicate SameRoots(p: map<Node, Node>, d: map<Node, nat>, p': map<Node, Node>, d': map<Node, nat>)
    requires Forest(p, d) && Forest(p', d')
  {
    forall y :: RootOf(p', d', y) == RootOf(p, d, y)
  }

  lemma AddForest(p: map<Node, Node>, d: map<Node, nat>, x: Node)
    requires Forest(p, d) && x !in p
    ensures Forest(p[x := x], d[x := 0])
  {
    var p', d' := p[x := x], d[x := 0];
    forall z | z in p' ensures NodeOk(p', d', z) { assert z != x ==> NodeOk(p, d, z); }
  }

  /** `setdefault`: a new singleton changes no root. */
  lemma {:induction false} AddRoot(p: map<Node, Node>, d: map<Node, nat>, x: Node, y: Node)
    requires Forest(p, d) && x !in p && y in p
    ensures Forest(p[x := x], d[x := 0]) && Root(p[x := x], d[x := 0], y) == Root(p, d, y)
    decreases d[y]
  {
    AddForest(p, d, x);
    assert NodeOk(p, d, y);
    if p[y] != y { AddRoot(p, d, x, p[y]); }
  }

  lemma AddRootAll(p: map<Node, Node>, d: map<Node, nat>, x: Node)
    requires Forest(p, d) && x !in p
    ensures Forest(p[x := x], d[x := 0]) && SameRoots(p, d, p[x := x], d[x := 0])
  {
    AddForest(p, d, x);
    var p', d' := p[x := x], d[x := 0];
    forall y | y in p ensures RootOf(p', d', y) == RootOf(p, d, y) { AddRoot(p, d, x, y); }
  }

  lemma HalveForest(p: map<Node, Node>, d: map<Node, nat>, x: Node)
    requires Forest(p, d) && x in p
    ensures p[x] in p && p[p[x]] in p && Forest(p[x := p[p[x]]], d)
  {
    assert NodeOk(p, d, x) && NodeOk(p, d, p[x]) && NodeOk(p, d, p[p[x]]);
    var p' := p[x := p[p[x]]];
    forall z | z in p' ensures NodeOk(p', d, z) { assert NodeOk(p, d, z); }
  }

  /** Path halving: pointing a node at its grandparent changes no root. */
  lemma {:induction false} Halve(p: map<Node, Node>, d: map<Node, nat>, x: Node, y: Node)
    requires Forest(p, d) && x in p && y in p
    ensures p[x] in p && Forest(p[x := p[p[x]]], d) && Root(p[x := p[p[x]]], d, y) == Root(p, d, y)
    decreases d[y]
  {
    HalveForest(p, d, x);
    var p' := p[x := p[p[x]]];
    assert NodeOk(p, d, x) && NodeOk(p, d, y) && NodeOk(p, d, p[x]);
    if p[p[x]] == p[x] {
      assert p' == p;
    } else if y == x {
      assert Root(p, d, x) == Root(p, d, p[x]) == Root(p, d, p[p[x]]);
      Halve(p, d, x, p[p[x]]);
    } else if p[y] != y {
      Halve(p, d, x, p[y]);
    }
  }

  lemma HalveAll(p: map<Node, Node>, d: map<Node, nat>, x: Node)
    requires Forest(p, d) && x in p
    ensures p[x] in p && Forest(p[x := p[p[x]]], d) && SameRoots(p, d, p[x := p[p[x]]], d)
  {
    HalveForest(p, d, x);
    forall y | y in p ensures RootOf(p[x := p[p[x]]], d, y) == RootOf(p, d, y) { Halve(p, d, x, y); }
  }

  /** Distances after hanging the tree of `a` under root `b`. */
  ghost function Hung(p: map<Node, Node>, d: map<Node, nat>, a: Node, b: Node): (d': map<Node, nat>)
    requires Forest(p, d) && b in d
  {
    map x | x in p :: if Root(p, d, x) == a then d[x] + d[b] + 1 else d[x]
  }

  /** Linking root `a` under root `b` merges the two trees and nothing else. */
  lemma {:induction false} Hang(p: map<Node, Node>, d: map<Node, nat>, a: Node, b: Node, y: Node)
    requires Forest(p, d) && a in p && b in p && p[a] == a && p[b] == b && a != b && y in p
    ensures Forest(p[a := b], Hung(p, d, a, b))
    ensures Root(p[a := b], Hung(p, d, a, b), y) == if Root(p, d, y) == a then b else Root(p, d, y)
    decreases d[y]
  {
    HangForest(p, d, a, b);
    var p', d' := p[a := b], Hung(p, d, a, b);
    assert NodeOk(p, d, y) && NodeOk(p', d', y);
    if y == a {
      assert Root(p', d', b) == b;
    } else if p[y] != y {
      Hang(p, d, a, b, p[y]);
    }
  }

  lemma HangForest(p: map<Node, Node>, d: map<Node, nat>, a: Node, b: Node)
    requires Forest(p, d) && a in p && b in p && p[a] == a && p[b] == b && a != b
    ensures Forest(p[a := b], Hung(p, d, a, b))
  {
    var p', d' := p[a := b], Hung(p, d, a, b);
    forall x | x in p' ensures NodeOk(p', d', x) {
      assert NodeOk(p, d, x);
      if x != a { assert Root(p, d, x) == Root(p, d, p[x]); }
    }
  }

  class UnionFind {
    var parent: map<Node, Node>
    var keys: seq<Node>  // the keys of `parent` in insertion order
    ghost var d: map<Node, nat>

    ghost predicate Valid()
      reads this
    {
      Forest(parent, d) && forall n :: n in keys <==> n in parent
    }

    ghost function RootAt(x: Node): Node
      reads this
      requires Valid()
    {
      RootOf(parent, d, x)
    }

    constructor ()
      ensures Valid() && parent == map[]
    {
      parent, keys, d := map[], [], map[];
    }

    /** `parent.setdefault(x, x)`. */
    method Enter(x: Node)
      requires Valid()
      modifies this
      ensures Valid() && parent.Keys == old(parent.Keys) + {x} && forall y :: RootAt(y) == old(RootAt(y))
    {
      if x !in parent {
        AddRootAll(parent, d, x);
        parent, keys, d := parent[x := x], keys + [x], d[x := 0];
      }
    }

    /** `parent[x] = parent[parent[x]]; x = parent[x]`. */
    method Halved(x: Node) returns (y: Node)
      requires Valid() && x in parent && parent[x] != x
      modifies this`parent
      ensures Valid() && parent.Keys == old(parent.Keys) && forall z :: RootAt(z) == old(RootAt(z))
      ensures y in parent && d[y] < d[x] && RootAt(y) == RootAt(x)
    {
      HalveAll(parent, d, x);
      assert NodeOk(parent, d, x) && NodeOk(parent, d, parent[x]);
      parent := parent[x := parent[parent[x]]];
      y := parent[x];
    }

    /** `find`: the root, halving the path on the way; no node changes its root. */
    method Find(x0: Node) returns (r: Node)
      requires Valid()
      modifies this
      ensures Valid() && r == old(RootAt(x0)) && parent.Keys == old(parent.Keys) + {x0}
      ensures r in parent && parent[r] == r && forall y :: RootAt(y) == old(RootAt(y))
    {
      var x := x0;
      Enter(x);
      while parent[x] != x
        invariant Valid() && x in parent && parent.Keys == old(parent.Keys) + {x0}
        invariant RootAt(x) == old(RootAt(x0)) && forall y :: RootAt(y) == old(RootAt(y))
        decreases d[x]
      {
        x := Halved(x);
      }
      r := x;
    }

    /** `parent[find(a)] = find(b)`. */
    method Union(a: Node, b: Node)
      requires Valid()
      modifies this
      ensures Valid() && parent.Keys == old(parent.Keys) + {a, b}
      ensures forall y :: RootAt(y) == if old(RootAt(y)) == old(RootAt(a)) then old(RootAt(b)) else old(RootAt(y))
    {
      var rb := Find(b);
      var ra := Find(a);
      if ra != rb {
        HangAll(parent, d, ra, rb);
        d := Hung(parent, d, ra, rb);
      } else {
        assert parent[ra := rb] == parent;
      }
      parent := parent[ra := rb];
    }
  }

  lemma HangAll(p: map<Node, Node>, d: map<Node, nat>, a: Node, b: Node)
    requires Forest(p, d) && a in p && b in p && p[a] == a && p[b] == b && a != b
    ensures Forest(p[a := b], Hung(p, d, a, b))
    ensures forall y :: RootOf(p[a := b], Hung(p, d, a, b), y) == if RootOf(p, d, y) == a then b else RootOf(p, d, y)
  {
    HangForest(p, d, a, b);
    forall y | y in p
      ensures RootOf(p[a := b], Hung(p, d, a, b), y) == if RootOf(p, d, y) == a then b else RootOf(p, d, y)
    {
      Hang(p, d, a, b, y);
    }
  }

  // ---------------------------------------------------------------- one sweep finds the connected nodes

  /** Two nodes share a root exactly when ON channels of the first `k` transistors join them. */
  ghost predicate Merged(uf: UnionFind, val: Values, fets: seq<Fet>, k: nat)
    reads uf
    requires uf.Valid() && k <= |fets|
  {
    forall x, y :: uf.RootAt(x) == uf.RootAt(y) <==> Reach(val, fets, k, x, y)
  }

  lemma NoJoin(val: Values, fets: seq<Fet>, x: Node, y: Node)
    ensures !Joined(val, fets, 0, x, y)
  {
  }

  lemma NoChannels(val: Values, fets: seq<Fet>, x: Node, y: Node)
    ensures Reach(val, fets, 0, x, y) <==> x == y
  {
    if Reach(val, fets, 0, x, y) {
      var p :| IsPath(val, fets, 0, p) && p[0] == x && p[|p| - 1] == y;
      if |p| > 1 { NoJoin(val, fets, p[0], p[1]); }
    }
    ReachSelf(val, fets, 0, x);
  }

  /** One more ON channel joins exactly the two classes at its ends. */
  ghost predicate Bridged(val: Values, fets: seq<Fet>, k: nat, x: Node, y: Node)
    requires k < |fets|
  {
    var a, b := fets[k].d, fets[k].s;
    || Reach(val, fets, k, x, y)
    || (On(val, fets[k]) && Reach(val, fets, k, x, a) && Reach(val, fets, k, b, y))
    || (On(val, fets[k]) && Reach(val, fets, k, x, b) && Reach(val, fets, k, a, y))
  }

  lemma ExtendsSelf(val: Values)
    ensures Extends(val, val)
  {
  }

  lemma BridgeReach(val: Values, fets: seq<Fet>, k: nat, x: Node, y: Node)
    requires k < |fets| && Bridged(val, fets, k, x, y)
    ensures Reach(val, fets, k + 1, x, y)
  {
    var a, b := fets[k].d, fets[k].s;
    ExtendsSelf(val);
    if Reach(val, fets, k, x, y) {
      ReachMore(val, val, fets, k, k + 1, x, y);
    } else {
      var c, e := if Reach(val, fets, k, x, a) && Reach(val, fets, k, b, y) then a else b,
                  if Reach(val, fets, k, x, a) && Reach(val, fets, k, b, y) then b else a;
      ReachMore(val, val, fets, k, k + 1, x, c);
      ReachMore(val, val, fets, k, k + 1, e, y);
      assert Joined(val, fets, k + 1, c, e);
      ReachStep(val, fets, k + 1, c, e);
      ReachTrans(val, fets, k + 1, x, c, e);
      ReachTrans(val, fets, k + 1, x, e, y);
    }
  }

  /** One channel, old or new. */
  lemma StepBridged(val: Values, fets: seq<Fet>, k: nat, x: Node, y: Node)
    requires k < |fets| && Joined(val, fets, k + 1, x, y)
    ensures Bridged(val, fets, k, x, y)
  {
    if Joined(val, fets, k, x, y) {
      ReachStep(val, fets, k, x, y);
    } else {
      ReachSelf(val, fets, k, x);
      ReachSelf(val, fets, k, y);
    }
  }

  lemma BridgeTrans(val: Values, fets: seq<Fet>, k: nat, x: Node, y: Node, z: Node)
    requires k < |fets| && Bridged(val, fets, k, x, y) && Bridged(val, fets, k, y, z)
    ensures Bridged(val, fets, k, x, z)
  {
    var a, b := fets[k].d, fets[k].s;
    forall u, v, w | Reach(val, fets, k, u, v) && Reach(val, fets, k, v, w) ensures Reach(val, fets, k, u, w) {
      ReachTrans(val, fets, k, u, v, w);
    }
  }

  lemma {:induction false} PathBridged(val: Values, fets: seq<Fet>, k: nat, p: seq<Node>, n: nat)
    requires k < |fets| && IsPath(val, fets, k + 1, p) && n < |p|
    ensures Bridged(val, fets, k, p[0], p[n])
    decreases n
  {
    if n == 0 {
      ReachSelf(val, fets, k, p[0]);
    } else {
      PathBridged(val, fets, k, p, n - 1);
      StepBridged(val, fets, k, p[n - 1], p[n]);
      BridgeTrans(val, fets, k, p[0], p[n - 1], p[n]);
    }
  }

  lemma ReachBridged(val: Values, fets: seq<Fet>, k: nat, x: Node, y: Node)
    requires k < |fets|
    ensures Reach(val, fets, k + 1, x, y) <==> Bridged(val, fets, k, x, y)
  {
    if Reach(val, fets, k + 1, x, y) {
      var p :| IsPath(val, fets, k + 1, p) && p[0] == x && p[|p| - 1] == y;
      PathBridged(val, fets, k, p, |p| - 1);
    }
    if Bridged(val, fets, k, x, y) { BridgeReach(val, fets, k, x, y); }
  }

  /** A fresh union-find joins nothing. */
  lemma FreshMerged(uf: UnionFind, val: Values, fets: seq<Fet>)
    requires uf.Valid() && uf.parent == map[]
    ensures Merged(uf, val, fets, 0)
  {
    forall x, y ensures uf.RootAt(x) == uf.RootAt(y) <==> Reach(val, fets, 0, x, y) { NoChannels(val, fets, x, y); }
  }

  /** The transistor loop of a sweep. */
  method MergeOn(val: Values, fets: seq<Fet>, uf: UnionFind)
    requires uf.Valid() && uf.parent == map[]
    modifies uf
    ensures uf.Valid() && Merged(uf, val, fets, |fets|)
    ensures forall n :: n in uf.parent ==> IsEnd(fets, n)
  {
    FreshMerged(uf, val, fets);
    for k := 0 to |fets|
      invariant uf.Valid() && Merged(uf, val, fets, k)
      invariant forall n :: n in uf.parent ==> IsEnd(fets, n)
    {
      var f := fets[k];
      assert f in fets;
      MergeStep(val, fets, k, uf);
    }
  }

  predicate IsEnd(fets: seq<Fet>, n: Node) { exists f :: f in fets && (f.d == n || f.s == n) }

  method MergeStep(val: Values, fets: seq<Fet>, k: nat, uf: UnionFind)
    requires uf.Valid() && k < |fets| && Merged(uf, val, fets, k) && forall n :: n in uf.parent ==> IsEnd(fets, n)
    modifies uf
    ensures uf.Valid() && Merged(uf, val, fets, k + 1) && forall n :: n in uf.parent ==> IsEnd(fets, n)
  {
    var f := fets[k];
    assert f in fets;
    label Before:
    if f.g in val && val[f.g] == f.ntype {
      uf.Union(f.d, f.s);
      assert IsEnd(fets, f.d) && IsEnd(fets, f.s);
    }
    forall x, y ensures uf.RootAt(x) == uf.RootAt(y) <==> Reach(val, fets, k + 1, x, y) {
      ReachBridged(val, fets, k, x, y);
      assert old@Before(uf.RootAt(x)) == old@Before(uf.RootAt(y)) <==> Reach(val, fets, k, x, y);
      assert old@Before(uf.RootAt(x)) == old@Before(uf.RootAt(f.d)) <==> Reach(val, fets, k, x, f.d);
      assert old@Before(uf.RootAt(x)) == old@Before(uf.RootAt(f.s)) <==> Reach(val, fets, k, x, f.s);
      assert old@Before(uf.RootAt(f.d)) == old@Before(uf.RootAt(y)) <==> Reach(val, fets, k, f.d, y);
      assert old@Before(uf.RootAt(f.s)) == old@Before(uf.RootAt(y)) <==> Reach(val, fets, k, f.s, y);
    }
  }

  // ---------------------------------------------------------------- reference solve

  ghost predicate Tied(val: Values, fets: seq<Fet>, x: Node, y: Node) { Reach(val, fets, |fets|, x, y) }

  /** What a sweep makes of the values: known nodes keep theirs, unknown nodes tied to a rail take the rail's. */
  ghost predicate IsGrown(val: Values, fets: seq<Fet>, hi: Node, lo: Node, v: Values) {
    && Extends(val, v)
    && forall n :: n !in val ==>
      && (n in v <==> Tied(val, fets, n, hi) || Tied(val, fets, n, lo))
      && (n in v ==> v[n] == Tied(val, fets, n, hi))
  }

  lemma SameMap(a: Values, b: Values)
    requires Extends(a, b) && Extends(b, a)
    ensures a == b
  {
    assert a.Keys == b.Keys by {
      forall n ensures n in a.Keys <==> n in b.Keys {
        if n in a { assert n in b; }
        if n in b { assert n in a; }
      }
    }
    forall n | n in a ensures a[n] == b[n] { }
  }

  /** A sweep has one result. */
  lemma GrownUnique(val: Values, fets: seq<Fet>, hi: Node, lo: Node, v: Values, w: Values)
    requires IsGrown(val, fets, hi, lo, v) && IsGrown(val, fets, hi, lo, w)
    ensures v == w
  {
    forall n | n in v ensures n in w && w[n] == v[n] { }
    forall n | n in w ensures n in v && v[n] == w[n] { }
    SameMap(v, w);
  }

  /** The valuations of successive sweeps, without contention and each one changing something. */
  ghost predicate IsTrace(tr: seq<Values>, val0: Values, fets: seq<Fet>, hi: Node, lo: Node) {
    && tr != [] && tr[0] == val0
    && forall i, j :: 0 <= i < j < |tr| && j == i + 1 ==> Sweeps(tr[i], fets, hi, lo, tr[j])
  }

  ghost predicate Sweeps(val: Values, fets: seq<Fet>, hi: Node, lo: Node, v: Values) {
    !Tied(val, fets, hi, lo) && IsGrown(val, fets, hi, lo, v) && v != val
  }

  function Last(tr: seq<Values>): Values
    requires tr != []
  {
    tr[|tr| - 1]
  }

  /** The solve is over: the sweeps are used up, the rails are tied, or nothing changes any more. */
  ghost predicate Over(tr: seq<Values>, fets: seq<Fet>, hi: Node, lo: Node, sweeps: nat)
    requires tr != []
  {
    && |tr| <= sweeps + 1
    && (|tr| == sweeps + 1 || Tied(Last(tr), fets, hi, lo) || IsGrown(Last(tr), fets, hi, lo, Last(tr)))
  }

  ghost function Result(tr: seq<Values>, fets: seq<Fet>, hi: Node, lo: Node, sweeps: nat, out: Node): Option<bool>
    requires tr != []
  {
    if |tr| <= sweeps && Tied(Last(tr), fets, hi, lo) then None
    else if out in Last(tr) then Some(Last(tr)[out]) else None
  }

  /** The classes and the rails' roots of this sweep. */
  ghost predicate Ready(uf: UnionFind, val: Values, fets: seq<Fet>, hi: Node, lo: Node, rh: Node, rl: Node)
    reads uf
  {
    uf.Valid() && Merged(uf, val, fets, |fets|) && rh == uf.RootAt(hi) && rl == uf.RootAt(lo) && rh != rl
  }

  /** One node: a known value is never overwritten. */
  method AssignNode(val: Values, ghost fets: seq<Fet>, uf: UnionFind, ghost hi: Node, ghost lo: Node, rh: Node, rl: Node,
                    v0: Values, ghost done: set<Node>, n: Node) returns (v: Values, changed: bool)
    requires Ready(uf, val, fets, hi, lo, rh, rl) && n in uf.parent && Partly(val, v0, fets, hi, lo, done)
    modifies uf
    ensures Ready(uf, val, fets, hi, lo, rh, rl) && uf.parent.Keys == old(uf.parent.Keys)
    ensures Partly(val, v, fets, hi, lo, done + {n})
    ensures changed <==> v != v0
    ensures v0 != val ==> v != val
  {
    assert uf.RootAt(n) == uf.RootAt(hi) <==> Tied(val, fets, n, hi);
    assert uf.RootAt(n) == uf.RootAt(lo) <==> Tied(val, fets, n, lo);
    label Before:
    var r := uf.Find(n);
    forall x, y ensures uf.RootAt(x) == uf.RootAt(y) <==> Reach(val, fets, |fets|, x, y) {
      assert old@Before(uf.RootAt(x)) == old@Before(uf.RootAt(y)) <==> Reach(val, fets, |fets|, x, y);
    }
    v, changed := v0, false;
    if (r == rh || r == rl) && n !in v {
      v := v[n := r == rh];
      changed := true;
      assert n in v && n !in v0;
    }
    PartlyMore(val, v0, v, fets, hi, lo, done, n);
    StillChanged(val, v0, v, fets, hi, lo, done, done + {n});
  }

  /** A sweep that added a value is not undone. */
  lemma StillChanged(val: Values, v: Values, v': Values, fets: seq<Fet>, hi: Node, lo: Node, done: set<Node>, done': set<Node>)
    requires Partly(val, v, fets, hi, lo, done) && Partly(val, v', fets, hi, lo, done') && Extends(v, v')
    ensures v != val ==> v' != val
  {
    if v' == val { SameMap(val, v); }
  }

  /** The assignment loop of a sweep, over the nodes of the union-find. */
  method AssignAll(val: Values, ghost fets: seq<Fet>, uf: UnionFind, ghost hi: Node, ghost lo: Node, rh: Node, rl: Node)
    returns (v: Values, changed: bool)
    requires Ready(uf, val, fets, hi, lo, rh, rl)
    modifies uf
    ensures Partly(val, v, fets, hi, lo, old(uf.parent.Keys)) && (changed <==> v != val)
  {
    v, changed := val, false;
    var keys := uf.keys;
    ghost var all := uf.parent.Keys;
    AllTaken(keys, uf.parent);
    for i := 0 to |keys|
      invariant Ready(uf, val, fets, hi, lo, rh, rl) && uf.parent.Keys == all && (changed <==> v != val)
      invariant Partly(val, v, fets, hi, lo, Taken(keys, i))
    {
      assert keys[i] in all;
      var w, c := AssignNode(val, fets, uf, hi, lo, rh, rl, v, Taken(keys, i), keys[i]);
      v, changed := w, changed || c;
      TakeOne(keys, i);
    }
  }

  lemma TakeOne(keys: seq<Node>, i: nat)
    requires i < |keys|
    ensures Taken(keys, i + 1) == Taken(keys, i) + {keys[i]}
  {
    assert keys[..i+1] == keys[..i] + [keys[i]];
  }

  lemma AllTaken(keys: seq<Node>, p: map<Node, Node>)
    requires forall n :: n in keys <==> n in p
    ensures Taken(keys, |keys|) == p.Keys && forall i :: 0 <= i < |keys| ==> keys[i] in p.Keys
  {
    assert keys[..|keys|] == keys;
    forall n ensures n in Taken(keys, |keys|) <==> n in p.Keys { }
  }

  ghost function Taken(keys: seq<Node>, n: nat): set<Node>
    requires n <= |keys|
  {
    set x | x in keys[..n]
  }

  /** The assignment of a sweep reaches exactly the grown values. */
  method Assign(val: Values, ghost fets: seq<Fet>, uf: UnionFind, ghost hi: Node, ghost lo: Node, rh: Node, rl: Node)
    returns (v: Values, changed: bool)
    requires Ready(uf, val, fets, hi, lo, rh, rl) && hi in uf.parent && lo in uf.parent
    modifies uf
    ensures IsGrown(val, fets, hi, lo, v) && (changed <==> v != val)
  {
    KeysSuffice(uf, val, fets, hi, lo);
    ghost var all := uf.parent.Keys;
    v, changed := AssignAll(val, fets, uf, hi, lo, rh, rl);
    GrownIs(val, v, fets, hi, lo, all);
  }

  /** The nodes of `done` have been assigned as a sweep assigns them. */
  ghost predicate Partly(val: Values, v: Values, fets: seq<Fet>, hi: Node, lo: Node, done: set<Node>) {
    && Extends(val, v)
    && (forall n :: n in v ==> n in val || n in done)
    && (forall n :: n in done && n !in val && (Tied(val, fets, n, hi) || Tied(val, fets, n, lo)) ==> n in v)
    && forall n :: n in v && n !in val ==> (Tied(val, fets, n, hi) || Tied(val, fets, n, lo)) && v[n] == Tied(val, fets, n, hi)
  }

  lemma PartlyMore(val: Values, v: Values, v': Values, fets: seq<Fet>, hi: Node, lo: Node, done: set<Node>, n: Node)
    requires Partly(val, v, fets, hi, lo, done)
    requires v' == if (Tied(val, fets, n, hi) || Tied(val, fets, n, lo)) && n !in v then v[n := Tied(val, fets, n, hi)] else v
    ensures Partly(val, v', fets, hi, lo, done + {n})
  {
  }

  /** Every node tied to a rail is in the union-find. */
  lemma KeysSuffice(uf: UnionFind, val: Values, fets: seq<Fet>, hi: Node, lo: Node)
    requires uf.Valid() && Merged(uf, val, fets, |fets|) && hi in uf.parent && lo in uf.parent
    ensures forall n :: Tied(val, fets, n, hi) || Tied(val, fets, n, lo) ==> n in uf.parent
  {
    forall n | Tied(val, fets, n, hi) || Tied(val, fets, n, lo) ensures n in uf.parent {
      assert uf.RootAt(n) == uf.RootAt(hi) || uf.RootAt(n) == uf.RootAt(lo);
    }
  }

  lemma GrownIs(val: Values, v: Values, fets: seq<Fet>, hi: Node, lo: Node, all: set<Node>)
    requires Partly(val, v, fets, hi, lo, all)
    requires forall n :: Tied(val, fets, n, hi) || Tied(val, fets, n, lo) ==> n in all
    ensures IsGrown(val, fets, hi, lo, v)
  {
  }

  /** One sweep: a fresh union-find over the ON channels, the contention check, the assignment. */
  method Sweep(val: Values, fets: seq<Fet>, hi: Node, lo: Node) returns (v: Option<Values>, changed: bool)
    ensures v.None? <==> Tied(val, fets, hi, lo)
    ensures v.Some? ==> IsGrown(val, fets, hi, lo, v.value) && (changed <==> v.value != val)
  {
    var uf := new UnionFind();
    MergeOn(val, fets, uf);
    ghost var tied := uf.RootAt(hi) == uf.RootAt(lo);
    assert tied <==> Tied(val, fets, hi, lo);
    label Before:
    var rh := uf.Find(hi);
    var rl := uf.Find(lo);
    changed := false;
    if rh == rl { return None, false; }
    forall x, y ensures uf.RootAt(x) == uf.RootAt(y) <==> Reach(val, fets, |fets|, x, y) {
      assert old@Before(uf.RootAt(x)) == old@Before(uf.RootAt(y)) <==> Reach(val, fets, |fets|, x, y);
    }
    var w, c := Assign(val, fets, uf, hi, lo, rh, rl);
    return Some(w), c;
  }

  const SWEEPS := 8

  function Rails(fixed: Values, hi: Node, lo: Node): Values { fixed[hi := true][lo := false] }

  lemma TraceMore(tr: seq<Values>, val0: Values, fets: seq<Fet>, hi: Node, lo: Node, v: Values)
    requires IsTrace(tr, val0, fets, hi, lo) && Sweeps(Last(tr), fets, hi, lo, v)
    ensures IsTrace(tr + [v], val0, fets, hi, lo)
  {
  }

  /** `r` is what some finished run of sweeps returns; by `OrderIrrelevant` there is only one. */
  ghost predicate Solved(fets: seq<Fet>, hi: Node, lo: Node, fixed: Values, out: Node, r: Option<bool>) {
    exists tr :: IsTrace(tr, Rails(fixed, hi, lo), fets, hi, lo) && Over(tr, fets, hi, lo, SWEEPS) &&
      r == Result(tr, fets, hi, lo, SWEEPS, out)
  }

  /** `_switch_out`: at most eight sweeps from the rails and the fixed inputs. */
  method SwitchOut(fets: seq<Fet>, hi: Node, lo: Node, fixed: Values, out: Node)
    returns (r: Option<bool>, ghost tr: seq<Values>)
    ensures IsTrace(tr, Rails(fixed, hi, lo), fets, hi, lo) && Over(tr, fets, hi, lo, SWEEPS)
    ensures r == Result(tr, fets, hi, lo, SWEEPS, out) && Solved(fets, hi, lo, fixed, out, r)
    ensures lo in tr[0] && !tr[0][lo] && (hi != lo ==> hi in tr[0] && tr[0][hi])
    ensures forall n :: n in fixed && n != hi && n != lo ==> n in tr[0] && tr[0][n] == fixed[n]
    ensures forall n :: n in tr[0] ==> n in fixed || n == hi || n == lo
    ensures |tr| <= 9
    ensures |tr| < 9 ==> Tied(Last(tr), fets, hi, lo) || IsGrown(Last(tr), fets, hi, lo, Last(tr))
    ensures r.Some? ==> out in Last(tr) && r.value == Last(tr)[out]
    ensures r.None? ==> out !in Last(tr) || (|tr| < 9 && Tied(Last(tr), fets, hi, lo))
  {
    var val := Rails(fixed, hi, lo);
    tr := [val];
    for k := 0 to SWEEPS
      invariant IsTrace(tr, Rails(fixed, hi, lo), fets, hi, lo) && |tr| == k + 1 && Last(tr) == val
    {
      var v, changed := Sweep(val, fets, hi, lo);
      if v.None? { return None, tr; }
      if !changed { break; }
      TraceMore(tr, Rails(fixed, hi, lo), fets, hi, lo, v.value);
      val, tr := v.value, tr + [v.value];
    }
    r := if out in val then Some(val[out]) else None;
  }

  // ---------------------------------------------------------------- what the solve means

  lemma TiedMore(val: Values, val': Values, fets: seq<Fet>, x: Node, y: Node)
    requires Tied(val, fets, x, y) && Extends(val, val')
    ensures Tied(val', fets, x, y)
  {
    ReachMore(val, val', fets, |fets|, |fets|, x, y);
  }

  /** Values beyond the start are backed by an ON path to their rail, and none is ever overwritten. */
  ghost predicate Backed(val0: Values, val: Values, fets: seq<Fet>, hi: Node, lo: Node) {
    && Extends(val0, val)
    && forall n :: n in val && n !in val0 ==> Tied(val, fets, n, if val[n] then hi else lo)
  }

  lemma GrownBacked(val0: Values, val: Values, fets: seq<Fet>, hi: Node, lo: Node, g: Values)
    requires Backed(val0, val, fets, hi, lo) && IsGrown(val, fets, hi, lo, g)
    ensures Backed(val0, g, fets, hi, lo)
  {
    forall n | n in g && n !in val0 ensures Tied(g, fets, n, if g[n] then hi else lo) {
      TiedMore(val, g, fets, n, if g[n] then hi else lo);
    }
  }

  /** Every valuation of a solve keeps the given values, and every value it added has an ON path to its rail. */
  lemma {:induction false} TraceBacked(tr: seq<Values>, val0: Values, fets: seq<Fet>, hi: Node, lo: Node, i: nat)
    requires IsTrace(tr, val0, fets, hi, lo) && i < |tr|
    ensures Backed(val0, tr[i], fets, hi, lo)
    decreases i
  {
    if i == 0 {
    } else {
      TraceBacked(tr, val0, fets, hi, lo, i - 1);
      assert Sweeps(tr[i - 1], fets, hi, lo, tr[i]);
      GrownBacked(val0, tr[i - 1], fets, hi, lo, tr[i]);
    }
  }

  /** A returned 1 (0) has an ON path to the high (low) rail, unless the output was given. */
  lemma OutputBacked(tr: seq<Values>, val0: Values, fets: seq<Fet>, hi: Node, lo: Node, sweeps: nat, out: Node)
    requires IsTrace(tr, val0, fets, hi, lo) && out !in val0
    ensures var r := Result(tr, fets, hi, lo, sweeps, out);
      r.Some? ==> Tied(Last(tr), fets, out, if r.value then hi else lo)
  {
    TraceBacked(tr, val0, fets, hi, lo, |tr| - 1);
  }

  /** Closed under the rails: a node not given at the start and tied to a rail has the rail's value. */
  ghost predicate Saturated(val0: Values, w: Values, fets: seq<Fet>, hi: Node, lo: Node) {
    && Extends(val0, w)
    && forall n :: n !in val0 ==>
      && (Tied(w, fets, n, hi) ==> n in w && w[n])
      && (Tied(w, fets, n, lo) ==> n in w && !w[n])
  }

  lemma GrownBelow(val0: Values, val: Values, w: Values, fets: seq<Fet>, hi: Node, lo: Node, g: Values)
    requires Saturated(val0, w, fets, hi, lo) && Extends(val0, val) && Extends(val, w) && IsGrown(val, fets, hi, lo, g)
    ensures Extends(g, w)
  {
    forall n | n in g ensures n in w && w[n] == g[n] {
      if n !in val { TiedMore(val, w, fets, n, if Tied(val, fets, n, hi) then hi else lo); }
    }
  }

  /** Every valuation of a solve stays below every saturated one. */
  lemma {:induction false} TraceBelow(tr: seq<Values>, val0: Values, w: Values, fets: seq<Fet>, hi: Node, lo: Node, i: nat)
    requires IsTrace(tr, val0, fets, hi, lo) && i < |tr| && Saturated(val0, w, fets, hi, lo)
    ensures Extends(tr[i], w)
    decreases i
  {
    if i == 0 {
    } else {
      TraceBelow(tr, val0, w, fets, hi, lo, i - 1);
      TraceBacked(tr, val0, fets, hi, lo, i - 1);
      assert Sweeps(tr[i - 1], fets, hi, lo, tr[i]);
      GrownBelow(val0, tr[i - 1], w, fets, hi, lo, tr[i]);
    }
  }

  /** A fixpoint without contention is saturated. */
  lemma StopSaturated(val0: Values, val: Values, fets: seq<Fet>, hi: Node, lo: Node)
    requires Backed(val0, val, fets, hi, lo) && !Tied(val, fets, hi, lo) && IsGrown(val, fets, hi, lo, val)
    ensures Saturated(val0, val, fets, hi, lo)
  {
    forall n | n !in val0
      ensures Tied(val, fets, n, hi) ==> n in val && val[n]
      ensures Tied(val, fets, n, lo) ==> n in val && !val[n]
    {
      OneRail(val, fets, hi, lo, n);
    }
  }

  /** No node is tied to both rails. */
  lemma OneRail(val: Values, fets: seq<Fet>, hi: Node, lo: Node, n: Node)
    requires !Tied(val, fets, hi, lo)
    ensures !(Tied(val, fets, n, hi) && Tied(val, fets, n, lo))
  {
    if Tied(val, fets, n, hi) && Tied(val, fets, n, lo) {
      ReachSym(val, fets, |fets|, n, hi);
      ReachTrans(val, fets, |fets|, hi, n, lo);
    }
  }

  /** A solve that stops because nothing changes ends in the least saturated valuation. */
  lemma StopIsLeast(tr: seq<Values>, val0: Values, fets: seq<Fet>, hi: Node, lo: Node)
    requires IsTrace(tr, val0, fets, hi, lo) && !Tied(Last(tr), fets, hi, lo) && IsGrown(Last(tr), fets, hi, lo, Last(tr))
    ensures Saturated(val0, Last(tr), fets, hi, lo)
    ensures forall w :: Saturated(val0, w, fets, hi, lo) ==> Extends(Last(tr), w)
  {
    TraceBacked(tr, val0, fets, hi, lo, |tr| - 1);
    StopSaturated(val0, Last(tr), fets, hi, lo);
    forall w | Saturated(val0, w, fets, hi, lo) ensures Extends(Last(tr), w) {
      TraceBelow(tr, val0, w, fets, hi, lo, |tr| - 1);
    }
  }

  // ---------------------------------------------------------------- order of the transistors

  lemma SamePaths(val: Values, a: seq<Fet>, b: seq<Fet>, x: Node, y: Node)
    requires (forall f :: f in a ==> f in b) && Tied(val, a, x, y)
    ensures Tied(val, b, x, y)
  {
    var p :| IsPath(val, a, |a|, p) && p[0] == x && p[|p| - 1] == y;
    forall i, j | 0 <= i < j < |p| && j == i + 1 ensures Joined(val, b, |b|, p[i], p[j]) {
      assert Joined(val, a, |a|, p[i], p[j]);
      var m :| 0 <= m < |a| && On(val, a[m]) && ((a[m].d == p[i] && a[m].s == p[j]) || (a[m].d == p[j] && a[m].s == p[i]));
      assert a[m] in a;
      var q :| 0 <= q < |b| && b[q] == a[m];
    }
    assert IsPath(val, b, |b|, p);
  }

  /** The same transistors in any order, with any repetitions. */
  ghost predicate SameFets(a: seq<Fet>, b: seq<Fet>) { forall f :: f in a <==> f in b }

  lemma SameTied(val: Values, a: seq<Fet>, b: seq<Fet>, x: Node, y: Node)
    requires SameFets(a, b)
    ensures Tied(val, a, x, y) == Tied(val, b, x, y)
  {
    if Tied(val, a, x, y) { SamePaths(val, a, b, x, y); }
    if Tied(val, b, x, y) { SamePaths(val, b, a, x, y); }
  }

  lemma SameGrown(val: Values, a: seq<Fet>, b: seq<Fet>, hi: Node, lo: Node, v: Values)
    requires SameFets(a, b) && IsGrown(val, a, hi, lo, v)
    ensures IsGrown(val, b, hi, lo, v)
  {
    forall n ensures Tied(val, a, n, hi) == Tied(val, b, n, hi) && Tied(val, a, n, lo) == Tied(val, b, n, lo) {
      SameTied(val, a, b, n, hi);
      SameTied(val, a, b, n, lo);
    }
  }

  /** Two solves of the same transistors agree sweep by sweep, as far as both go. */
  lemma {:induction false} SameTrace(p: seq<Values>, q: seq<Values>, val0: Values, a: seq<Fet>, b: seq<Fet>, hi: Node, lo: Node, i: nat)
    requires SameFets(a, b) && IsTrace(p, val0, a, hi, lo) && IsTrace(q, val0, b, hi, lo) && i < |p| && i < |q|
    ensures p[i] == q[i]
    decreases i
  {
    if i == 0 {
    } else {
      SameTrace(p, q, val0, a, b, hi, lo, i - 1);
      assert Sweeps(p[i - 1], a, hi, lo, p[i]) && Sweeps(q[i - 1], b, hi, lo, q[i]);
      SameGrown(p[i - 1], a, b, hi, lo, p[i]);
      GrownUnique(p[i - 1], b, hi, lo, p[i], q[i]);
    }
  }

  /** A solve that is over cannot be a proper prefix of another of the same transistors. */
  lemma NoLonger(p: seq<Values>, q: seq<Values>, val0: Values, a: seq<Fet>, b: seq<Fet>, hi: Node, lo: Node, sweeps: nat)
    requires SameFets(a, b) && IsTrace(p, val0, a, hi, lo) && IsTrace(q, val0, b, hi, lo)
    requires Over(p, a, hi, lo, sweeps) && |q| <= sweeps + 1
    ensures |q| <= |p|
  {
    if |q| > |p| {
      var n := |p| - 1;
      SameTrace(p, q, val0, a, b, hi, lo, n);
      assert Sweeps(q[n], b, hi, lo, q[n + 1]);
      SameTied(q[n], a, b, hi, lo);
      if IsGrown(q[n], a, hi, lo, q[n]) {
        SameGrown(q[n], a, b, hi, lo, q[n]);
        GrownUnique(q[n], b, hi, lo, q[n], q[n + 1]);
      }
    }
  }

  /** The result does not depend on the order, or on repetitions, of the transistors. */
  lemma OrderIrrelevant(p: seq<Values>, q: seq<Values>, val0: Values, a: seq<Fet>, b: seq<Fet>, hi: Node, lo: Node,
                        sweeps: nat, out: Node)
    requires SameFets(a, b) && IsTrace(p, val0, a, hi, lo) && IsTrace(q, val0, b, hi, lo)
    requires Over(p, a, hi, lo, sweeps) && Over(q, b, hi, lo, sweeps)
    ensures p == q && Result(p, a, hi, lo, sweeps, out) == Result(q, b, hi, lo, sweeps, out)
  {
    NoLonger(p, q, val0, a, b, hi, lo, sweeps);
    NoLonger(q, p, val0, b, a, hi, lo, sweeps);
    forall i | 0 <= i < |p| ensures p[i] == q[i] { SameTrace(p, q, val0, a, b, hi, lo, i); }
    SameTied(Last(p), a, b, hi, lo);
  }

  // ---------------------------------------------------------------- an inverter

  /** Nodes no ON channel leaves. */
  ghost predicate Shut(val: Values, fets: seq<Fet>, s: set<Node>) {
    forall i :: 0 <= i < |fets| && fets[i].g in val && val[fets[i].g] == fets[i].ntype ==>
      (fets[i].d in s <==> fets[i].s in s)
  }

  lemma ShutIn(val: Values, fets: seq<Fet>, s: set<Node>, x: Node, y: Node)
    requires Shut(val, fets, s) && x in s && y !in s
    ensures !Tied(val, fets, x, y)
  {
    if Tied(val, fets, x, y) {
      var p :| IsPath(val, fets, |fets|, p) && p[0] == x && p[|p| - 1] == y;
      for i := 0 to |p| - 1
        invariant p[i] in s
      {
        assert Joined(val, fets, |fets|, p[i], p[i + 1]);
      }
    }
  }

  /** An n-channel pull-down and a p-channel pull-up. */
  function Inverter(y: Node, a: Node, hi: Node, lo: Node): seq<Fet> {
    [Fet(y, a, lo, true), Fet(y, a, hi, false)]
  }

  ghost predicate Apart(y: Node, a: Node, hi: Node, lo: Node) {
    y != a && y != hi && y != lo && a != hi && a != lo && hi != lo
  }

  /** With its input known the inverter ties its output to one rail and not to the other. */
  lemma InverterTied(y: Node, a: Node, hi: Node, lo: Node, val: Values)
    requires Apart(y, a, hi, lo) && a in val
    ensures var fets := Inverter(y, a, hi, lo);
      !Tied(val, fets, hi, lo) && (Tied(val, fets, y, hi) <==> !val[a]) && (Tied(val, fets, y, lo) <==> val[a])
  {
    var fets := Inverter(y, a, hi, lo);
    var on, off := if val[a] then lo else hi, if val[a] then hi else lo;
    var f := fets[if val[a] then 0 else 1];
    assert On(val, f) && f.d == y && f.s == on;
    assert Joined(val, fets, 2, y, on);
    ReachStep(val, fets, 2, y, on);
    assert Shut(val, fets, {y, on});
    ShutIn(val, fets, {y, on}, y, off);
    assert Shut(val, fets, {hi} + if val[a] then {} else {y});
    ShutIn(val, fets, {hi} + if val[a] then {} else {y}, hi, lo);
  }

  /** Over every input an inverter solves to the complement, and to nothing else. */
  lemma InverterSolves(y: Node, a: Node, hi: Node, lo: Node, v: bool, r: Option<bool>)
    requires Apart(y, a, hi, lo)
    requires Solved([Fet(y, a, lo, true), Fet(y, a, hi, false)], hi, lo, map[a := v], y, r)
    ensures r == Some(!v)
  {
    var fets, val0 := Inverter(y, a, hi, lo), Rails(map[a := v], hi, lo);
    var tr :| IsTrace(tr, val0, fets, hi, lo) && Over(tr, fets, hi, lo, SWEEPS) && r == Result(tr, fets, hi, lo, SWEEPS, y);
    forall i: nat | i < |tr| ensures Extends(val0, tr[i]) { TraceBacked(tr, val0, fets, hi, lo, i); }
    InverterTied(y, a, hi, lo, Last(tr));
    InverterTied(y, a, hi, lo, val0);
    if y !in Last(tr) {
      assert |tr| == 1 || y in tr[1] by {
        if |tr| > 1 { assert Sweeps(tr[0], fets, hi, lo, tr[1]); }
      }
      if |tr| > 1 { TraceExtends(tr, val0, fets, hi, lo, 1, |tr| - 1); }
    }
    TraceBacked(tr, val0, fets, hi, lo, |tr| - 1);
  }

  lemma {:induction false} TraceExtends(tr: seq<Values>, val0: Values, fets: seq<Fet>, hi: Node, lo: Node, i: nat, j: nat)
    requires IsTrace(tr, val0, fets, hi, lo) && i <= j < |tr|
    ensures Extends(tr[i], tr[j])
    decreases j
  {
    if i < j {
      TraceExtends(tr, val0, fets, hi, lo, i, j - 1);
      assert Sweeps(tr[j - 1], fets, hi, lo, tr[j]);
    }
  }
}
