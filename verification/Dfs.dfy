/** Depth-first post-order over a graph given by argument lists. */
module Dfs {

  /** Every edge inside `allowed` goes to a node of smaller rank. */
  ghost predicate Ranked<T(!new)>(g: map<T, seq<T>>, allowed: set<T>, rank: T -> nat) {
    && allowed <= g.Keys
    && forall n, i :: n in allowed && 0 <= i < |g[n]| && g[n][i] in allowed ==> rank(g[n][i]) < rank(n)
  }

  ghost predicate Distinct<T(!new)>(s: seq<T>) {
    forall i, j :: 0 <= i < j < |s| ==> s[i] != s[j]
  }

  /** Every node of the order comes after all its arguments. */
  ghost predicate Ordered<T(!new)>(g: map<T, seq<T>>, allowed: set<T>, order: seq<T>) {
    && allowed <= g.Keys && Distinct(order)
    && (forall i :: 0 <= i < |order| ==> order[i] in allowed)
    && forall i, j :: 0 <= i < |order| && 0 <= j < |g[order[i]]| && g[order[i]][j] in allowed ==>
      g[order[i]][j] in order[..i]
  }

  /** Nodes seen but not yet in the order are the ones being visited, all above `n`. */
  ghost predicate Above<T(!new)>(seen: set<T>, order: seq<T>, rank: T -> nat, low: nat) {
    forall x :: x in seen && x !in order ==> rank(x) > low
  }

  /** Each call finishes every node it discovers. */
  ghost predicate Finished<T(!new)>(seen: set<T>, seen': set<T>, order: seq<T>, order': seq<T>) {
    && seen <= seen' && order <= order'
    && (forall x :: x in order' ==> x in seen')
    && (forall x :: x in seen' && x !in seen ==> x in order')
    && forall x :: x in order' && x !in order ==> x !in seen
  }

  lemma AppendOrdered<T(!new)>(g: map<T, seq<T>>, allowed: set<T>, order: seq<T>, n: T)
    requires Ordered(g, allowed, order) && n in allowed && n !in order
    requires forall j :: 0 <= j < |g[n]| && g[n][j] in allowed ==> g[n][j] in order
    ensures Ordered(g, allowed, order + [n])
  {
    var o := order + [n];
    assert o[..|order|] == order;
    forall i, j | 0 <= i < |o| && 0 <= j < |g[o[i]]| && g[o[i]][j] in allowed
      ensures g[o[i]][j] in o[..i]
    {
      if i < |order| { assert o[i] == order[i] && o[..i] == order[..i]; }
    }
  }

  lemma FinishedTrans<T(!new)>(s0: set<T>, s1: set<T>, s2: set<T>, o0: seq<T>, o1: seq<T>, o2: seq<T>)
    requires Finished(s0, s1, o0, o1) && Finished(s1, s2, o1, o2)
    ensures Finished(s0, s2, o0, o2)
  {
  }

  /** The first `k` arguments of `n` are in the order. */
  ghost predicate ArgsDone<T(!new)>(g: map<T, seq<T>>, allowed: set<T>, n: T, k: nat, order: seq<T>)
    requires n in g
  {
    k <= |g[n]| && forall j :: 0 <= j < k && g[n][j] in allowed ==> g[n][j] in order
  }

  lemma ArgsMore<T(!new)>(g: map<T, seq<T>>, allowed: set<T>, n: T, k: nat, o: seq<T>, order: seq<T>)
    requires n in g && ArgsDone(g, allowed, n, k, o) && k < |g[n]| && o <= order
    requires g[n][k] in allowed ==> g[n][k] in order
    ensures ArgsDone(g, allowed, n, k + 1, order)
  {
    forall j | 0 <= j < k + 1 && g[n][j] in allowed ensures g[n][j] in order {
      if j < k { assert g[n][j] in o; }
    }
  }

  method Visit<T(==, !new)>(g: map<T, seq<T>>, allowed: set<T>, n: T, seen: set<T>, order: seq<T>, ghost rank: T -> nat)
    returns (seen': set<T>, order': seq<T>)
    requires Ranked(g, allowed, rank) && Ordered(g, allowed, order) && seen <= allowed
    requires forall x :: x in order ==> x in seen
    requires n in allowed ==> Above(seen, order, rank, rank(n))
    ensures Ordered(g, allowed, order') && seen' <= allowed && Finished(seen, seen', order, order')
    ensures n in allowed ==> n in order'
    decreases |allowed - seen|, 1
  {
    seen', order' := seen, order;
    if n in seen || n !in allowed { return; }
    SmallerSet(allowed - (seen + {n}), allowed - seen);
    seen', order' := VisitArgs(g, allowed, n, seen, order, rank);
    AppendOrdered(g, allowed, order', n);
    order' := order' + [n];
  }

  /** The loop over the arguments, `n` being marked seen. */
  method VisitArgs<T(==, !new)>(g: map<T, seq<T>>, allowed: set<T>, n: T, seen: set<T>, order: seq<T>, ghost rank: T -> nat)
    returns (seen': set<T>, order': seq<T>)
    requires Ranked(g, allowed, rank) && Ordered(g, allowed, order) && seen <= allowed && n in allowed && n !in seen
    requires (forall x :: x in order ==> x in seen) && Above(seen, order, rank, rank(n))
    ensures Ordered(g, allowed, order') && seen' <= allowed && Finished(seen + {n}, seen', order, order')
    ensures ArgsDone(g, allowed, n, |g[n]|, order')
    decreases |allowed - (seen + {n})|, 2
  {
    seen', order' := seen + {n}, order;
    var k := 0;
    while k < |g[n]|
      invariant 0 <= k <= |g[n]| && seen' <= allowed
      invariant Ordered(g, allowed, order') && Finished(seen + {n}, seen', order, order')
      invariant ArgsDone(g, allowed, n, k, order')
    {
      var a := g[n][k];
      ghost var s, o := seen', order';
      SubsetSize(allowed - seen', allowed - (seen + {n}));
      if a in allowed { StillAbove(seen, s, order, o, rank, n, rank(a)); }
      seen', order' := Visit(g, allowed, a, seen', order', rank);
      FinishedTrans(seen + {n}, s, seen', order, o, order');
      ArgsMore(g, allowed, n, k, o, order');
      k := k + 1;
    }
  }

  lemma SmallerSet<T>(a: set<T>, b: set<T>)
    requires a < b
    ensures |a| < |b|
  {
    SubsetSize(a, b);
    var d := b - a;
    assert b == a + d && d != {};
    assert |b| == |a| + |d|;
  }

  lemma SubsetSize<T>(a: set<T>, b: set<T>)
    requires a <= b
    ensures |a| <= |b|
  {
    var d := b - a;
    assert b == a + d && |b| == |a| + |d|;
  }

  /** Inside the visit of `n` the unfinished nodes are `n` and those above it. */
  lemma StillAbove<T(!new)>(seen: set<T>, s: set<T>, order: seq<T>, o: seq<T>, rank: T -> nat, n: T, low: nat)
    requires Above(seen, order, rank, rank(n)) && Finished(seen + {n}, s, order, o) && low < rank(n)
    ensures Above(s, o, rank, low)
  {
  }
}
