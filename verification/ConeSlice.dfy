/** The cone extractor: one output's logic cut out of a bench, constants folded and aliases removed. */
module ConeSlice {
  import Dfs

  datatype Op = Buf | Not | And | Nand | Or | Nor | Xor | Other(code: nat)

  datatype Gate = Gate(op: Op, args: seq<nat>)

  datatype Bench = Bench(inputs: set<nat>, gates: map<nat, Gate>)

  /** Nets of the slice: a net of the bench, the auxiliary `net__x`, and the two constant sources. */
  datatype Net = Sig(id: nat) | Xaux(id: nat) | K0 | K1

  datatype NGate = NGate(op: Op, args: seq<Net>)

  predicate BenchOk(b: Bench) {
    forall n :: n in b.gates ==> |b.gates[n].args| > 0
  }

  /** Inputs win over gates of the same name. */
  predicate IsGate(b: Bench, n: nat) { n in b.gates && n !in b.inputs }

  /** Gates the folder does not know keep an arbitrary meaning. */
  type Meaning = (nat, seq<bool>) -> bool

  function Parity(x: seq<bool>, n: nat): bool
    requires n <= |x|
    decreases n
  {
    if n == 0 then false else Parity(x, n - 1) != x[n - 1]
  }

  function GateFn(other: Meaning, op: Op, x: seq<bool>): bool {
    match op
    case Buf => |x| > 0 && x[0]
    case Not => !(|x| > 0 && x[0])
    case And => false !in x
    case Nand => false in x
    case Or => true in x
    case Nor => true !in x
    case Xor => Parity(x, |x|)
    case Other(code) => other(code, x)
  }

  // ---------------------------------------------------------------- the bench's meaning

  ghost predicate Acyclic(b: Bench, rank: nat -> nat) {
    forall n, i :: IsGate(b, n) && 0 <= i < |b.gates[n].args| && IsGate(b, b.gates[n].args[i]) ==>
      rank(b.gates[n].args[i]) < rank(n)
  }

  /** The value of a net under an assignment of the nets that no gate drives. */
  ghost function Full(b: Bench, rank: nat -> nat, other: Meaning, asg: nat -> bool, n: nat): bool
    requires Acyclic(b, rank)
    decreases if IsGate(b, n) then rank(n) + 1 else 0
  {
    if IsGate(b, n) then
      var g := b.gates[n];
      GateFn(other, g.op, seq(|g.args|, i requires 0 <= i < |g.args| => Full(b, rank, other, asg, g.args[i])))
    else asg(n)
  }

  /** What the kind of gate `n` makes of its arguments' values, spelt out. */
  ghost predicate Obeys(b: Bench, rank: nat -> nat, other: Meaning, asg: nat -> bool, n: nat, v: bool)
    requires Acyclic(b, rank) && IsGate(b, n)
  {
    var g := b.gates[n];
    match g.op
    case Buf => v <==> |g.args| > 0 && Full(b, rank, other, asg, g.args[0])
    case Not => v <==> !(|g.args| > 0 && Full(b, rank, other, asg, g.args[0]))
    case And => v <==> forall i :: 0 <= i < |g.args| ==> Full(b, rank, other, asg, g.args[i])
    case Nand => !v <==> forall i :: 0 <= i < |g.args| ==> Full(b, rank, other, asg, g.args[i])
    case Or => v <==> exists i :: 0 <= i < |g.args| && Full(b, rank, other, asg, g.args[i])
    case Nor => !v <==> exists i :: 0 <= i < |g.args| && Full(b, rank, other, asg, g.args[i])
    case Xor => v <==> |TrueArgs(b, rank, other, asg, n)| % 2 == 1
    case Other(code) =>
      v == other(code, seq(|g.args|, i requires 0 <= i < |g.args| => Full(b, rank, other, asg, g.args[i])))
  }

  /** The places of the true arguments. */
  ghost function TrueArgs(b: Bench, rank: nat -> nat, other: Meaning, asg: nat -> bool, n: nat): (s: set<nat>)
    requires Acyclic(b, rank) && IsGate(b, n)
  {
    var args := b.gates[n].args;
    set i: nat | i < |args| && Full(b, rank, other, asg, args[i])
  }

  function Trues(x: seq<bool>, n: nat): (s: set<nat>)
    requires n <= |x|
  {
    set i: nat | i < n && x[i]
  }

  lemma {:induction false} ParityCounts(x: seq<bool>, n: nat)
    requires n <= |x|
    ensures Parity(x, n) <==> |Trues(x, n)| % 2 == 1
    decreases n
  {
    if n == 0 {
      assert Trues(x, n) == {};
    } else {
      ParityCounts(x, n - 1);
      TruesNext(x, n - 1);
    }
  }

  lemma TruesNext(x: seq<bool>, n: nat)
    requires n < |x|
    ensures |Trues(x, n + 1)| == |Trues(x, n)| + if x[n] then 1 else 0
  {
    var s := Trues(x, n);
    assert n !in s;
    if x[n] { assert Trues(x, n + 1) == s + {n}; } else { assert Trues(x, n + 1) == s; }
  }

  /** A net that a gate drives has the value its kind gives it, every other net the assigned one. */
  lemma FullMeans(b: Bench, rank: nat -> nat, other: Meaning, asg: nat -> bool, n: nat)
    requires Acyclic(b, rank)
    ensures IsGate(b, n) ==> Obeys(b, rank, other, asg, n, Full(b, rank, other, asg, n))
    ensures !(n in b.gates && n !in b.inputs) ==> Full(b, rank, other, asg, n) == asg(n)
  {
    if IsGate(b, n) {
      var g := b.gates[n];
      var x := seq(|g.args|, i requires 0 <= i < |g.args| => Full(b, rank, other, asg, g.args[i]));
      assert forall i :: 0 <= i < |x| ==> x[i] == Full(b, rank, other, asg, g.args[i]);
      ParityCounts(x, |x|);
      assert Trues(x, |x|) == TrueArgs(b, rank, other, asg, n);
    }
  }

  // ---------------------------------------------------------------- backward cone

  ghost predicate ClosedFrom(b: Bench, target: nat, s: set<nat>) {
    && target in s
    && forall n, i :: n in s && IsGate(b, n) && 0 <= i < |b.gates[n].args| ==> b.gates[n].args[i] in s
  }

  /** The gates and the undriven nets the target depends on: closed, and nothing more. */
  ghost predicate IsCone(b: Bench, target: nat, cone: set<nat>, support: set<nat>) {
    && (forall n :: n in cone ==> IsGate(b, n)) && (forall n :: n in support ==> !IsGate(b, n))
    && ClosedFrom(b, target, cone + support)
    && forall s :: ClosedFrom(b, target, s) ==> cone + support <= s
  }

  /** What the worklist still owes. */
  ghost predicate Owed(b: Bench, target: nat, known: set<nat>, wl: seq<nat>) {
    && (target in known || target in wl)
    && forall n, i :: n in known && IsGate(b, n) && 0 <= i < |b.gates[n].args| ==>
      b.gates[n].args[i] in known || b.gates[n].args[i] in wl
  }

  ghost predicate Needed(b: Bench, target: nat, known: set<nat>, wl: seq<nat>) {
    forall s :: ClosedFrom(b, target, s) ==> known <= s && forall x :: x in wl ==> x in s
  }

  /** Popping `n`, already known or not a gate. */
  lemma PopLeaf(b: Bench, target: nat, known: set<nat>, wl: seq<nat>, n: nat)
    requires |wl| > 0 && n == wl[|wl| - 1] && (n in known || !IsGate(b, n))
    requires Owed(b, target, known, wl) && Needed(b, target, known, wl)
    ensures Owed(b, target, known + {n}, wl[..|wl| - 1]) && Needed(b, target, known + {n}, wl[..|wl| - 1])
  {
    InInit(wl);
  }

  lemma InInit(wl: seq<nat>)
    requires |wl| > 0
    ensures forall x :: x in wl ==> x == wl[|wl| - 1] || x in wl[..|wl| - 1]
  {
  }

  /** Popping a new gate and pushing its arguments. */
  lemma PopGate(b: Bench, target: nat, known: set<nat>, wl: seq<nat>, n: nat)
    requires |wl| > 0 && n == wl[|wl| - 1] && IsGate(b, n)
    requires Owed(b, target, known, wl) && Needed(b, target, known, wl)
    ensures Owed(b, target, known + {n}, wl[..|wl| - 1] + b.gates[n].args)
    ensures Needed(b, target, known + {n}, wl[..|wl| - 1] + b.gates[n].args)
  {
    InInit(wl);
    var wl' := wl[..|wl| - 1] + b.gates[n].args;
    forall s | ClosedFrom(b, target, s)
      ensures known + {n} <= s && forall x :: x in wl' ==> x in s
    {
      assert n in s;
      assert forall i :: 0 <= i < |b.gates[n].args| ==> b.gates[n].args[i] in s;
    }
  }

  method BackCone(b: Bench, target: nat) returns (cone: set<nat>, support: set<nat>)
    ensures IsCone(b, target, cone, support)
  {
    cone, support := {}, {};
    var wl := [target];
    while wl != []
      invariant forall n :: n in cone ==> IsGate(b, n)
      invariant forall n :: n in support ==> !IsGate(b, n)
      invariant Owed(b, target, cone + support, wl) && Needed(b, target, cone + support, wl)
      decreases |b.gates.Keys - cone|, |wl|
    {
      var n := wl[|wl| - 1];
      ghost var known := cone + support;
      if n in cone || n in support {
        PopLeaf(b, target, known, wl, n);
        assert known + {n} == known;
        wl := wl[..|wl| - 1];
      } else if n in b.inputs || n !in b.gates {
        PopLeaf(b, target, known, wl, n);
        support := support + {n};
        assert known + {n} == cone + support;
        wl := wl[..|wl| - 1];
      } else {
        PopGate(b, target, known, wl, n);
        Dfs.SmallerSet(b.gates.Keys - (cone + {n}), b.gates.Keys - cone);
        cone := cone + {n};
        assert known + {n} == cone + support;
        wl := wl[..|wl| - 1] + b.gates[n].args;
      }
    }
  }

  // ---------------------------------------------------------------- folding one gate

  /** A resolved argument: a known constant or a net. */
  datatype Res = C(bit: bool) | N(net: nat)

  datatype Simp =
    | Known(bit: bool)
    | Same(net: nat)
    | Keep(op: Op, args: seq<Net>)
    | Flip(nets: seq<nat>)

  /** The net arguments, in order. */
  function Nets(r: seq<Res>, n: nat): (ns: seq<nat>)
    requires n <= |r|
    decreases n
  {
    if n == 0 then []
    else if r[n - 1].N? then Nets(r, n - 1) + [r[n - 1].net]
    else Nets(r, n - 1)
  }

  function ConstParity(r: seq<Res>, n: nat): bool
    requires n <= |r|
    decreases n
  {
    if n == 0 then false
    else if r[n - 1].C? then ConstParity(r, n - 1) != r[n - 1].bit
    else ConstParity(r, n - 1)
  }

  /** The keys of the count table: first occurrences, in order. */
  function Keys(ns: seq<nat>, n: nat): (ks: seq<nat>)
    requires n <= |ns|
    decreases n
  {
    if n == 0 then []
    else if ns[n - 1] in Keys(ns, n - 1) then Keys(ns, n - 1)
    else Keys(ns, n - 1) + [ns[n - 1]]
  }

  predicate OddCount(ns: seq<nat>, n: nat, x: nat)
    requires n <= |ns|
    decreases n
  {
    n > 0 && (OddCount(ns, n - 1, x) != (ns[n - 1] == x))
  }

  /** The keys with an odd count. */
  function OddKeys(ks: seq<nat>, k: nat, ns: seq<nat>): (os: seq<nat>)
    requires k <= |ks|
    decreases k
  {
    if k == 0 then []
    else if OddCount(ns, |ns|, ks[k - 1]) then OddKeys(ks, k - 1, ns) + [ks[k - 1]]
    else OddKeys(ks, k - 1, ns)
  }

  function Sigs(ns: seq<nat>): (s: seq<Net>)
    ensures |s| == |ns| && forall i :: 0 <= i < |ns| ==> s[i] == Sig(ns[i])
  {
    seq(|ns|, i requires 0 <= i < |ns| => Sig(ns[i]))
  }

  function ConstNet(bit: bool): Net { if bit then K1 else K0 }

  function ArgNet(x: Res): Net { match x case C(bit) => ConstNet(bit) case N(m) => Sig(m) }

  /** One turn of the fold pass, on resolved arguments. */
  function Simplify(op: Op, r: seq<Res>): (s: Simp)
    requires |r| > 0
  {
    var ns := Nets(r, |r|);
    match op
    case Buf => (match r[0] case C(bit) => Known(bit) case N(m) => Same(m))
    case Not => (match r[0] case C(bit) => Known(!bit) case N(m) => Keep(Not, [Sig(m)]))
    case And => if C(false) in r then Known(false) else if ns == [] then Known(true)
                else if |ns| == 1 then Same(ns[0]) else Keep(And, Sigs(ns))
    case Nand => if C(false) in r then Known(true) else if ns == [] then Known(false) else Keep(Nand, Sigs(ns))
    case Or => if C(true) in r then Known(true) else if ns == [] then Known(false)
               else if |ns| == 1 then Same(ns[0]) else Keep(Or, Sigs(ns))
    case Nor => if C(true) in r then Known(false) else if ns == [] then Known(true) else Keep(Nor, Sigs(ns))
    case Xor => SimplifyXor(ConstParity(r, |r|), OddKeys(Keys(ns, |ns|), |Keys(ns, |ns|)|, ns))
    case Other(_) => Keep(op, seq(|r|, i requires 0 <= i < |r| => ArgNet(r[i])))
  }

  function SimplifyXor(parity: bool, os: seq<nat>): Simp {
    if os == [] then Known(parity)
    else if |os| == 1 then (if parity then Keep(Not, [Sig(os[0])]) else Same(os[0]))
    else if parity then Flip(os) else Keep(Xor, Sigs(os))
  }

  // ---------------------------------------------------------------- a folded gate means the same

  function ResVal(w: Net -> bool, x: Res): bool { match x case C(bit) => bit case N(m) => w(Sig(m)) }

  function Vals(w: Net -> bool, r: seq<Res>): (x: seq<bool>)
    ensures |x| == |r| && forall i :: 0 <= i < |r| ==> x[i] == ResVal(w, r[i])
  {
    seq(|r|, i requires 0 <= i < |r| => ResVal(w, r[i]))
  }

  function NetVals(w: Net -> bool, s: seq<Net>): (x: seq<bool>)
    ensures |x| == |s| && forall i :: 0 <= i < |s| ==> x[i] == w(s[i])
  {
    seq(|s|, i requires 0 <= i < |s| => w(s[i]))
  }

  function SimpVal(other: Meaning, w: Net -> bool, s: Simp): bool {
    match s
    case Known(bit) => bit
    case Same(m) => w(Sig(m))
    case Keep(op, args) => GateFn(other, op, NetVals(w, args))
    case Flip(nets) => !GateFn(other, Xor, NetVals(w, Sigs(nets)))
  }

  lemma {:induction false} NetsIn(r: seq<Res>, n: nat, m: nat)
    requires n <= |r|
    ensures m in Nets(r, n) <==> N(m) in r[..n]
    decreases n
  {
    if n == 0 {
    } else {
      NetsIn(r, n - 1, m);
      assert r[..n] == r[..n - 1] + [r[n - 1]];
    }
  }

  /** A value occurs among the arguments iff it is a constant argument or the value of a net argument. */
  lemma AnyVal(w: Net -> bool, r: seq<Res>, v: bool)
    ensures v in Vals(w, r) <==> C(v) in r || v in NetVals(w, Sigs(Nets(r, |r|)))
  {
    var ns := Nets(r, |r|);
    assert r[..|r|] == r;
    if v in Vals(w, r) {
      var i :| 0 <= i < |r| && Vals(w, r)[i] == v;
      if r[i].N? {
        NetsIn(r, |r|, r[i].net);
        var j :| 0 <= j < |ns| && ns[j] == r[i].net;
        assert NetVals(w, Sigs(ns))[j] == v;
      }
    }
    if v in NetVals(w, Sigs(ns)) {
      var j :| 0 <= j < |ns| && NetVals(w, Sigs(ns))[j] == v;
      NetsIn(r, |r|, ns[j]);
      var i :| 0 <= i < |r| && r[i] == N(ns[j]);
      assert Vals(w, r)[i] == v;
    }
    if C(v) in r {
      var i :| 0 <= i < |r| && r[i] == C(v);
      assert Vals(w, r)[i] == v;
    }
  }

  /** The XOR of the first `n` nets. */
  function NetParity(w: Net -> bool, ns: seq<nat>, n: nat): bool
    requires n <= |ns|
    decreases n
  {
    if n == 0 then false else NetParity(w, ns, n - 1) != w(Sig(ns[n - 1]))
  }

  lemma {:induction false} NetParityIs(w: Net -> bool, ns: seq<nat>, n: nat)
    requires n <= |ns|
    ensures Parity(NetVals(w, Sigs(ns)), n) == NetParity(w, ns, n)
    decreases n
  {
    if n == 0 {
    } else {
      NetParityIs(w, ns, n - 1);
    }
  }

  lemma {:induction false} NetParityPrefix(w: Net -> bool, ns: seq<nat>, m: nat, n: nat)
    requires n <= |ns|
    ensures NetParity(w, ns + [m], n) == NetParity(w, ns, n)
    decreases n
  {
    if n == 0 {
    } else {
      NetParityPrefix(w, ns, m, n - 1);
    }
  }

  lemma NetParityAppend(w: Net -> bool, ns: seq<nat>, m: nat)
    ensures NetParity(w, ns + [m], |ns| + 1) == (NetParity(w, ns, |ns|) != w(Sig(m)))
  {
    NetParityPrefix(w, ns, m, |ns|);
  }

  /** Constants and nets separate. */
  lemma {:induction false} SplitParity(w: Net -> bool, r: seq<Res>, n: nat)
    requires n <= |r|
    ensures Parity(Vals(w, r), n) == (ConstParity(r, n) != NetParity(w, Nets(r, n), |Nets(r, n)|))
    decreases n
  {
    if n == 0 {
    } else {
      SplitParity(w, r, n - 1);
      if r[n - 1].N? { NetParityAppend(w, Nets(r, n - 1), r[n - 1].net); }
    }
  }

  /** The XOR of the first `k` keys with an odd count among the first `n` nets. */
  function KeyParity(w: Net -> bool, ks: seq<nat>, k: nat, ns: seq<nat>, n: nat): bool
    requires k <= |ks| && n <= |ns|
    decreases k
  {
    if k == 0 then false
    else KeyParity(w, ks, k - 1, ns, n) != (OddCount(ns, n, ks[k - 1]) && w(Sig(ks[k - 1])))
  }

  lemma {:induction false} KeysIn(ns: seq<nat>, n: nat, x: nat)
    requires n <= |ns|
    ensures Dfs.Distinct(Keys(ns, n))
    ensures OddCount(ns, n, x) ==> x in Keys(ns, n)
    decreases n
  {
    if n == 0 {
    } else {
      KeysIn(ns, n - 1, x);
    }
  }

  /** One more net toggles its own key and no other. */
  lemma {:induction false} KeyToggle(w: Net -> bool, ks: seq<nat>, k: nat, ns: seq<nat>, n: nat)
    requires k <= |ks| && 0 < n <= |ns| && Dfs.Distinct(ks)
    ensures KeyParity(w, ks, k, ns, n) ==
      (KeyParity(w, ks, k, ns, n - 1) != (ns[n - 1] in ks[..k] && w(Sig(ns[n - 1]))))
    decreases k
  {
    if k == 0 {
    } else {
      KeyToggle(w, ks, k - 1, ns, n);
      assert ks[..k] == ks[..k - 1] + [ks[k - 1]];
      assert ks[k - 1] !in ks[..k - 1];
    }
  }

  lemma {:induction false} KeyPrefix(w: Net -> bool, ks: seq<nat>, x: nat, k: nat, ns: seq<nat>, n: nat)
    requires k <= |ks| && n <= |ns|
    ensures KeyParity(w, ks + [x], k, ns, n) == KeyParity(w, ks, k, ns, n)
    decreases k
  {
    if k == 0 {
    } else {
      KeyPrefix(w, ks, x, k - 1, ns, n);
    }
  }

  /** Cancelling pairs does not change an XOR. */
  lemma {:induction false} KeysSuffice(w: Net -> bool, ns: seq<nat>, n: nat)
    requires n <= |ns|
    ensures KeyParity(w, Keys(ns, n), |Keys(ns, n)|, ns, n) == NetParity(w, ns, n)
    decreases n
  {
    if n == 0 {
    } else {
      KeysSuffice(w, ns, n - 1);
      var ks, x := Keys(ns, n - 1), ns[n - 1];
      KeysIn(ns, n - 1, x);
      KeyToggle(w, ks, |ks|, ns, n);
      assert ks[..|ks|] == ks;
      if x !in ks { KeyPrefix(w, ks, x, |ks|, ns, n); }
    }
  }

  lemma {:induction false} OddKeysParity(w: Net -> bool, ks: seq<nat>, k: nat, ns: seq<nat>)
    requires k <= |ks|
    ensures var os := OddKeys(ks, k, ns); NetParity(w, os, |os|) == KeyParity(w, ks, k, ns, |ns|)
    decreases k
  {
    if k == 0 {
    } else {
      OddKeysParity(w, ks, k - 1, ns);
      if OddCount(ns, |ns|, ks[k - 1]) { NetParityAppend(w, OddKeys(ks, k - 1, ns), ks[k - 1]); }
    }
  }

  lemma XorRight(other: Meaning, w: Net -> bool, r: seq<Res>)
    requires |r| > 0
    ensures SimpVal(other, w, Simplify(Xor, r)) == GateFn(other, Xor, Vals(w, r))
  {
    var ns := Nets(r, |r|);
    var ks := Keys(ns, |ns|);
    var os := OddKeys(ks, |ks|, ns);
    SplitParity(w, r, |r|);
    KeysSuffice(w, ns, |ns|);
    OddKeysParity(w, ks, |ks|, ns);
    NetParityIs(w, os, |os|);
    XorForms(other, w, ConstParity(r, |r|), os);
  }

  lemma XorForms(other: Meaning, w: Net -> bool, parity: bool, os: seq<nat>)
    ensures SimpVal(other, w, SimplifyXor(parity, os)) == (parity != Parity(NetVals(w, Sigs(os)), |os|))
  {
    var x := NetVals(w, Sigs(os));
    if |os| == 1 { assert Parity(x, 1) == (Parity(x, 0) != x[0]); }
  }

  /** The simplified gate computes what the gate computes on its resolved arguments. */
  lemma SimplifyRight(other: Meaning, w: Net -> bool, op: Op, r: seq<Res>)
    requires |r| > 0 && !w(K0) && w(K1)
    ensures SimpVal(other, w, Simplify(op, r)) == GateFn(other, op, Vals(w, r))
  {
    match op {
      case Buf =>
      case Not =>
      case And => AndOrRight(other, w, op, r);
      case Nand => AndOrRight(other, w, op, r);
      case Or => AndOrRight(other, w, op, r);
      case Nor => AndOrRight(other, w, op, r);
      case Xor => XorRight(other, w, r);
      case Other(_) =>
        var s := seq(|r|, i requires 0 <= i < |r| => ArgNet(r[i]));
        assert NetVals(w, s) == Vals(w, r);
    }
  }

  lemma AndOrRight(other: Meaning, w: Net -> bool, op: Op, r: seq<Res>)
    requires |r| > 0 && (op.And? || op.Nand? || op.Or? || op.Nor?)
    ensures SimpVal(other, w, Simplify(op, r)) == GateFn(other, op, Vals(w, r))
  {
    var v := op.Or? || op.Nor?;
    AnyVal(w, r, v);
    var ns := Nets(r, |r|);
    if |ns| == 1 { assert NetVals(w, Sigs(ns)) == [w(Sig(ns[0]))]; }
  }

  // ---------------------------------------------------------------- the fold pass

  datatype Fold = Fold(val: map<nat, bool>, alias: map<nat, nat>, newg: map<Net, NGate>)

  /** `R`: follow aliases, each at most once, then look for a constant. */
  function Resolve(st: Fold, a: nat, s: set<nat>): (r: Res)
    decreases |st.alias.Keys - s|
  {
    if a in st.alias && a !in s then
      Dfs.SmallerSet(st.alias.Keys - (s + {a}), st.alias.Keys - s);
      Resolve(st, st.alias[a], s + {a})
    else if a in st.val then C(st.val[a]) else N(a)
  }

  method ResolveLoop(st: Fold, a0: nat) returns (r: Res)
    ensures r == Resolve(st, a0, {})
  {
    var a, s := a0, {};
    while a in st.alias && a !in s
      invariant Resolve(st, a, s) == Resolve(st, a0, {})
      decreases |st.alias.Keys - s|
    {
      Dfs.SmallerSet(st.alias.Keys - (s + {a}), st.alias.Keys - s);
      a, s := st.alias[a], s + {a};
    }
    r := if a in st.val then C(st.val[a]) else N(a);
  }

  function Resolved(st: Fold, args: seq<nat>): (r: seq<Res>)
    ensures |r| == |args| && forall i :: 0 <= i < |args| ==> r[i] == Resolve(st, args[i], {})
  {
    seq(|args|, i requires 0 <= i < |args| => Resolve(st, args[i], {}))
  }

  function Record(st: Fold, n: nat, s: Simp): Fold {
    match s
    case Known(bit) => st.(val := st.val[n := bit])
    case Same(m) => st.(alias := st.alias[n := m])
    case Keep(op, args) => st.(newg := st.newg[Sig(n) := NGate(op, args)])
    case Flip(nets) =>
      st.(newg := st.newg[Xaux(n) := NGate(Xor, Sigs(nets))][Sig(n) := NGate(Not, [Xaux(n)])])
  }

  /** The tables after the first `n` gates of the order. */
  function FoldTo(b: Bench, topo: seq<nat>, n: nat): (st: Fold)
    requires BenchOk(b) && n <= |topo| && forall x :: x in topo ==> x in b.gates
    decreases n
  {
    if n == 0 then Fold(map[], map[], map[])
    else
      var st := FoldTo(b, topo, n - 1);
      assert topo[n - 1] in topo;
      var g := b.gates[topo[n - 1]];
      Record(st, topo[n - 1], Simplify(g.op, Resolved(st, g.args)))
  }

  method FoldPass(b: Bench, topo: seq<nat>) returns (st: Fold)
    requires BenchOk(b) && forall x :: x in topo ==> x in b.gates
    ensures st == FoldTo(b, topo, |topo|)
  {
    st := Fold(map[], map[], map[]);
    for i := 0 to |topo|
      invariant st == FoldTo(b, topo, i)
    {
      assert topo[i] in topo;
      var g := b.gates[topo[i]];
      var r: seq<Res> := [];
      for j := 0 to |g.args|
        invariant r == Resolved(st, g.args)[..j]
      {
        var x := ResolveLoop(st, g.args[j]);
        r := r + [x];
      }
      assert r == Resolved(st, g.args);
      st := Record(st, topo[i], Simplify(g.op, r));
    }
  }

  // ---------------------------------------------------------------- the tables are right

  /** `w` solves the bench's equations for the gates in `s`, and gives the added nets their meaning. */
  ghost predicate Solves(b: Bench, other: Meaning, w: Net -> bool, s: set<nat>) {
    && !w(K0) && w(K1)
    && (forall n :: w(Xaux(n)) == !w(Sig(n)))
    && forall n :: n in s ==> n in b.gates && SolvesAt(b, other, w, n)
  }

  ghost predicate SolvesAt(b: Bench, other: Meaning, w: Net -> bool, n: nat)
    requires n in b.gates
  {
    w(Sig(n)) == GateFn(other, b.gates[n].op, NetVals(w, Sigs(b.gates[n].args)))
  }

  ghost predicate Sound(other: Meaning, w: Net -> bool, st: Fold) {
    && (forall n :: n in st.val ==> st.val[n] == w(Sig(n)))
    && (forall n :: n in st.alias ==> w(Sig(st.alias[n])) == w(Sig(n)))
    && forall k :: k in st.newg ==> GateHolds(other, w, k, st.newg[k])
  }

  ghost predicate GateHolds(other: Meaning, w: Net -> bool, k: Net, g: NGate) {
    w(k) == GateFn(other, g.op, NetVals(w, g.args))
  }

  /** Following aliases keeps the value. */
  lemma {:induction false} ResolveRight(other: Meaning, w: Net -> bool, st: Fold, a: nat, s: set<nat>)
    requires Sound(other, w, st)
    ensures ResVal(w, Resolve(st, a, s)) == w(Sig(a))
    decreases |st.alias.Keys - s|
  {
    if a in st.alias && a !in s {
      Dfs.SmallerSet(st.alias.Keys - (s + {a}), st.alias.Keys - s);
      ResolveRight(other, w, st, st.alias[a], s + {a});
    }
  }

  lemma RecordSound(other: Meaning, w: Net -> bool, st: Fold, n: nat, s: Simp)
    requires Sound(other, w, st) && w(Xaux(n)) == !w(Sig(n)) && SimpVal(other, w, s) == w(Sig(n))
    ensures Sound(other, w, Record(st, n, s))
  {
    if s.Flip? {
      assert GateHolds(other, w, Xaux(n), NGate(Xor, Sigs(s.nets)));
      assert NetVals(w, [Xaux(n)]) == [w(Xaux(n))];
      assert GateHolds(other, w, Sig(n), NGate(Not, [Xaux(n)]));
    }
  }

  lemma {:induction false} FoldSound(b: Bench, other: Meaning, w: Net -> bool, topo: seq<nat>, n: nat)
    requires BenchOk(b) && n <= |topo| && (forall x :: x in topo ==> x in b.gates)
    requires Solves(b, other, w, set x | x in topo)
    ensures Sound(other, w, FoldTo(b, topo, n))
    decreases n
  {
    if n == 0 {
    } else {
      FoldSound(b, other, w, topo, n - 1);
      var st, x := FoldTo(b, topo, n - 1), topo[n - 1];
      assert x in topo;
      var g := b.gates[x];
      var r := Resolved(st, g.args);
      forall i | 0 <= i < |r| ensures ResVal(w, r[i]) == w(Sig(g.args[i])) {
        ResolveRight(other, w, st, g.args[i], {});
      }
      assert Vals(w, r) == NetVals(w, Sigs(g.args));
      SimplifyRight(other, w, g.op, r);
      assert SolvesAt(b, other, w, x);
      RecordSound(other, w, st, x, Simplify(g.op, r));
    }
  }
}
