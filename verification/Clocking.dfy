/** The clock edge. */
module Clocking {
  // The clock edge: register slices committed one by one, then the memory write ports
  // in ascending priority.

  import opened Bits
  import opened Netlist

  // ---------------------------------------------------------------- registers

  function SliceOf(slices: seq<RegSlice>, b: nat): (r: nat)
    ensures r <= |slices|
    ensures r < |slices| ==> b in slices[r].q
    ensures forall k :: 0 <= k < r ==> b !in slices[k].q
  {
    if slices == [] then 0
    else if b in slices[0].q then 0
    else 1 + SliceOf(slices[1..], b)
  }

  function SliceBit(s: RegSlice, b: nat, env: Env): bool
    requires b in s.q
  {
    var k := Pos(s.q, b);
    k < |s.d| && Value(s.d[k], env)
  }

  /** All slices at once: every bit of an enabled slice takes its D value. */
  function NextState(d: Design, env: Env, st: Env): (r: Env)
    ensures |r| == |st|
  {
    seq(|st|, b requires 0 <= b < |st| =>
      var r := SliceOf(d.slices, b);
      if r < |d.slices| && Value(d.slices[r].en, env) then SliceBit(d.slices[r], b, env) else st[b])
  }

  /** One emitted slice commit: a masked read-modify-write of its own bit range. */
  function CommitSlice(s: RegSlice, env: Env, st: Env): (r: Env)
    ensures |r| == |st|
  {
    seq(|st|, b requires 0 <= b < |st| =>
      if Value(s.en, env) && b in s.q then SliceBit(s, b, env) else st[b])
  }

  function CommitAll(d: Design, order: seq<nat>, env: Env, st: Env): (r: Env)
    ensures |r| == |st|
  {
    if order == [] then st
    else
      var before := CommitAll(d, order[..|order|-1], env, st);
      var r := order[|order|-1];
      if r < |d.slices| then CommitSlice(d.slices[r], env, before) else before
  }

  lemma {:induction false} CommitAllAt(d: Design, order: seq<nat>, env: Env, st: Env, b: nat)
    requires SlicesOk(d) && b < |st|
    ensures CommitAll(d, order, env, st)[b] ==
      var r := SliceOf(d.slices, b);
      if r < |d.slices| && r in order && Value(d.slices[r].en, env) then SliceBit(d.slices[r], b, env) else st[b]
  {
    if order == [] {
    } else {
      var rest := order[..|order|-1];
      CommitAllAt(d, rest, env, st, b);
      assert order == rest + [order[|order|-1]];
    }
  }

  /** The slices may be committed in any order: the result is the one parallel update. */
  lemma CommitAnyOrder(d: Design, order: seq<nat>, env: Env, st: Env)
    requires SlicesOk(d)
    requires forall r: nat :: r < |d.slices| ==> r in order
    ensures CommitAll(d, order, env, st) == NextState(d, env, st)
  {
    forall b | 0 <= b < |st|
      ensures CommitAll(d, order, env, st)[b] == NextState(d, env, st)[b]
    {
      CommitAllAt(d, order, env, st, b);
    }
  }

  /** Bit `q[k]` has the value of `d[k]` under the enable, and no other bit changed. */
  ghost predicate Taken(s: RegSlice, env: Env, st: Env, st': Env) {
    && |st'| == |st|
    && (forall k :: 0 <= k < |s.q| && k < |s.d| && s.q[k] < |st| ==>
          st'[s.q[k]] == if Value(s.en, env) then Value(s.d[k], env) else st[s.q[k]])
    && forall b :: 0 <= b < |st| && b !in s.q ==> st'[b] == st[b]
  }

  /** A slice commit does that. */
  lemma SliceTakes(s: RegSlice, env: Env, st: Env)
    requires |s.d| == |s.q| && DistinctBits(s.q)
    ensures Taken(s, env, st, CommitSlice(s, env, st))
  {
    forall k: nat | k < |s.q| && s.q[k] < |st|
      ensures CommitSlice(s, env, st)[s.q[k]] == if Value(s.en, env) then Value(s.d[k], env) else st[s.q[k]]
    {
      assert s.q[k] in s.q;
      PosAt(s.q, k);
    }
  }

  /** `st'` is the register state after an edge: bit `q[k]` of a slice has the value of that slice's `d[k]` when the
      slice is enabled, and every other bit its old one. */
  ghost predicate Clocked(d: Design, env: Env, st: Env, st': Env) {
    && |st'| == |st|
    && (forall r: nat, k: nat :: r < |d.slices| && k < |d.slices[r].q| && k < |d.slices[r].d| && d.slices[r].q[k] < |st| ==>
          st'[d.slices[r].q[k]] == if Value(d.slices[r].en, env) then Value(d.slices[r].d[k], env) else st[d.slices[r].q[k]])
    && (forall b: nat :: b < |st| && (forall r: nat :: r < |d.slices| ==> b !in d.slices[r].q) ==> st'[b] == st[b])
  }

  lemma NextSlice(d: Design, env: Env, st: Env, r: nat, k: nat)
    requires SlicesOk(d) && r < |d.slices| && k < |d.slices[r].q| && d.slices[r].q[k] < |st|
    ensures k < |d.slices[r].d|
    ensures NextState(d, env, st)[d.slices[r].q[k]] ==
      if Value(d.slices[r].en, env) then Value(d.slices[r].d[k], env) else st[d.slices[r].q[k]]
  {
    var s := d.slices[r];
    assert SliceFits(s, d.wireOf, d.kind);
    assert s.q[k] in s.q;
    PosAt(s.q, k);
    assert SliceOf(d.slices, s.q[k]) == r;
  }

  /** The next state is that state. */
  lemma NextStateMeans(d: Design, env: Env, st: Env)
    requires SlicesOk(d)
    ensures Clocked(d, env, st, NextState(d, env, st))
  {
    forall r: nat, k: nat | r < |d.slices| && k < |d.slices[r].q| && k < |d.slices[r].d| && d.slices[r].q[k] < |st|
      ensures NextState(d, env, st)[d.slices[r].q[k]] ==
        if Value(d.slices[r].en, env) then Value(d.slices[r].d[k], env) else st[d.slices[r].q[k]]
    {
      NextSlice(d, env, st, r, k);
    }
  }

  /** The first `n` bits of the slice are stored. */
  ghost predicate Committed(s: RegSlice, env: Env, st: Env, st': Env, n: nat)
    requires n <= |s.q|
  {
    && |st'| == |st|
    && forall b :: 0 <= b < |st| ==> st'[b] == if b in s.q[..n] then SliceBit(s, b, env) else st[b]
  }

  lemma CommitNext(s: RegSlice, env: Env, st: Env, st': Env, n: nat)
    requires n < |s.q| == |s.d| && DistinctBits(s.q) && s.q[n] < |st| && Committed(s, env, st, st', n)
    ensures Committed(s, env, st, st'[s.q[n] := Value(s.d[n], env)], n + 1)
  {
    PosAt(s.q, n);
    assert s.q[..n+1] == s.q[..n] + [s.q[n]];
  }

  /** The emitted commit of one slice. */
  method CommitOne(s: RegSlice, env: Env, st: array<bool>)
    requires |s.d| == |s.q| && DistinctBits(s.q) && forall b :: b in s.q ==> b < st.Length
    modifies st
    ensures st[..] == CommitSlice(s, env, old(st[..])) && Taken(s, env, old(st[..]), st[..])
  {
    ghost var before := st[..];
    SliceTakes(s, env, before);
    if Value(s.en, env) {
      var k := 0;
      while k < |s.q|
        invariant 0 <= k <= |s.q| && Committed(s, env, before, st[..], k)
      {
        ghost var was := st[..];
        assert s.q[k] in s.q;
        CommitNext(s, env, before, was, k);
        st[s.q[k]] := Value(s.d[k], env);
        assert st[..] == was[s.q[k] := Value(s.d[k], env)];
        k := k + 1;
      }
      assert s.q[..k] == s.q;
    }
    assert st[..] == CommitSlice(s, env, before);
  }

  /** The emitted register part of `emit_seq`. */
  method CommitRegisters(d: Design, env: Env, st: array<bool>)
    requires SlicesOk(d) && st.Length == |d.wireOf|
    modifies st
    ensures st[..] == NextState(d, env, old(st[..])) && Clocked(d, env, old(st[..]), st[..])
  {
    ghost var before := st[..];
    NextStateMeans(d, env, before);
    ghost var done: seq<nat> := [];
    var r := 0;
    while r < |d.slices|
      invariant 0 <= r <= |d.slices|
      invariant forall k: nat :: k in done <==> k < r
      invariant st[..] == CommitAll(d, done, env, before)
    {
      forall b: nat | b in d.slices[r].q ensures b < st.Length {
        assert KindOf(d, b) == Register;
      }
      CommitOne(d.slices[r], env, st);
      assert (done + [r])[..|done + [r]| - 1] == done;
      done := done + [r];
      r := r + 1;
    }
    CommitAnyOrder(d, done, env, before);
  }

  // ---------------------------------------------------------------- memories

  /** Ascending priority within a memory; equal keys keep their order. */
  predicate NotAfter(x: MemWrite, y: MemWrite) {
    x.mem < y.mem || (x.mem == y.mem && x.prio <= y.prio)
  }

  function Insert(w: MemWrite, ws: seq<MemWrite>): (r: seq<MemWrite>)
    ensures multiset(r) == multiset([w]) + multiset(ws)
  {
    if ws == [] then [w]
    else if NotAfter(ws[0], w) then
      assert ws == [ws[0]] + ws[1..];
      [ws[0]] + Insert(w, ws[1..])
    else [w] + ws
  }

  ghost predicate Ascending(ws: seq<MemWrite>) {
    forall i, j :: 0 <= i < j < |ws| ==> NotAfter(ws[i], ws[j])
  }

  lemma {:induction false} InsertAscending(w: MemWrite, ws: seq<MemWrite>)
    requires Ascending(ws)
    ensures Ascending(Insert(w, ws))
    ensures forall x :: x in Insert(w, ws) <==> x == w || x in ws
  {
    if ws == [] {
    } else {
      InsertAscending(w, ws[1..]);
      var r := Insert(w, ws);
      if NotAfter(ws[0], w) {
        forall j | 0 < j < |r| ensures NotAfter(r[0], r[j]) {
          assert r[j] in Insert(w, ws[1..]);
          if r[j] in ws[1..] { var k :| 0 < k < |ws| && ws[k] == r[j]; }
        }
      }
    }
  }

  /** The write ports in the order the emitter puts them (a stable sort). */
  function SortedWrites(ws: seq<MemWrite>): (r: seq<MemWrite>)
    ensures multiset(r) == multiset(ws)
  {
    if ws == [] then []
    else
      assert ws == ws[..|ws|-1] + [ws[|ws|-1]];
      Insert(ws[|ws|-1], SortedWrites(ws[..|ws|-1]))
  }

  lemma {:induction false} SortedUp(ws: seq<MemWrite>)
    ensures Ascending(SortedWrites(ws))
    decreases |ws|
  {
    if ws == [] {
    } else {
      SortedUp(ws[..|ws|-1]);
      InsertAscending(ws[|ws|-1], SortedWrites(ws[..|ws|-1]));
    }
  }

  lemma SameMembers(r: seq<MemWrite>, ws: seq<MemWrite>)
    requires multiset(r) == multiset(ws)
    ensures forall x :: x in r <==> x in ws
  {
    forall x ensures x in r <==> x in ws {
      assert x in multiset(r) <==> x in r;
      assert x in multiset(ws) <==> x in ws;
    }
  }

  lemma SortedWritesAscending(ws: seq<MemWrite>)
    ensures Ascending(SortedWrites(ws))
    ensures forall x :: x in SortedWrites(ws) <==> x in ws
  {
    SortedUp(ws);
    SameMembers(SortedWrites(ws), ws);
  }

  function EnAt(w: MemWrite, env: Env, j: nat): bool {
    j < |w.en| && Value(w.en[j], env)
  }

  function DataAt(w: MemWrite, env: Env, j: nat): bool {
    j < |w.data| && Value(w.data[j], env)
  }

  function Address(w: MemWrite, env: Env): nat {
    Num(Values(w.addr, env))
  }

  predicate AnyEn(w: MemWrite, env: Env) {
    exists j :: 0 <= j < |w.en| && EnAt(w, env, j)
  }

  function Merge(word: seq<bool>, w: MemWrite, env: Env): (r: seq<bool>) {
    seq(|word|, j requires 0 <= j < |word| => if EnAt(w, env, j) then DataAt(w, env, j) else word[j])
  }

  /** One emitted write port: guarded by a non-zero enable, masked into the addressed word. */
  function WritePort(w: MemWrite, env: Env, mem: Mem): (r: Mem) {
    var a := Address(w, env);
    if AnyEn(w, env) && w.mem < |mem| && a < |mem[w.mem]| then
      mem[w.mem := mem[w.mem][a := Merge(mem[w.mem][a], w, env)]]
    else mem
  }

  function WritePorts(ws: seq<MemWrite>, env: Env, mem: Mem): (r: Mem) {
    if ws == [] then mem else WritePort(ws[|ws|-1], env, WritePorts(ws[..|ws|-1], env, mem))
  }

  function NextMem(d: Design, env: Env, mem: Mem): (r: Mem) {
    WritePorts(SortedWrites(d.writes), env, mem)
  }

  predicate InMem(mem: Mem, m: nat, a: nat, j: nat) {
    m < |mem| && a < |mem[m]| && j < |mem[m][a]|
  }

  /** Port `w` writes bit `j` of word `a` of memory `m` at this edge. */
  predicate Hits(w: MemWrite, env: Env, m: nat, a: nat, j: nat) {
    w.mem == m && Address(w, env) == a && EnAt(w, env, j)
  }

  /** `v` is the bit after the edge: the data of a highest-priority port that hits it, or the
      old bit when no port does. */
  ghost predicate Wins(ws: seq<MemWrite>, env: Env, m: nat, a: nat, j: nat, before: bool, v: bool) {
    if exists w :: w in ws && Hits(w, env, m, a, j) then
      exists w :: w in ws && Hits(w, env, m, a, j) && v == DataAt(w, env, j) &&
        forall x :: x in ws && Hits(x, env, m, a, j) ==> x.prio <= w.prio
    else v == before
  }

  /** One more port of the sorted list: it wins where it hits, else the winner stays. */
  lemma PortWins(ws: seq<MemWrite>, env: Env, m: nat, a: nat, j: nat, before: bool, v: bool, v': bool)
    requires ws != [] && Ascending(ws) && Wins(ws[..|ws|-1], env, m, a, j, before, v)
    requires var w := ws[|ws|-1]; v' == if Hits(w, env, m, a, j) then DataAt(w, env, j) else v
    ensures Wins(ws, env, m, a, j, before, v')
  {
    var rest, w := ws[..|ws|-1], ws[|ws|-1];
    assert forall x :: x in ws <==> x in rest || x == w;
    if Hits(w, env, m, a, j) {
      forall x | x in rest && Hits(x, env, m, a, j) ensures x.prio <= w.prio {
        var i :| 0 <= i < |rest| && rest[i] == x;
        assert NotAfter(ws[i], ws[|ws|-1]);
      }
    } else if exists x :: x in rest && Hits(x, env, m, a, j) {
      var x :| x in rest && Hits(x, env, m, a, j);
      assert x in ws;
    }
  }

  lemma {:induction false} WritePortsWin(ws: seq<MemWrite>, env: Env, mem: Mem, m: nat, a: nat, j: nat)
    requires Ascending(ws) && InMem(mem, m, a, j)
    ensures InMem(WritePorts(ws, env, mem), m, a, j)
    ensures Wins(ws, env, m, a, j, mem[m][a][j], WritePorts(ws, env, mem)[m][a][j])
    ensures |WritePorts(ws, env, mem)| == |mem| && |WritePorts(ws, env, mem)[m]| == |mem[m]|
    ensures |WritePorts(ws, env, mem)[m][a]| == |mem[m][a]|
  {
    if ws == [] {
    } else {
      var rest := ws[..|ws|-1];
      WritePortsWin(rest, env, mem, m, a, j);
      PortWins(ws, env, m, a, j, mem[m][a][j], WritePorts(rest, env, mem)[m][a][j], WritePorts(ws, env, mem)[m][a][j]);
    }
  }

  /** After the edge every memory bit holds the data of the highest-priority port that enables
      it at its address, whatever the order of the write cells, and the old bit otherwise. */
  lemma MemoryPriority(d: Design, env: Env, mem: Mem, m: nat, a: nat, j: nat)
    requires InMem(mem, m, a, j)
    ensures InMem(NextMem(d, env, mem), m, a, j)
    ensures Wins(d.writes, env, m, a, j, mem[m][a][j], NextMem(d, env, mem)[m][a][j])
    ensures LastWrite(d.writes, env, m, a, j, mem[m][a][j], NextMem(d, env, mem)[m][a][j])
  {
    SortedWritesAscending(d.writes);
    WritePortsWin(SortedWrites(d.writes), env, mem, m, a, j);
    WinsLast(d.writes, env, m, a, j, mem[m][a][j], NextMem(d, env, mem)[m][a][j]);
  }

  /** Bit `j` of word `a` of memory `m` after an edge, spelt out: the data bit of the highest-priority port that enables
      it at that address, or the old bit when none does. */
  ghost predicate LastWrite(ws: seq<MemWrite>, env: Env, m: nat, a: nat, j: nat, before: bool, v: bool) {
    || (v == before && forall w :: w in ws && w.mem == m && Num(Values(w.addr, env)) == a ==>
          !(j < |w.en| && Value(w.en[j], env)))
    || exists w :: w in ws && w.mem == m && Num(Values(w.addr, env)) == a && j < |w.en| && Value(w.en[j], env)
         && v == (j < |w.data| && Value(w.data[j], env))
         && forall x :: x in ws && x.mem == m && Num(Values(x.addr, env)) == a && j < |x.en| && Value(x.en[j], env) ==>
              x.prio <= w.prio
  }

  lemma WinsLast(ws: seq<MemWrite>, env: Env, m: nat, a: nat, j: nat, before: bool, v: bool)
    requires Wins(ws, env, m, a, j, before, v)
    ensures LastWrite(ws, env, m, a, j, before, v)
  {
    forall w ensures Hits(w, env, m, a, j) <==>
      w.mem == m && Num(Values(w.addr, env)) == a && j < |w.en| && Value(w.en[j], env) {}
    if exists w :: w in ws && Hits(w, env, m, a, j) {
      var w :| w in ws && Hits(w, env, m, a, j) && v == DataAt(w, env, j) &&
        forall x :: x in ws && Hits(x, env, m, a, j) ==> x.prio <= w.prio;
      assert w.mem == m && v == (j < |w.data| && Value(w.data[j], env));
    }
  }

  /** `mem'` holds the memories after an edge. */
  ghost predicate MemClocked(d: Design, env: Env, mem: Mem, mem': Mem) {
    SameSizes(mem, mem') && forall m: nat, a: nat, j: nat :: InMem(mem, m, a, j) && InMem(mem', m, a, j) ==>
      LastWrite(d.writes, env, m, a, j, mem[m][a][j], mem'[m][a][j])
  }

  ghost predicate SameSizes(mem: Mem, mem': Mem) {
    && |mem'| == |mem|
    && (forall m :: 0 <= m < |mem| ==> |mem'[m]| == |mem[m]|)
    && forall m, a :: 0 <= m < |mem| && 0 <= a < |mem[m]| && a < |mem'[m]| ==> |mem'[m][a]| == |mem[m][a]|
  }

  lemma {:induction false} PortsSizes(ws: seq<MemWrite>, env: Env, mem: Mem)
    ensures SameSizes(mem, WritePorts(ws, env, mem))
  {
    if ws == [] {
    } else {
      PortsSizes(ws[..|ws|-1], env, mem);
    }
  }

  lemma NextMemMeans(d: Design, env: Env, mem: Mem)
    ensures MemClocked(d, env, mem, NextMem(d, env, mem))
  {
    PortsSizes(SortedWrites(d.writes), env, mem);
    forall m: nat, a: nat, j: nat | InMem(mem, m, a, j) && InMem(NextMem(d, env, mem), m, a, j)
      ensures LastWrite(d.writes, env, m, a, j, mem[m][a][j], NextMem(d, env, mem)[m][a][j])
    {
      MemoryPriority(d, env, mem, m, a, j);
    }
  }

  /** What the edge wrote is what a read port of the same memory then reads at that address. */
  lemma WriteThenRead(d: Design, order: seq<nat>, env: Env, mem: Mem, base: Env, c: nat, j: nat, x: seq<bool>)
    requires WellFormed(d) && Topological(d, order) && |base| == |d.wireOf| && c < |d.cells| && j < |d.cells[c].outs|
    requires d.cells[c].MemRead? && InMem(mem, d.cells[c].mem, Num(x), j)
    requires var e, ins := Sweep(d, order, base, NextMem(d, env, mem)), d.cells[c].ins;
      |x| == |ins| && forall i :: 0 <= i < |x| ==>
        (ins[i].Const? ==> x[i] == ins[i].value) && (ins[i].Net? ==> ins[i].bit < |e| && x[i] == e[ins[i].bit])
    ensures var e, m := Sweep(d, order, base, NextMem(d, env, mem)), d.cells[c].mem;
      d.cells[c].outs[j] < |e| && LastWrite(d.writes, env, m, Num(x), j, mem[m][Num(x)][j], e[d.cells[c].outs[j]])
  {
    SweepMeans(d, order, base, NextMem(d, env, mem), c, j, x);
    MemoryPriority(d, env, mem, d.cells[c].mem, Num(x), j);
  }

  /** With distinct priorities the winner, and so the new bit, is unique. */
  lemma WinnerUnique(ws: seq<MemWrite>, env: Env, m: nat, a: nat, j: nat, before: bool, v: bool, v': bool)
    requires forall x, y :: x in ws && y in ws && x.mem == y.mem && x.prio == y.prio ==> x == y
    requires Wins(ws, env, m, a, j, before, v) && Wins(ws, env, m, a, j, before, v')
    ensures v == v'
  {
    if exists w :: w in ws && Hits(w, env, m, a, j) {
      var w :| w in ws && Hits(w, env, m, a, j) && v == DataAt(w, env, j) &&
        forall x :: x in ws && Hits(x, env, m, a, j) ==> x.prio <= w.prio;
      var w' :| w' in ws && Hits(w', env, m, a, j) && v' == DataAt(w', env, j) &&
        forall x :: x in ws && Hits(x, env, m, a, j) ==> x.prio <= w'.prio;
      assert w.prio == w'.prio;
    }
  }

  /** Words of a memory no port writes are unchanged. */
  lemma {:induction false} MemoryFrame(ws: seq<MemWrite>, env: Env, mem: Mem, m: nat)
    requires forall w :: w in ws && AnyEn(w, env) ==> w.mem != m
    ensures |WritePorts(ws, env, mem)| == |mem|
    ensures m < |mem| ==> WritePorts(ws, env, mem)[m] == mem[m]
  {
    if ws == [] {
    } else {
      MemoryFrame(ws[..|ws|-1], env, mem, m);
      assert ws[|ws|-1] in ws;
    }
  }

  // ---------------------------------------------------------------- one cycle

  /** Outputs as the emitted tail copies them. */
  function Outputs(d: Design, env: Env): (r: seq<seq<bool>>) {
    seq(|d.outputs|, o requires 0 <= o < |d.outputs| => PortBits(d, env, o))
  }

  function PortBits(d: Design, env: Env, o: nat): (r: seq<bool>)
    requires o < |d.outputs|
  {
    seq(|d.outputs[o]|, k requires 0 <= k < |d.outputs[o]| => Value(Net(d.outputs[o][k]), env))
  }

  /** What the environment is asked for at a clock edge: D, enable and write-port signals. */
  predicate SeqReads(d: Design, b: nat) {
    || (exists r :: 0 <= r < |d.slices| && (Net(b) in d.slices[r].d || Net(b) == d.slices[r].en))
    || (exists w :: w in d.writes && (Net(b) in w.addr || Net(b) in w.data || Net(b) in w.en))
  }

  /** The commit depends only on the signals it reads. */
  lemma CommitFrame(d: Design, e: Env, e': Env, st: Env, mem: Mem)
    requires SlicesOk(d) && |e| == |e'|
    requires forall b: nat :: b < |e| && SeqReads(d, b) ==> e[b] == e'[b]
    ensures NextState(d, e, st) == NextState(d, e', st)
    ensures NextMem(d, e, mem) == NextMem(d, e', mem)
  {
    forall b | 0 <= b < |st|
      ensures NextState(d, e, st)[b] == NextState(d, e', st)[b]
    {
      var r := SliceOf(d.slices, b);
      if r < |d.slices| {
        var s := d.slices[r];
        var x := s.d[Pos(s.q, b)];
        if x.Net? { assert SeqReads(d, x.bit); }
        if s.en.Net? { assert SeqReads(d, s.en.bit); }
      }
    }
    forall w | w in d.writes
      ensures SamePort(w, e, e')
    {
      forall s | s in w.addr || s in w.data || s in w.en ensures Value(s, e) == Value(s, e') {
        if s.Net? { assert SeqReads(d, s.bit); }
      }
      assert Values(w.addr, e) == Values(w.addr, e');
    }
    SortedWritesAscending(d.writes);
    PortsFrame(SortedWrites(d.writes), e, e', mem);
  }

  ghost predicate SamePort(w: MemWrite, e: Env, e': Env) {
    && Address(w, e) == Address(w, e')
    && forall j: nat :: EnAt(w, e, j) == EnAt(w, e', j) && DataAt(w, e, j) == DataAt(w, e', j)
  }

  lemma {:induction false} PortsFrame(ws: seq<MemWrite>, e: Env, e': Env, mem: Mem)
    requires forall w :: w in ws ==> SamePort(w, e, e')
    ensures WritePorts(ws, e, mem) == WritePorts(ws, e', mem)
  {
    if ws == [] {
    } else {
      var w := ws[|ws|-1];
      var before := WritePorts(ws[..|ws|-1], e, mem);
      PortsFrame(ws[..|ws|-1], e, e', mem);
      assert SamePort(w, e, e');
      assert AnyEn(w, e) == AnyEn(w, e');
      if w.mem < |before| && Address(w, e) < |before[w.mem]| {
        assert Merge(before[w.mem][Address(w, e)], w, e) == Merge(before[w.mem][Address(w, e)], w, e');
      }
    }
  }

  /** The emitted write-port loop. */
  method CommitMemories(d: Design, env: Env, mem: Mem) returns (r: Mem)
    ensures r == NextMem(d, env, mem)
    ensures MemClocked(d, env, mem, r)
  {
    var ws := SortedWrites(d.writes);
    NextMemMeans(d, env, mem);
    r := mem;
    var i := 0;
    while i < |ws|
      invariant 0 <= i <= |ws|
      invariant r == WritePorts(ws[..i], env, mem)
    {
      assert ws[..i+1][..i] == ws[..i];
      r := WritePort(ws[i], env, r);
      i := i + 1;
    }
    assert ws[..i] == ws;
  }
}
