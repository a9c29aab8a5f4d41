/** Storage words. */
module Storage {
  // How the emitted code holds a design's wires: in machine words with bits to spare.
  //
  // A wire of at most 64 bits is one word, and the bits above its width are its padding, here one
  // bit per wire that says whether any of them is set.  A store of the whole wire sets the
  // padding too; a store of a slice leaves it alone.  A scalar operand that is a whole wire is
  // the bare word, padding included; a slice is shifted and masked.  The storage form of a design
  // is a design again, with the padding as further bits, so all that is proved of designs
  // holds of it.

  import opened Bits
  import opened Netlist
  import opened Clocking
  import opened CombSplit
  import opened Gated
  import OutCone

  /** What decides the words: whether wires of up to 32 bits live in 32-bit words, and for each cell
      the operands it reads as scalars. */
  datatype Words = Words(small: bool, scalars: seq<seq<seq<Sig>>>)

  /** The function of each logic cell on the words it reads: its inputs, then their padding. */
  type Fns = seq<(seq<bool>, nat) -> bool>

  // ---------------------------------------------------------------- whole wires

  function WireBits(d: Design, w: nat): (q: seq<nat>) { BitsOf(d.wireOf, w, |d.wireOf|) }

  function WordSize(k: Words, width: nat): nat { if k.small && width <= 32 then 32 else 64 }

  /** A combinational wire that does not fill its word. */
  predicate Padded(d: Design, k: Words, w: nat) {
    w < |d.kind| && d.kind[w] == Comb && 0 < |WireBits(d, w)| < WordSize(k, |WireBits(d, w)|)
  }

  /** `part` stands in `s` without a gap. */
  predicate Within<T(==)>(part: seq<T>, s: seq<T>) {
    exists i :: 0 <= i <= |s| && StandsAt(part, s, i)
  }

  predicate StandsAt<T(==)>(part: seq<T>, s: seq<T>, i: nat) {
    i + |part| <= |s| && s[i..i + |part|] == part
  }

  function Nets(q: seq<nat>): (s: seq<Sig>)
    ensures |s| == |q| && forall i :: 0 <= i < |q| ==> s[i] == Net(q[i])
  {
    seq(|q|, i requires 0 <= i < |q| => Net(q[i]))
  }

  /** A scalar operand of cell `c` contains the whole of wire `w`. */
  predicate ReadsWhole(d: Design, k: Words, c: nat, w: nat) {
    c < |k.scalars| && exists p :: 0 <= p < |k.scalars[c]| && Within(Nets(WireBits(d, w)), k.scalars[c][p])
  }

  /** Cell `c` assigns the whole of wire `w` at once. */
  predicate StoresWhole(d: Design, c: nat, w: nat) {
    c < |d.cells| && Within(WireBits(d, w), d.cells[c].outs)
  }

  function WireSet(wireOf: seq<nat>, w: nat, n: nat): (s: set<nat>)
    requires n <= |wireOf|
  {
    set b: nat | b < n && wireOf[b] == w
  }

  lemma {:induction false} BitsCount(wireOf: seq<nat>, w: nat, n: nat)
    requires n <= |wireOf|
    ensures |BitsOf(wireOf, w, n)| == |WireSet(wireOf, w, n)|
    decreases n
  {
    if n == 0 {
      assert WireSet(wireOf, w, n) == {};
    } else {
      BitsCount(wireOf, w, n - 1);
      CountNext(wireOf, w, n - 1);
    }
  }

  ghost predicate Ascending(q: seq<nat>) { forall i, j :: 0 <= i < j < |q| ==> q[i] < q[j] }

  lemma {:induction false} BitsAscend(wireOf: seq<nat>, w: nat, n: nat)
    requires n <= |wireOf|
    ensures Ascending(BitsOf(wireOf, w, n))
    decreases n
  {
    if n == 0 {
    } else {
      BitsAscend(wireOf, w, n - 1);
      var q := BitsOf(wireOf, w, n - 1);
      assert forall i :: 0 <= i < |q| ==> q[i] in q;
    }
  }

  lemma CountNext(wireOf: seq<nat>, w: nat, n: nat)
    requires n < |wireOf|
    ensures |WireSet(wireOf, w, n + 1)| == |WireSet(wireOf, w, n)| + if wireOf[n] == w then 1 else 0
  {
    var s := WireSet(wireOf, w, n);
    assert n !in s;
    if wireOf[n] == w { assert WireSet(wireOf, w, n + 1) == s + {n}; } else { assert WireSet(wireOf, w, n + 1) == s; }
  }

  /** A combinational wire has bits to spare when it is narrower than 64 bits, except one of 32 bits in a 32-bit word. */
  lemma PaddedMeans(d: Design, k: Words, w: nat)
    requires w < |d.kind|
    ensures var n := |set b: nat | b < |d.wireOf| && d.wireOf[b] == w|;
      Padded(d, k, w) <==> d.kind[w] == Comb && 0 < n < 64 && !(k.small && n == 32)
  {
    BitsCount(d.wireOf, w, |d.wireOf|);
    assert WireSet(d.wireOf, w, |d.wireOf|) == set b: nat | b < |d.wireOf| && d.wireOf[b] == w;
  }

  /** Bare words and whole stores: the wire's bits stand in the operand, or in the outputs, in a row and in order. */
  lemma WholeMeans(d: Design, k: Words, c: nat, w: nat, q: seq<nat>)
    requires c < |d.cells| == |k.scalars|
    requires Ascending(q) && forall b: nat :: b in q <==> b < |d.wireOf| && d.wireOf[b] == w
    ensures StoresWhole(d, c, w) <==> exists u, v :: d.cells[c].outs == u + q + v
    ensures ReadsWhole(d, k, c, w) <==>
      exists p, u, v, s :: 0 <= p < |k.scalars[c]| && k.scalars[c][p] == u + s + v && AreNets(s, q)
  {
    BitsAscend(d.wireOf, w, |d.wireOf|);
    AscendingSame(q, WireBits(d, w));
    WithinMeans(q, d.cells[c].outs);
    if ReadsWhole(d, k, c, w) {
      var p :| 0 <= p < |k.scalars[c]| && Within(Nets(q), k.scalars[c][p]);
      WithinMeans(Nets(q), k.scalars[c][p]);
      var u, v :| k.scalars[c][p] == u + Nets(q) + v;
      assert AreNets(Nets(q), q);
    }
    if p, u, v, s :| 0 <= p < |k.scalars[c]| && k.scalars[c][p] == u + s + v && AreNets(s, q) {
      assert s == Nets(q);
      WithinMeans(Nets(q), k.scalars[c][p]);
    }
  }

  ghost predicate AreNets(s: seq<Sig>, q: seq<nat>) { |s| == |q| && forall i :: 0 <= i < |q| ==> s[i] == Net(q[i]) }

  lemma WithinMeans<T>(part: seq<T>, s: seq<T>)
    ensures Within(part, s) <==> exists u, v :: s == u + part + v
  {
    if Within(part, s) {
      var i :| 0 <= i <= |s| && StandsAt(part, s, i);
      assert s == s[..i] + part + s[i + |part|..];
    }
    if u, v :| s == u + part + v {
      assert s[|u|..|u| + |part|] == part;
      assert StandsAt(part, s, |u|);
    }
  }

  /** Ascending lists of the same bits are equal. */
  lemma {:induction false} AscendingSame(p: seq<nat>, q: seq<nat>)
    requires Ascending(p) && Ascending(q)
    requires forall b: nat :: b in p <==> b in q
    ensures p == q
    decreases |p|
  {
    if p == [] {
      if q != [] { LastIn(q); }
    } else {
      LastIn(p);
      assert p[|p| - 1] in q && q != [];
      LastIn(q);
      var x, p', q' := p[|p| - 1], p[..|p| - 1], q[..|q| - 1];
      ButLast(p);
      ButLast(q);
      assert x == q[|q| - 1];
      forall b: nat ensures b in p' <==> b in q' {
        assert b in p' <==> b in p && b != x;
        assert b in q' <==> b in q && b != x;
      }
      AscendingSame(p', q');
      assert p == p[..|p| - 1] + [x] && q == q[..|q| - 1] + [x];
    }
  }

  lemma LastIn(p: seq<nat>)
    requires p != []
    ensures p[|p| - 1] in p
  {
  }

  lemma ButLast(p: seq<nat>)
    requires p != [] && Ascending(p)
    ensures forall b: nat :: b in p[..|p| - 1] <==> b in p && b != p[|p| - 1]
  {
    forall b: nat ensures b in p[..|p| - 1] <==> b in p && b != p[|p| - 1] {
      if b in p {
        var i :| 0 <= i < |p| && p[i] == b;
        if i < |p| - 1 { assert p[..|p| - 1][i] == b; }
      }
    }
  }

  /** Scalar operands are operands. */
  ghost predicate ScalarsOk(d: Design, k: Words) {
    |k.scalars| == |d.cells| &&
    forall c, p, x :: 0 <= c < |d.cells| && 0 <= p < |k.scalars[c]| && x in k.scalars[c][p] ==> x in d.cells[c].ins
  }

  // ---------------------------------------------------------------- the storage form

  function Select(n: nat, f: nat -> bool): (ws: seq<nat>)
    ensures forall w: nat :: w in ws <==> w < n && f(w)
    ensures DistinctBits(ws)
  {
    if n == 0 then [] else if f(n - 1) then Select(n - 1, f) + [n - 1] else Select(n - 1, f)
  }

  function PadsRead(d: Design, k: Words, c: nat): (ws: seq<nat>) {
    Select(|d.kind|, (w: nat) => Padded(d, k, w) && ReadsWhole(d, k, c, w))
  }

  function PadsStored(d: Design, k: Words, c: nat): (ws: seq<nat>) {
    Select(|d.kind|, (w: nat) => Padded(d, k, w) && StoresWhole(d, c, w))
  }

  function PadBit(d: Design, w: nat): nat { |d.wireOf| + w }

  function PadBits(d: Design, ws: seq<nat>): (q: seq<nat>)
    ensures |q| == |ws| && forall i :: 0 <= i < |ws| ==> q[i] == PadBit(d, ws[i])
  {
    seq(|ws|, i requires 0 <= i < |ws| => PadBit(d, ws[i]))
  }

  /** A logic cell reads words and stores words; the address of a memory read is masked. */
  function StoredCell(d: Design, k: Words, fns: Fns, c: nat): (r: Cell)
    requires c < |d.cells| == |fns|
  {
    match d.cells[c]
    case Logic(_, ins, outs) =>
      Logic(fns[c], ins + Nets(PadBits(d, PadsRead(d, k, c))), outs + PadBits(d, PadsStored(d, k, c)))
    case MemRead(m, ins, outs) => MemRead(m, ins, outs + PadBits(d, PadsStored(d, k, c)))
  }

  function Stored(d: Design, k: Words, fns: Fns): (r: Design)
    requires |d.cells| == |fns|
    ensures |r.cells| == |d.cells|
  {
    d.(wireOf := d.wireOf + seq(|d.kind|, w requires 0 <= w < |d.kind| => w),
       cells := seq(|d.cells|, c requires 0 <= c < |d.cells| => StoredCell(d, k, fns, c)))
  }

  function StoredSplit(s: Split, k: Words, fns: Fns): (r: Split)
    requires |s.d.cells| == |fns|
  {
    s.(d := Stored(s.d, k, fns))
  }

  /** A register state with its padding. */
  function StoredState(d: Design, st: Env): (r: Env) { st + Zeros(|d.kind|) }

  /** On operands whose padding is clear a cell computes its function and clears the padding it stores. */
  ghost predicate WordFns(d: Design, k: Words, fns: Fns) {
    |fns| == |d.cells| && forall c: nat, x: seq<bool>, j: nat ::
      c < |d.cells| && d.cells[c].Logic? && |x| == |d.cells[c].ins| + |PadsRead(d, k, c)| && NoneSet(x, |d.cells[c].ins|) &&
      j < |d.cells[c].outs| + |PadsStored(d, k, c)| ==>
      fns[c](x, j) == (j < |d.cells[c].outs| && d.cells[c].fn(x[..|d.cells[c].ins|], j))
  }

  ghost predicate NoneSet(x: seq<bool>, from: nat) { forall i :: from <= i < |x| ==> !x[i] }

  /** Memory words have the width of the reads. */
  ghost predicate MemFits(d: Design, mem: Mem) {
    forall c: nat, a: nat :: c < |d.cells| && d.cells[c].MemRead? ==> |WordAt(mem, d.cells[c].mem, a)| <= |d.cells[c].outs|
  }

  /** Clock edge and outputs refer to bits of the design. */
  ghost predicate Closed(d: Design) {
    && (forall b: nat :: SeqReads(d, b) ==> b < |d.wireOf|)
    && forall o, i :: 0 <= o < |d.outputs| && 0 <= i < |d.outputs[o]| ==> d.outputs[o][i] < |d.wireOf|
  }

  /** What the code relies on: no driving cell reads an undriven bit of an uninitialised local, and none reads
      as a whole a local that is only stored in slices. */
  ghost predicate StorageSafe(s: Split, k: Words)
    requires s.Shaped()
  {
    && LocalReadsDriven(s)
    && forall c: nat, w: nat :: DrivesSome(s.d, c) && ReadsWhole(s.d, k, c, w) && Padded(s.d, k, w) && LocalWire(s, w) ==>
      StoredSomewhere(s.d, w)
  }

  ghost predicate StoredSomewhere(d: Design, w: nat) { exists c: nat :: StoresWhole(d, c, w) }

  // ---------------------------------------------------------------- pins

  /** The pins of a stored cell are those of the cell and padding bits. */
  lemma StoredPins(d: Design, k: Words, fns: Fns, c: nat, b: nat)
    requires |d.cells| == |fns| && b < |d.wireOf|
    ensures Drives(Stored(d, k, fns), c, b) == Drives(d, c, b) && Reads(Stored(d, k, fns), c, b) == Reads(d, c, b)
  {
    if c < |d.cells| { PinsNotPads(d, k, fns, c, b); }
  }

  lemma PinsNotPads(d: Design, k: Words, fns: Fns, c: nat, b: nat)
    requires |d.cells| == |fns| && b < |d.wireOf| && c < |d.cells|
    ensures b in StoredCell(d, k, fns, c).outs <==> b in d.cells[c].outs
    ensures Net(b) in StoredCell(d, k, fns, c).ins <==> Net(b) in d.cells[c].ins
  {
    assert b !in PadBits(d, PadsStored(d, k, c));
    assert Net(b) !in Nets(PadBits(d, PadsRead(d, k, c)));
  }

  lemma StoredPadPins(d: Design, k: Words, fns: Fns, c: nat, w: nat)
    requires |d.cells| == |fns| && WellFormed(d)
    ensures Drives(Stored(d, k, fns), c, PadBit(d, w)) <==> c < |d.cells| && Padded(d, k, w) && StoresWhole(d, c, w)
    ensures Reads(Stored(d, k, fns), c, PadBit(d, w)) <==>
      c < |d.cells| && d.cells[c].Logic? && Padded(d, k, w) && ReadsWhole(d, k, c, w)
  {
    if c < |d.cells| {
      var b := PadBit(d, w);
      PadIn(d, PadsStored(d, k, c), w);
      PadIn(d, PadsRead(d, k, c), w);
      assert b in d.cells[c].outs ==> Drives(d, c, b);
      assert Net(b) in d.cells[c].ins ==> Reads(d, c, b);
    }
  }

  lemma PadIn(d: Design, ws: seq<nat>, w: nat)
    ensures PadBit(d, w) in PadBits(d, ws) <==> w in ws
    ensures Net(PadBit(d, w)) in Nets(PadBits(d, ws)) <==> w in ws
  {
    var q := PadBits(d, ws);
    if w in ws {
      var i :| 0 <= i < |ws| && ws[i] == w;
      assert q[i] == PadBit(d, w) && Nets(q)[i] == Net(PadBit(d, w));
    }
  }

  lemma InPart<T>(part: seq<T>, s: seq<T>, x: T)
    requires Within(part, s) && x in part
    ensures x in s
  {
    var i :| 0 <= i <= |s| && StandsAt(part, s, i);
    var m :| 0 <= m < |part| && part[m] == x;
    assert s[i..i + |part|][m] == s[i + m];
  }

  /** A cell that stores a wire whole drives its bits; one that reads it whole reads them. */
  lemma WholeBits(d: Design, k: Words, c: nat, w: nat, b: nat)
    requires ScalarsOk(d, k) && c < |d.cells| && b in WireBits(d, w)
    ensures StoresWhole(d, c, w) ==> Drives(d, c, b)
    ensures ReadsWhole(d, k, c, w) ==> Reads(d, c, b)
  {
    var q := WireBits(d, w);
    if StoresWhole(d, c, w) { InPart(q, d.cells[c].outs, b); }
    if ReadsWhole(d, k, c, w) {
      var p :| 0 <= p < |k.scalars[c]| && Within(Nets(q), k.scalars[c][p]);
      NetIn(q, b);
      InPart(Nets(q), k.scalars[c][p], Net(b));
    }
  }

  lemma NetIn(q: seq<nat>, b: nat)
    requires b in q
    ensures Net(b) in Nets(q)
  {
    var m :| 0 <= m < |q| && q[m] == b;
    assert Nets(q)[m] == Net(b);
  }

  /** A wire a padded cell pin belongs to has a bit that the cell reads or drives. */
  lemma PadNeedsBit(d: Design, k: Words, c: nat, w: nat)
    requires ScalarsOk(d, k) && c < |d.cells| && Padded(d, k, w)
    ensures StoresWhole(d, c, w) || ReadsWhole(d, k, c, w) ==> |WireBits(d, w)| > 0
    ensures var b := WireBits(d, w)[0];
      && b < |d.wireOf| && d.wireOf[b] == w
      && (StoresWhole(d, c, w) ==> Drives(d, c, b)) && (ReadsWhole(d, k, c, w) ==> Reads(d, c, b))
  {
    var b := WireBits(d, w)[0];
    assert b in WireBits(d, w);
    WholeBits(d, k, c, w, b);
  }

  // ---------------------------------------------------------------- the storage form is a design

  /** Every bit of the storage form is a bit of the design or the padding of a wire. */
  lemma BitOrPad(d: Design, k: Words, fns: Fns, b: nat) returns (w: nat)
    requires |d.cells| == |fns| && |d.wireOf| <= b
    ensures b == PadBit(d, w)
  {
    w := b - |d.wireOf|;
  }

  lemma StoredKind(d: Design, k: Words, fns: Fns, b: nat)
    requires |d.cells| == |fns| && WellFormed(d) && b < |d.wireOf|
    ensures KindOf(Stored(d, k, fns), b) == KindOf(d, b) && Stored(d, k, fns).wireOf[b] == d.wireOf[b]
  {
  }

  lemma StoredPadKind(d: Design, k: Words, fns: Fns, w: nat)
    requires |d.cells| == |fns| && w < |d.kind|
    ensures PadBit(d, w) < |Stored(d, k, fns).wireOf| && Stored(d, k, fns).wireOf[PadBit(d, w)] == w
    ensures KindOf(Stored(d, k, fns), PadBit(d, w)) == d.kind[w]
  {
  }

  /** What a stored cell reads and drives exists; what it drives is combinational. */
  lemma StoredInRange(d: Design, k: Words, fns: Fns, c: nat, b: nat)
    requires |d.cells| == |fns| && WellFormed(d)
    ensures Reads(Stored(d, k, fns), c, b) ==> b < |Stored(d, k, fns).wireOf|
    ensures Drives(Stored(d, k, fns), c, b) ==> b < |Stored(d, k, fns).wireOf| && KindOf(Stored(d, k, fns), b) == Comb
  {
    if b < |d.wireOf| {
      StoredPins(d, k, fns, c, b);
      StoredKind(d, k, fns, b);
    } else {
      var w := BitOrPad(d, k, fns, b);
      StoredPadPins(d, k, fns, c, w);
      if Padded(d, k, w) { StoredPadKind(d, k, fns, w); }
    }
  }

  /** No two cells drive one bit. */
  lemma StoredOneDriver(d: Design, k: Words, fns: Fns, c: nat, c': nat, b: nat)
    requires |d.cells| == |fns| && WellFormed(d) && ScalarsOk(d, k)
    requires Drives(Stored(d, k, fns), c, b) && Drives(Stored(d, k, fns), c', b)
    ensures c == c'
  {
    if b < |d.wireOf| {
      StoredPins(d, k, fns, c, b);
      StoredPins(d, k, fns, c', b);
    } else {
      var w := BitOrPad(d, k, fns, b);
      StoredPadPins(d, k, fns, c, w);
      StoredPadPins(d, k, fns, c', w);
      PadNeedsBit(d, k, c, w);
      PadNeedsBit(d, k, c', w);
    }
  }

  lemma StoredDistinct(d: Design, k: Words, fns: Fns, c: nat)
    requires |d.cells| == |fns| && WellFormed(d) && c < |d.cells|
    ensures DistinctBits(Stored(d, k, fns).cells[c].outs)
  {
    var q := PadBits(d, PadsStored(d, k, c));
    var outs := d.cells[c].outs;
    forall i | 0 <= i < |outs| ensures outs[i] < |d.wireOf| { assert Drives(d, c, outs[i]); }
    assert DistinctBits(q);
    assert Stored(d, k, fns).cells[c].outs == outs + q;
  }

  lemma StoredFormed(d: Design, k: Words, fns: Fns)
    requires |d.cells| == |fns| && WellFormed(d) && ScalarsOk(d, k)
    ensures WellFormed(Stored(d, k, fns))
  {
    var r := Stored(d, k, fns);
    forall c: nat, b: nat
      ensures Reads(r, c, b) ==> b < |r.wireOf|
      ensures Drives(r, c, b) ==> b < |r.wireOf| && KindOf(r, b) == Comb
    {
      StoredInRange(d, k, fns, c, b);
    }
    forall c: nat | c < |r.cells| ensures DistinctBits(r.cells[c].outs) { StoredDistinct(d, k, fns, c); }
    forall c: nat, c': nat, b: nat | Drives(r, c, b) && Drives(r, c', b) ensures c == c' {
      StoredOneDriver(d, k, fns, c, c', b);
    }
    StoredSlices(d.slices, d.wireOf, r.wireOf, d.kind);
  }

  lemma StoredSlices(slices: seq<RegSlice>, wireOf: seq<nat>, more: seq<nat>, kind: seq<Kind>)
    requires SlicesFit(slices, wireOf, kind) && wireOf <= more
    ensures SlicesFit(slices, more, kind)
  {
    forall r: nat | r < |slices| ensures SliceFits(slices[r], more, kind) {
      assert SliceFits(slices[r], wireOf, kind);
    }
  }

  /** The driver of a bit read is before its reader, padding included. */
  lemma StoredReady(d: Design, k: Words, fns: Fns, order: seq<nat>, i: nat)
    requires |d.cells| == |fns| && WellFormed(d) && ScalarsOk(d, k) && Topological(d, order) && i < |order|
    ensures ReadyAt(Stored(d, k, fns), order, i)
  {
    var r := Stored(d, k, fns);
    assert ReadyAt(d, order, i);
    forall b: nat, p: nat | Reads(r, order[i], b) && Drives(r, p, b) ensures p in order[..i] {
      if b < |d.wireOf| {
        StoredPins(d, k, fns, order[i], b);
        StoredPins(d, k, fns, p, b);
      } else {
        var w := BitOrPad(d, k, fns, b);
        StoredPadPins(d, k, fns, order[i], w);
        StoredPadPins(d, k, fns, p, w);
        PadNeedsBit(d, k, order[i], w);
        PadNeedsBit(d, k, p, w);
      }
    }
  }

  lemma StoredValid(s: Split, k: Words, fns: Fns)
    requires |s.d.cells| == |fns| && s.Valid() && ScalarsOk(s.d, k)
    ensures StoredSplit(s, k, fns).Valid()
  {
    StoredFormed(s.d, k, fns);
    forall i | 0 <= i < |s.order| ensures ReadyAt(Stored(s.d, k, fns), s.order, i) {
      StoredReady(s.d, k, fns, s.order, i);
    }
  }

  // ---------------------------------------------------------------- the same plan

  lemma StoredCellWires(s: Split, k: Words, fns: Fns, c: nat, w: nat)
    requires |s.d.cells| == |fns| && s.Valid() && ScalarsOk(s.d, k) && c < |s.d.cells|
    ensures StoredSplit(s, k, fns).CellWrites(c, w) == s.CellWrites(c, w)
    ensures StoredSplit(s, k, fns).CellReads(c, w) == s.CellReads(c, w)
  {
    StoredWrites(s, k, fns, c, w);
    StoredReads(s, k, fns, c, w);
  }

  lemma StoredWrites(s: Split, k: Words, fns: Fns, c: nat, w: nat)
    requires |s.d.cells| == |fns| && s.Valid() && ScalarsOk(s.d, k) && c < |s.d.cells|
    ensures StoredSplit(s, k, fns).CellWrites(c, w) == s.CellWrites(c, w)
  {
    var r := StoredSplit(s, k, fns);
    if s.CellWrites(c, w) {
      var j :| 0 <= j < |s.d.cells[c].outs| && s.WireIs(s.d.cells[c].outs[j], w);
      assert r.d.cells[c].outs[j] == s.d.cells[c].outs[j];
      assert r.WireIs(r.d.cells[c].outs[j], w);
    }
    if r.CellWrites(c, w) {
      var j :| 0 <= j < |r.d.cells[c].outs| && r.WireIs(r.d.cells[c].outs[j], w);
      var b := r.d.cells[c].outs[j];
      assert Drives(r.d, c, b);
      if b < |s.d.wireOf| {
        StoredPins(s.d, k, fns, c, b);
        s.DrivesWrites(c, b);
      } else {
        var v := BitOrPad(s.d, k, fns, b);
        StoredPadPins(s.d, k, fns, c, v);
        PadNeedsBit(s.d, k, c, v);
        s.DrivesWrites(c, WireBits(s.d, v)[0]);
      }
    }
  }

  lemma StoredReads(s: Split, k: Words, fns: Fns, c: nat, w: nat)
    requires |s.d.cells| == |fns| && s.Valid() && ScalarsOk(s.d, k) && c < |s.d.cells|
    ensures StoredSplit(s, k, fns).CellReads(c, w) == s.CellReads(c, w)
  {
    var r := StoredSplit(s, k, fns);
    if s.CellReads(c, w) {
      var j :| 0 <= j < |s.d.cells[c].ins| && s.d.cells[c].ins[j].Net? && s.WireIs(s.d.cells[c].ins[j].bit, w);
      assert r.d.cells[c].ins[j] == s.d.cells[c].ins[j];
      assert r.WireIs(r.d.cells[c].ins[j].bit, w);
    }
    if r.CellReads(c, w) {
      var j :| 0 <= j < |r.d.cells[c].ins| && r.d.cells[c].ins[j].Net? && r.WireIs(r.d.cells[c].ins[j].bit, w);
      var b := r.d.cells[c].ins[j].bit;
      assert r.d.cells[c].ins[j] == Net(b);
      assert Reads(r.d, c, b);
      if b < |s.d.wireOf| {
        StoredPins(s.d, k, fns, c, b);
        ReadsWire(s, c, b);
      } else {
        var v := BitOrPad(s.d, k, fns, b);
        StoredPadPins(s.d, k, fns, c, v);
        PadNeedsBit(s.d, k, c, v);
        ReadsWire(s, c, WireBits(s.d, v)[0]);
      }
    }
  }

  lemma ReadsWire(s: Split, c: nat, b: nat)
    requires Reads(s.d, c, b) && b < |s.d.wireOf|
    ensures s.CellReads(c, s.d.wireOf[b])
  {
    var j :| 0 <= j < |s.d.cells[c].ins| && s.d.cells[c].ins[j] == Net(b);
    assert s.WireIs(s.d.cells[c].ins[j].bit, s.d.wireOf[b]);
  }

  lemma StoredBlocks(s: Split, k: Words, fns: Fns, p: nat, w: nat)
    requires |s.d.cells| == |fns| && s.Valid() && ScalarsOk(s.d, k)
    ensures StoredSplit(s, k, fns).Shaped()
    ensures StoredSplit(s, k, fns).WritesIn(p, w) == s.WritesIn(p, w) && StoredSplit(s, k, fns).ReadsIn(p, w) == s.ReadsIn(p, w)
  {
    var r := StoredSplit(s, k, fns);
    forall i | 0 <= i < |s.order|
      ensures r.CellWrites(r.order[i], w) == s.CellWrites(s.order[i], w)
      ensures r.CellReads(r.order[i], w) == s.CellReads(s.order[i], w)
    {
      StoredCellWires(s, k, fns, s.order[i], w);
    }
  }

  /** Padding moves no wire between locals and statics. */
  lemma StoredPlan(s: Split, k: Words, fns: Fns, w: nat)
    requires |s.d.cells| == |fns| && s.Valid() && ScalarsOk(s.d, k) && Closed(s.d) && w < |s.d.kind|
    ensures StoredSplit(s, k, fns).Shaped()
    ensures Written(StoredSplit(s, k, fns), w) == Written(s, w) && LocalWire(StoredSplit(s, k, fns), w) == LocalWire(s, w)
    ensures ReadSomewhere(StoredSplit(s, k, fns), w) == ReadSomewhere(s, w)
  {
    var r := StoredSplit(s, k, fns);
    forall p: nat ensures r.Shaped() && r.WritesIn(p, w) == s.WritesIn(p, w) && r.ReadsIn(p, w) == s.ReadsIn(p, w) {
      StoredBlocks(s, k, fns, p, w);
    }
    SameCross(s, r, w);
    StoredEdges(s, k, fns, w);
  }

  lemma SameCross(s: Split, r: Split, w: nat)
    requires s.Shaped() && r.Shaped() && r.parts == s.parts
    requires forall p: nat :: r.WritesIn(p, w) == s.WritesIn(p, w) && r.ReadsIn(p, w) == s.ReadsIn(p, w)
    ensures Written(r, w) == Written(s, w) && ReadSomewhere(r, w) == ReadSomewhere(s, w) && CrossBlock(r, w) == CrossBlock(s, w)
  {
  }

  lemma StoredEdges(s: Split, k: Words, fns: Fns, w: nat)
    requires |s.d.cells| == |fns| && Closed(s.d)
    ensures StoredSplit(s, k, fns).SeqWire(w) == s.SeqWire(w) && OutputWire(StoredSplit(s, k, fns), w) == OutputWire(s, w)
  {
    var r := StoredSplit(s, k, fns);
    forall b: nat ensures SeqReads(r.d, b) == SeqReads(s.d, b) {}
    forall b: nat | b < |s.d.wireOf| ensures r.WireIs(b, w) == s.WireIs(b, w) {}
    forall o: nat ensures r.OutputHas(o, w) == s.OutputHas(o, w) {}
    if s.SeqWire(w) {
      var b :| 0 <= b < |s.d.wireOf| && s.WireIs(b, w) && SeqReads(s.d, b);
      assert r.WireIs(b, w) && SeqReads(r.d, b);
    }
    if r.SeqWire(w) {
      var b :| 0 <= b < |r.d.wireOf| && r.WireIs(b, w) && SeqReads(r.d, b);
      assert b < |s.d.wireOf| && s.WireIs(b, w) && SeqReads(s.d, b);
    }
  }

  /** A safe wiring reads no undriven bit of a local in its storage form. */
  lemma StoredReadsDriven(s: Split, k: Words, fns: Fns)
    requires |s.d.cells| == |fns| && s.Valid() && ScalarsOk(s.d, k) && Closed(s.d) && StorageSafe(s, k)
    ensures StoredSplit(s, k, fns).Shaped() && LocalReadsDriven(StoredSplit(s, k, fns))
  {
    var r := StoredSplit(s, k, fns);
    forall c: nat, b: nat | DrivesSome(r.d, c) && Reads(r.d, c, b) && b < |r.d.wireOf| && LocalWire(r, r.d.wireOf[b])
      ensures Driven(r.d, b)
    {
      StoredReadDriven(s, k, fns, c, b);
    }
  }

  lemma StoredDrivesSome(s: Split, k: Words, fns: Fns, c: nat)
    requires |s.d.cells| == |fns| && s.Valid() && ScalarsOk(s.d, k)
    ensures DrivesSome(Stored(s.d, k, fns), c) == DrivesSome(s.d, c)
  {
    if c < |s.d.cells| && s.d.cells[c].outs == [] && PadsStored(s.d, k, c) != [] {
      var w := PadsStored(s.d, k, c)[0];
      assert w in PadsStored(s.d, k, c);
      PadNeedsBit(s.d, k, c, w);
    }
  }

  lemma StoredReadDriven(s: Split, k: Words, fns: Fns, c: nat, b: nat)
    requires |s.d.cells| == |fns| && s.Valid() && ScalarsOk(s.d, k) && Closed(s.d) && StorageSafe(s, k)
    requires var r := StoredSplit(s, k, fns);
      DrivesSome(r.d, c) && Reads(r.d, c, b) && b < |r.d.wireOf| && r.Shaped() && LocalWire(r, r.d.wireOf[b])
    ensures Driven(Stored(s.d, k, fns), b)
  {
    StoredDrivesSome(s, k, fns, c);
    if b < |s.d.wireOf| {
      StoredPins(s.d, k, fns, c, b);
      StoredPlan(s, k, fns, s.d.wireOf[b]);
      var p: nat :| Drives(s.d, p, b);
      StoredPins(s.d, k, fns, p, b);
    } else {
      var w := BitOrPad(s.d, k, fns, b);
      StoredPadPins(s.d, k, fns, c, w);
      StoredPadKind(s.d, k, fns, w);
      StoredPlan(s, k, fns, w);
      var p: nat :| StoresWhole(s.d, p, w);
      StoredPadPins(s.d, k, fns, p, w);
    }
  }
}
