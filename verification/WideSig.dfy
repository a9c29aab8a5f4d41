/** Concatenations. */
module WideSig {
  // Concatenations of wire slices and constants: gathered into limbs or one 64-bit word, and
  // scattered back.  A wire of at most 64 bits is one word, a wider one a limb array.

  import opened Bits
  import opened Limbs
  import opened BitField
  import opened WideArith
  import opened WideShift

  datatype Wire =
    | Narrow(width: nat, word: Limb)
    | Wide(width: nat, limbs: seq<Limb>)

  datatype Piece =
    | Slice(wire: nat, off: nat, w: nat)
    | Const(bits: seq<bool>)

  predicate LimbWidth(l: nat) { l == 32 || l == 64 }

  /** `nlimbs`. */
  function Nlimbs(l: nat, width: nat): (n: nat)
    requires l > 0
  {
    if width == 0 then 0 else LimbOf(l, width - 1) + 1
  }

  /** Narrow words are kept zero above their width; wide wires have room for it. */
  ghost predicate WireOk(l: nat, x: Wire) {
    l > 0 && match x
    case Narrow(width, word) => |word| == SCALAR && width <= SCALAR && forall k :: width <= k < SCALAR ==> !word[k]
    case Wide(width, limbs) => Words(l, limbs) && |limbs| == Nlimbs(l, width)
  }

  ghost predicate StoreOk(l: nat, st: seq<Wire>) {
    forall i :: 0 <= i < |st| ==> WireOk(l, st[i])
  }

  predicate PieceOk(st: seq<Wire>, c: Piece) {
    match c
    case Slice(wire, off, w) => wire < |st| && w > 0 && off + w <= st[wire].width
    case Const(bits) => |bits| > 0
  }

  predicate SigOk(st: seq<Wire>, sig: seq<Piece>) {
    forall i :: 0 <= i < |sig| ==> PieceOk(st, sig[i])
  }

  function PieceWidth(c: Piece): nat {
    match c case Slice(_, _, w) => w case Const(bits) => |bits|
  }

  predicate WireBit(l: nat, x: Wire, k: nat)
    requires l > 0
  {
    match x
    case Narrow(_, word) => k < |word| && word[k]
    case Wide(_, limbs) => Bit(l, limbs, k)
  }

  // ---------------------------------------------------------------- meaning

  function PieceBits(l: nat, st: seq<Wire>, c: Piece): (b: seq<bool>)
    requires l > 0 && PieceOk(st, c)
    ensures |b| == PieceWidth(c)
  {
    match c
    case Slice(wire, off, w) => seq(w, j requires 0 <= j => WireBit(l, st[wire], off + j))
    case Const(bits) => bits
  }

  /** Where piece `n` starts. */
  function SigLen(sig: seq<Piece>, n: nat): (len: nat)
    requires n <= |sig|
    decreases n
  {
    if n == 0 then 0 else SigLen(sig, n - 1) + PieceWidth(sig[n - 1])
  }

  /** The bits of the first `n` pieces, the first piece lowest. */
  function SigBits(l: nat, st: seq<Wire>, sig: seq<Piece>, n: nat): (b: seq<bool>)
    requires l > 0 && SigOk(st, sig) && n <= |sig|
    ensures |b| == SigLen(sig, n)
    decreases n
  {
    if n == 0 then [] else SigBits(l, st, sig, n - 1) + PieceBits(l, st, sig[n - 1])
  }

  lemma {:induction false} SigPrefix(sig: seq<Piece>, n: nat, m: nat)
    requires n <= m <= |sig|
    ensures SigLen(sig, n) <= SigLen(sig, m)
    decreases m
  {
    if n < m { SigPrefix(sig, n, m - 1); }
  }

  /** Bit by bit: the pieces follow each other from the lowest bit on; piece `i` holds the bits of its constant, or the
      bits of its wire from its offset on. */
  lemma {:induction false} SigMeans(l: nat, st: seq<Wire>, sig: seq<Piece>, n: nat, i: nat, k: nat)
    requires l > 0 && SigOk(st, sig) && i < n <= |sig|
    ensures SigLen(sig, 0) == 0
    ensures SigLen(sig, i + 1) == SigLen(sig, i) + (if sig[i].Slice? then sig[i].w else |sig[i].bits|) <= SigLen(sig, n)
    ensures sig[i].Slice? && k < sig[i].w ==>
      SigBits(l, st, sig, n)[SigLen(sig, i) + k] == WireBit(l, st[sig[i].wire], sig[i].off + k)
    ensures sig[i].Const? && k < |sig[i].bits| ==> SigBits(l, st, sig, n)[SigLen(sig, i) + k] == sig[i].bits[k]
    decreases n
  {
    SigPrefix(sig, i + 1, n);
    if i < n - 1 { SigMeans(l, st, sig, n - 1, i, k); }
  }

  /** Bit `k` of a wire: of its word, or of limb `k / l` at place `k % l`. */
  lemma WireBitMeans(l: nat, x: Wire, k: nat)
    requires l > 0 && WireOk(l, x) && k < x.width
    ensures x.Narrow? ==> k < |x.word| && WireBit(l, x, k) == x.word[k]
    ensures x.Wide? ==> k / l < |x.limbs| && k % l < |x.limbs[k / l]| && WireBit(l, x, k) == x.limbs[k / l][k % l]
  {
    LimbBit(l, k);
    if x.Wide? { LimbMono(l, k, x.width - 1); }
  }

  // ---------------------------------------------------------------- gathering into limbs

  lemma FieldFits(l: nat, a: seq<Limb>, width: nat, off: nat, w: nat)
    requires l > 0 && |a| >= Nlimbs(l, width) && off + w <= width
    ensures BitField.Fits(l, a, off, w)
  {
    if w > 0 { LimbMono(l, off + w - 1, width - 1); }
  }

  /** The statement emitted for one wire piece: folded when a 32-bit word holds it, a call otherwise. */
  function GatherStep(l: nat, d: seq<Limb>, pos: nat, x: Wire, off: nat, w: nat): (r: seq<Limb>)
    requires l <= SCALAR && WireOk(l, x) && Words(l, d) && w > 0 && off + w <= x.width && BitField.Fits(l, d, pos, w)
    ensures Words(l, r) && |r| == |d|
  {
    FitsPrefix(l, d, pos, w, w);
    match x
    case Wide(width, limbs) =>
      FieldFits(l, limbs, width, off, w);
      FitsPrefix(l, limbs, off, w, w);
      if l == 32 && OneWord(l, pos, off, w) then
        FoldOneWord(l, d, pos, limbs, off, w);
        Folded(l, d, pos, limbs, off, w)
      else CopyBits(l, d, pos, limbs, off, w, false)
    case Narrow(_, word) =>
      if l == 32 && BitOf(l, pos) + w <= l && off + w <= SCALAR then
        Step(l, d, pos, LowLimb(l, ShrW(word, off)), 0, w, false)
      else ScalarBits(l, d, pos, ShrW(word, off), w, false)
  }

  lemma GatherStepBit(l: nat, d: seq<Limb>, pos: nat, x: Wire, off: nat, w: nat, k: nat)
    requires l <= SCALAR && WireOk(l, x) && Words(l, d) && w > 0 && off + w <= x.width && BitField.Fits(l, d, pos, w)
    requires LimbOf(l, k) < |d|
    ensures Bit(l, GatherStep(l, d, pos, x, off, w), k) ==
      (Bit(l, d, k) || (pos <= k < pos + w && WireBit(l, x, off + (k - pos))))
  {
    match x {
      case Wide(width, limbs) => GatherWideBit(l, d, pos, x, off, w, k);
      case Narrow(_, word) => GatherNarrowBit(l, d, pos, x, off, w, k);
    }
  }

  lemma GatherWideBit(l: nat, d: seq<Limb>, pos: nat, x: Wire, off: nat, w: nat, k: nat)
    requires l <= SCALAR && WireOk(l, x) && Words(l, d) && w > 0 && off + w <= x.width && BitField.Fits(l, d, pos, w)
    requires LimbOf(l, k) < |d| && x.Wide?
    ensures Bit(l, GatherStep(l, d, pos, x, off, w), k) ==
      (Bit(l, d, k) || (pos <= k < pos + w && WireBit(l, x, off + (k - pos))))
  {
    FieldFits(l, x.limbs, x.width, off, w);
    FitsPrefix(l, x.limbs, off, w, w);
    FitsPrefix(l, d, pos, w, w);
    if OneWord(l, pos, off, w) { FoldOneWord(l, d, pos, x.limbs, off, w); }
    assert GatherStep(l, d, pos, x, off, w) == CopyBits(l, d, pos, x.limbs, off, w, false);
    CopyBitsAt(l, d, pos, x.limbs, off, w, false, k);
  }

  lemma GatherNarrowBit(l: nat, d: seq<Limb>, pos: nat, x: Wire, off: nat, w: nat, k: nat)
    requires l <= SCALAR && WireOk(l, x) && Words(l, d) && w > 0 && off + w <= x.width && BitField.Fits(l, d, pos, w)
    requires LimbOf(l, k) < |d| && x.Narrow?
    ensures Bit(l, GatherStep(l, d, pos, x, off, w), k) ==
      (Bit(l, d, k) || (pos <= k < pos + w && WireBit(l, x, off + (k - pos))))
  {
    FitsPrefix(l, d, pos, w, w);
    var s := ShrW(x.word, off);
    if pos <= k < pos + w { assert ScalarBit(s, k - pos) == WireBit(l, x, off + (k - pos)); }
    if l == 32 && BitOf(l, pos) + w <= l && off + w <= SCALAR {
      StepBit(l, d, pos, LowLimb(l, s), 0, w, false, k);
    } else {
      ScalarBitsAt(l, d, pos, s, w, false, k);
    }
  }

  /** `d` and the constant accumulator together hold the bits gathered so far. */
  ghost predicate Filled(l: nat, d: seq<Limb>, acc: seq<Limb>, b: seq<bool>)
    requires l > 0
  {
    && Words(l, d) && Words(l, acc) && |d| == |acc|
    && forall k: nat :: LimbOf(l, k) < |d| ==> (Bit(l, d, k) || Bit(l, acc, k)) == (k < |b| && b[k])
  }

  /** `d'` is `d` with the bits `p` ORed in at `pos`. */
  ghost predicate Added(l: nat, d: seq<Limb>, d': seq<Limb>, pos: nat, p: seq<bool>)
    requires l > 0
  {
    && Words(l, d') && |d'| == |d|
    && forall k: nat :: LimbOf(l, k) < |d| ==> Bit(l, d', k) == (Bit(l, d, k) || (pos <= k < pos + |p| && p[k - pos]))
  }

  lemma GatherAdds(l: nat, d: seq<Limb>, pos: nat, st: seq<Wire>, c: Piece)
    requires 0 < l <= SCALAR && Words(l, d) && StoreOk(l, st) && PieceOk(st, c) && c.Slice?
    requires BitField.Fits(l, d, pos, c.w)
    ensures Added(l, d, GatherStep(l, d, pos, st[c.wire], c.off, c.w), pos, PieceBits(l, st, c))
  {
    var d' := GatherStep(l, d, pos, st[c.wire], c.off, c.w);
    var p := PieceBits(l, st, c);
    forall k: nat | LimbOf(l, k) < |d|
      ensures Bit(l, d', k) == (Bit(l, d, k) || (pos <= k < pos + |p| && p[k - pos]))
    {
      GatherStepBit(l, d, pos, st[c.wire], c.off, c.w, k);
    }
  }

  lemma FilledMore(l: nat, d: seq<Limb>, d': seq<Limb>, acc: seq<Limb>, b: seq<bool>, p: seq<bool>)
    requires l > 0 && Filled(l, d, acc, b) && Added(l, d, d', |b|, p)
    ensures Filled(l, d', acc, b + p)
  {
    forall k: nat | LimbOf(l, k) < |d|
      ensures (Bit(l, d', k) || Bit(l, acc, k)) == (k < |b + p| && (b + p)[k])
    {
    }
  }

  /** Sets one bit of the accumulator. */
  function SetBit(l: nat, acc: seq<Limb>, p: nat): (r: seq<Limb>)
    requires l > 0 && Words(l, acc) && LimbOf(l, p) < |acc|
    ensures Words(l, r) && |r| == |acc|
  {
    acc[LimbOf(l, p) := acc[LimbOf(l, p)][BitOf(l, p) := true]]
  }

  lemma SetBitAt(l: nat, acc: seq<Limb>, p: nat, k: nat)
    requires l > 0 && Words(l, acc) && LimbOf(l, p) < |acc| && LimbOf(l, k) < |acc|
    ensures Bit(l, SetBit(l, acc, p), k) == (k == p || Bit(l, acc, k))
  {
    if LimbOf(l, k) == LimbOf(l, p) && BitOf(l, k) == BitOf(l, p) { SamePlace(l, k, p); }
  }

  lemma SetBitAdds(l: nat, acc: seq<Limb>, pos: nat, v: bool)
    requires l > 0 && Words(l, acc) && LimbOf(l, pos) < |acc|
    ensures Added(l, acc, if v then SetBit(l, acc, pos) else acc, pos, [v])
  {
    if v {
      forall k: nat | LimbOf(l, k) < |acc|
        ensures Bit(l, SetBit(l, acc, pos), k) == (Bit(l, acc, k) || (pos <= k < pos + 1 && [v][k - pos]))
      {
        SetBitAt(l, acc, pos, k);
      }
    }
  }

  lemma AddedMore(l: nat, d: seq<Limb>, d': seq<Limb>, d'': seq<Limb>, pos: nat, p: seq<bool>, v: bool)
    requires l > 0 && Added(l, d, d', pos, p) && Added(l, d', d'', pos + |p|, [v])
    ensures Added(l, d, d'', pos, p + [v])
  {
  }

  /** The emitter's accumulation of a constant piece. */
  method AccumulateConst(l: nat, acc0: seq<Limb>, pos: nat, bits: seq<bool>) returns (acc: seq<Limb>)
    requires l > 0 && Words(l, acc0) && BitField.Fits(l, acc0, pos, |bits|)
    ensures Added(l, acc0, acc, pos, bits)
  {
    acc := acc0;
    for i := 0 to |bits|
      invariant Added(l, acc0, acc, pos, bits[..i])
    {
      ghost var was := acc;
      var p := pos + i;
      LimbMono(l, p, pos + |bits| - 1);
      SetBitAdds(l, acc, p, bits[i]);
      if bits[i] && LimbOf(l, p) < |acc| { acc := SetBit(l, acc, p); }
      AddedMore(l, acc0, was, acc, pos, bits[..i], bits[i]);
      assert bits[..i] + [bits[i]] == bits[..i+1];
    }
    assert bits[..|bits|] == bits;
  }

  /** Filling the accumulator instead of the destination. */
  lemma FilledConst(l: nat, d: seq<Limb>, acc: seq<Limb>, acc': seq<Limb>, b: seq<bool>, p: seq<bool>)
    requires l > 0 && Filled(l, d, acc, b) && Added(l, acc, acc', |b|, p)
    ensures Filled(l, d, acc', b + p)
  {
    forall k: nat | LimbOf(l, k) < |d|
      ensures (Bit(l, d, k) || Bit(l, acc', k)) == (k < |b + p| && (b + p)[k])
    {
    }
  }

  // ---------------------------------------------------------------- finishing: constants and sign

  function OrAll(d: seq<Limb>, acc: seq<Limb>): (r: seq<Limb>)
    requires |d| == |acc| && forall i :: 0 <= i < |d| ==> |d[i]| == |acc[i]|
    ensures |r| == |d|
  {
    seq(|d|, i requires 0 <= i < |d| => OrW(d[i], acc[i]))
  }

  ghost predicate Holds(l: nat, d: seq<Limb>, b: seq<bool>)
    requires l > 0
  {
    && Words(l, d)
    && forall k: nat :: LimbOf(l, k) < |d| ==> Bit(l, d, k) == (k < |b| && b[k])
  }

  lemma FilledHolds(l: nat, d: seq<Limb>, acc: seq<Limb>, b: seq<bool>)
    requires l > 0 && Filled(l, d, acc, b)
    ensures Holds(l, OrAll(d, acc), b)
  {
    var r := OrAll(d, acc);
    forall k: nat | LimbOf(l, k) < |d| ensures Bit(l, r, k) == (k < |b| && b[k]) {
      var q := LimbOf(l, k);
      assert r[q][BitOf(l, k)] == (d[q][BitOf(l, k)] || acc[q][BitOf(l, k)]);
    }
  }

  function SignLimb(l: nat, d: seq<Limb>, tl: nat, tb: nat, i: nat): (r: Limb)
    requires Words(l, d) && i < |d|
    ensures |r| == l
  {
    if i < tl then d[i] else if i == tl then OrW(d[i], NotW(MaskW(l, tb + 1))) else NotW(Zeros(l))
  }

  /** `if (dst[tl] & top) { dst[tl] |= hm; dst[i] = ~0 for i > tl }`. */
  function SignFill(l: nat, d: seq<Limb>, sw: nat): (r: seq<Limb>)
    requires l > 0 && sw > 0 && Words(l, d) && LimbOf(l, sw - 1) < |d|
    ensures Words(l, r) && |r| == |d|
  {
    var tl, tb := LimbOf(l, sw - 1), BitOf(l, sw - 1);
    if d[tl][tb] then seq(|d|, i requires 0 <= i < |d| => SignLimb(l, d, tl, tb, i)) else d
  }

  /** `b` extended to `n` bits with its top bit (`sign`) or zeros. */
  function Extend(b: seq<bool>, n: nat, sign: bool): (r: seq<bool>)
    requires |b| <= n
    ensures |r| == n
  {
    b + seq(n - |b|, _ => sign && |b| > 0 && b[|b| - 1])
  }

  lemma SignWordBit(l: nat, d: seq<Limb>, tl: nat, tb: nat, i: nat, r: nat)
    requires Words(l, d) && i < |d| && tb < l && r < l
    ensures OrW(d[i], NotW(MaskW(l, tb + 1)))[r] == (d[i][r] || r > tb)
    ensures NotW(Zeros(l))[r]
  {
    assert NotW(MaskW(l, tb + 1))[r] == (r > tb);
  }

  lemma SignFillBit(l: nat, d: seq<Limb>, b: seq<bool>, n: nat, k: nat)
    requires l > 0 && Holds(l, d, b) && 0 < |b| <= n && LimbOf(l, |b| - 1) < |d| && LimbOf(l, k) < |d| && k < n
    ensures Bit(l, SignFill(l, d, |b|), k) == Extend(b, n, true)[k]
  {
    var p := |b| - 1;
    assert Bit(l, d, p) == b[p];
    assert Bit(l, d, k) == (k < |b| && b[k]);
    SignWordBit(l, d, LimbOf(l, p), BitOf(l, p), LimbOf(l, k), BitOf(l, k));
    if k < p { Below(l, k, p); }
    if p < k { Below(l, p, k); }
  }

  /** Limbs holding a bit string spell it, padded with zeros. */
  lemma HoldsFlat(l: nat, d: seq<Limb>, b: seq<bool>)
    requires l > 0 && Holds(l, d, b) && |b| <= |Flat(d)|
    ensures Flat(d) == Extend(b, |Flat(d)|, false)
  {
    forall k | 0 <= k < |Flat(d)| ensures Flat(d)[k] == (k < |b| && b[k]) {
      FlatAt(l, d, k);
    }
  }

  lemma SignFlat(l: nat, d: seq<Limb>, b: seq<bool>)
    requires l > 0 && Holds(l, d, b) && 0 < |b| && LimbOf(l, |b| - 1) < |d|
    ensures var r := SignFill(l, d, |b|); |b| <= |Flat(r)| && Flat(r) == Extend(b, |Flat(r)|, true)
  {
    var r := SignFill(l, d, |b|);
    FlatAt(l, r, |b| - 1);
    forall k | 0 <= k < |Flat(r)| ensures Flat(r)[k] == Extend(b, |Flat(r)|, true)[k] {
      FlatAt(l, r, k);
      SignFillBit(l, d, b, |Flat(r)|, k);
    }
  }

  /** The statements for one piece. */
  method GatherPiece(l: nat, st: seq<Wire>, c: Piece, d: seq<Limb>, acc: seq<Limb>, pos: nat, ghost b: seq<bool>)
    returns (d': seq<Limb>, acc': seq<Limb>)
    requires LimbWidth(l) && StoreOk(l, st) && PieceOk(st, c) && Filled(l, d, acc, b) && pos == |b|
    requires BitField.Fits(l, d, pos, PieceWidth(c))
    ensures Filled(l, d', acc', b + PieceBits(l, st, c)) && |d'| == |d|
  {
    d', acc' := d, acc;
    match c {
      case Slice(wire, off, w) =>
        GatherAdds(l, d, pos, st, c);
        d' := GatherStep(l, d, pos, st[wire], off, w);
        FilledMore(l, d, d', acc, b, PieceBits(l, st, c));
      case Const(bits) =>
        acc' := AccumulateConst(l, acc, pos, bits);
        FilledConst(l, d, acc, acc', b, bits);
    }
  }

  lemma ZerosFilled(l: nat, n: nat)
    requires l > 0
    ensures Filled(l, ZeroLimbs(l, n), ZeroLimbs(l, n), [])
  {
  }

  lemma PieceInside(sig: seq<Piece>, i: nat)
    requires i < |sig|
    ensures SigLen(sig, i) + PieceWidth(sig[i]) <= SigLen(sig, |sig|)
  {
    SigPrefix(sig, i + 1, |sig|);
  }

  lemma PieceFits(l: nat, sig: seq<Piece>, i: nat, d: seq<Limb>)
    requires l > 0 && i < |sig| && Nlimbs(l, SigLen(sig, |sig|)) <= |d|
    ensures BitField.Fits(l, d, SigLen(sig, i), PieceWidth(sig[i]))
  {
    PieceInside(sig, i);
    FieldFits(l, d, SigLen(sig, |sig|), SigLen(sig, i), PieceWidth(sig[i]));
  }

  /** The limbs after the first `i` pieces. */
  ghost predicate Gathered(l: nat, st: seq<Wire>, sig: seq<Piece>, i: nat, d: seq<Limb>, acc: seq<Limb>, pos: nat)
    requires LimbWidth(l) && StoreOk(l, st) && SigOk(st, sig) && i <= |sig|
  {
    pos == SigLen(sig, i) && Filled(l, d, acc, SigBits(l, st, sig, i))
  }

  method GatherNext(l: nat, st: seq<Wire>, sig: seq<Piece>, i: nat, d0: seq<Limb>, acc0: seq<Limb>, pos0: nat)
    returns (d: seq<Limb>, acc: seq<Limb>, pos: nat)
    requires LimbWidth(l) && StoreOk(l, st) && SigOk(st, sig) && i < |sig| && Gathered(l, st, sig, i, d0, acc0, pos0)
    requires Nlimbs(l, SigLen(sig, |sig|)) <= |d0|
    ensures |d| == |d0| && Gathered(l, st, sig, i + 1, d, acc, pos)
  {
    PieceFits(l, sig, i, d0);
    d, acc := GatherPiece(l, st, sig[i], d0, acc0, pos0, SigBits(l, st, sig, i));
    pos := pos0 + PieceWidth(sig[i]);
  }

  /** The statements for all pieces, in order. */
  method GatherAll(l: nat, st: seq<Wire>, sig: seq<Piece>, ny: nat)
    returns (d: seq<Limb>, acc: seq<Limb>, pos: nat)
    requires LimbWidth(l) && StoreOk(l, st) && SigOk(st, sig)
    requires Nlimbs(l, SigLen(sig, |sig|)) <= ny
    ensures |d| == ny && Gathered(l, st, sig, |sig|, d, acc, pos)
  {
    d, acc, pos := ZeroLimbs(l, ny), ZeroLimbs(l, ny), 0;
    ZerosFilled(l, ny);
    for i := 0 to |sig|
      invariant |d| == ny && Gathered(l, st, sig, i, d, acc, pos)
    {
      d, acc, pos := GatherNext(l, st, sig, i, d, acc, pos);
    }
  }

  method Finish(l: nat, d0: seq<Limb>, acc: seq<Limb>, sw: nat, ghost b: seq<bool>, signext: bool) returns (d: seq<Limb>)
    requires l > 0 && Filled(l, d0, acc, b) && |b| == sw > 0 && LimbOf(l, |b| - 1) < |d0|
    ensures |d| == |d0| && Words(l, d) && |b| <= |Flat(d)| && Flat(d) == Extend(b, |Flat(d)|, signext)
  {
    d := OrAll(d0, acc);
    FilledHolds(l, d0, acc, b);
    FlatAt(l, d, |b| - 1);
    HoldsFlat(l, d, b);
    if signext {
      SignFlat(l, d, b);
      d := SignFill(l, d, sw);
    }
  }

  lemma SigWidth(st: seq<Wire>, sig: seq<Piece>)
    requires SigOk(st, sig) && |sig| > 0
    ensures SigLen(sig, |sig|) > 0
  {
    assert PieceOk(st, sig[|sig| - 1]);
  }

  /** `emit_materialize`: the signal's bits, zero- or sign-extended, in `ny` fresh limbs. */
  method Materialize(l: nat, st: seq<Wire>, sig: seq<Piece>, ny: nat, signext: bool) returns (dst: array<Limb>)
    requires LimbWidth(l) && StoreOk(l, st) && SigOk(st, sig) && |sig| > 0
    requires Nlimbs(l, SigLen(sig, |sig|)) <= ny
    ensures fresh(dst) && dst.Length == ny && Words(l, dst[..])
    ensures var b := SigBits(l, st, sig, |sig|);
      |b| <= |Flat(dst[..])| && Flat(dst[..]) == Extend(b, |Flat(dst[..])|, signext)
  {
    var d, acc, pos := GatherAll(l, st, sig, ny);
    SigWidth(st, sig);
    d := Finish(l, d, acc, pos, SigBits(l, st, sig, |sig|), signext);
    dst := new Limb[ny](i requires 0 <= i < ny => d[i]);
    assert dst[..] == d;
  }

  // ---------------------------------------------------------------- gathering into one word

  /** One part of `sig_expr`, as a 64-bit value. */
  function PartWord(l: nat, st: seq<Wire>, c: Piece): (v: Limb)
    requires LimbWidth(l) && StoreOk(l, st) && PieceOk(st, c) && PieceWidth(c) <= SCALAR
    ensures |v| == SCALAR
  {
    match c
    case Const(bits) => bits + Zeros(SCALAR - |bits|)
    case Slice(wire, off, w) =>
      match st[wire]
      case Narrow(width, word) =>
        assert WireOk(l, st[wire]);
        if off == 0 && w == width then word else AndW(ShrW(word, off), MaskW(SCALAR, w))
      case Wide(width, limbs) =>
        assert WireOk(l, st[wire]);
        LimbMono(l, off, width - 1);
        Wslice64(l, limbs, off, w)
  }

  lemma PartNarrow(l: nat, st: seq<Wire>, c: Piece, j: nat)
    requires LimbWidth(l) && StoreOk(l, st) && PieceOk(st, c) && PieceWidth(c) <= SCALAR
    requires c.Slice? && st[c.wire].Narrow? && j < SCALAR
    ensures PartWord(l, st, c)[j] == (j < c.w && WireBit(l, st[c.wire], c.off + j))
  {
    var word := st[c.wire].word;
    assert WireOk(l, st[c.wire]);
    assert AndW(ShrW(word, c.off), MaskW(SCALAR, c.w))[j] == (c.off + j < SCALAR && word[c.off + j] && j < c.w);
  }

  lemma PartWide(l: nat, st: seq<Wire>, c: Piece, j: nat)
    requires LimbWidth(l) && StoreOk(l, st) && PieceOk(st, c) && PieceWidth(c) <= SCALAR
    requires c.Slice? && st[c.wire].Wide? && j < SCALAR
    ensures PartWord(l, st, c)[j] == (j < c.w && WireBit(l, st[c.wire], c.off + j))
  {
    var x := st[c.wire];
    assert WireOk(l, x);
    LimbMono(l, c.off, x.width - 1);
    Wslice64Bit(l, x.limbs, c.off, c.w, j);
  }

  lemma PartMeans(l: nat, st: seq<Wire>, c: Piece)
    requires LimbWidth(l) && StoreOk(l, st) && PieceOk(st, c) && PieceWidth(c) <= SCALAR
    ensures PartWord(l, st, c) == PieceBits(l, st, c) + Zeros(SCALAR - PieceWidth(c))
  {
    if c.Slice? {
      var v, p := PartWord(l, st, c), PieceBits(l, st, c);
      forall j | 0 <= j < SCALAR ensures v[j] == (j < |p| && p[j]) { PartBit(l, st, c, j); }
      Padded(v, p, SCALAR);
    }
  }

  lemma PartBit(l: nat, st: seq<Wire>, c: Piece, j: nat)
    requires LimbWidth(l) && StoreOk(l, st) && PieceOk(st, c) && PieceWidth(c) <= SCALAR && c.Slice? && j < SCALAR
    ensures var p := PieceBits(l, st, c); PartWord(l, st, c)[j] == (j < |p| && p[j])
  {
    if st[c.wire].Wide? { PartWide(l, st, c, j); } else { PartNarrow(l, st, c, j); }
  }

  /** `sig_expr`: shift each part to its place and OR it in. */
  function SigExpr(l: nat, st: seq<Wire>, sig: seq<Piece>, n: nat): (v: Limb)
    requires LimbWidth(l) && StoreOk(l, st) && SigOk(st, sig) && 0 < n <= |sig| && SigLen(sig, n) <= SCALAR
    ensures |v| == SCALAR
    decreases n
  {
    var part := PartWord(l, st, sig[n - 1]);
    if n == 1 then part else OrW(ShlW(part, SigLen(sig, n - 1)), SigExpr(l, st, sig, n - 1))
  }

  /** The word `v` is the bit string `b`, zero-extended. */
  predicate Spells(v: Limb, b: seq<bool>) {
    |b| <= SCALAR && v == b + Zeros(SCALAR - |b|)
  }

  lemma SpelledNum(v: Limb, b: seq<bool>, n: nat)
    requires |b| <= n && v == b + Zeros(n - |b|)
    ensures Num(v) == Num(b)
  {
    PadNum(b, n - |b|);
  }

  lemma OrParts(v: Limb, b: seq<bool>, part: Limb, p: seq<bool>)
    requires |v| == |part| == SCALAR && Spells(v, b) && Spells(part, p) && |b| + |p| <= SCALAR
    ensures Spells(OrW(ShlW(part, |b|), v), b + p)
  {
  }

  lemma OnePart(l: nat, st: seq<Wire>, sig: seq<Piece>)
    requires LimbWidth(l) && StoreOk(l, st) && SigOk(st, sig) && |sig| > 0 && SigLen(sig, 1) <= SCALAR
    ensures Spells(SigExpr(l, st, sig, 1), SigBits(l, st, sig, 1))
  {
    assert SigBits(l, st, sig, 0) == [];
    assert SigBits(l, st, sig, 1) == PieceBits(l, st, sig[0]);
    PartMeans(l, st, sig[0]);
  }

  lemma NextPart(l: nat, st: seq<Wire>, sig: seq<Piece>, n: nat) returns (part: Limb, p: seq<bool>)
    requires LimbWidth(l) && StoreOk(l, st) && SigOk(st, sig) && 1 < n <= |sig| && SigLen(sig, n) <= SCALAR
    ensures |part| == SCALAR && SigLen(sig, n - 1) + |p| <= SCALAR && Spells(part, p)
    ensures SigBits(l, st, sig, n) == SigBits(l, st, sig, n - 1) + p
    ensures SigExpr(l, st, sig, n) == OrW(ShlW(part, SigLen(sig, n - 1)), SigExpr(l, st, sig, n - 1))
  {
    PartMeans(l, st, sig[n - 1]);
    part, p := PartWord(l, st, sig[n - 1]), PieceBits(l, st, sig[n - 1]);
  }

  /** The expression is the signal, zero-extended to a word. */
  lemma {:induction false} SigExprBits(l: nat, st: seq<Wire>, sig: seq<Piece>, n: nat)
    requires LimbWidth(l) && StoreOk(l, st) && SigOk(st, sig) && 0 < n <= |sig| && SigLen(sig, n) <= SCALAR
    ensures Spells(SigExpr(l, st, sig, n), SigBits(l, st, sig, n))
    decreases n
  {
    if n == 1 {
      OnePart(l, st, sig);
    } else {
      var part, p := NextPart(l, st, sig, n);
      SigExprBits(l, st, sig, n - 1);
      OrParts(SigExpr(l, st, sig, n - 1), SigBits(l, st, sig, n - 1), part, p);
    }
  }

  /** Zero extension keeps the number. */
  lemma ExtendNum(b: seq<bool>, n: nat)
    requires |b| <= n
    ensures Num(Extend(b, n, false)) == Num(b)
  {
    assert Extend(b, n, false) == b + Zeros(n - |b|);
    PadNum(b, n - |b|);
  }

  /** The word form and the limb form of a signal of at most 64 bits are the same number. */
  lemma WordIsLimbs(l: nat, st: seq<Wire>, sig: seq<Piece>, d: seq<Limb>)
    requires LimbWidth(l) && StoreOk(l, st) && SigOk(st, sig) && |sig| > 0 && SigLen(sig, |sig|) <= SCALAR
    requires SigLen(sig, |sig|) <= |Flat(d)| && Flat(d) == Extend(SigBits(l, st, sig, |sig|), |Flat(d)|, false)
    ensures Num(SigExpr(l, st, sig, |sig|)) == Value(d) == Num(SigBits(l, st, sig, |sig|))
  {
    WordNum(l, st, sig);
    ExtendNum(SigBits(l, st, sig, |sig|), |Flat(d)|);
  }

  lemma WordNum(l: nat, st: seq<Wire>, sig: seq<Piece>)
    requires LimbWidth(l) && StoreOk(l, st) && SigOk(st, sig) && |sig| > 0 && SigLen(sig, |sig|) <= SCALAR
    ensures Num(SigExpr(l, st, sig, |sig|)) == Num(SigBits(l, st, sig, |sig|))
  {
    SigExprBits(l, st, sig, |sig|);
    SpelledNum(SigExpr(l, st, sig, |sig|), SigBits(l, st, sig, |sig|), SCALAR);
  }

  // ---------------------------------------------------------------- scattering

  /** The word of a narrow wire after `v` is stored in its slice: assigned whole or merged under a mask. */
  function NarrowStore(word: Limb, v: Limb, off: nat, w: nat, width: nat): (r: Limb)
    requires |word| == |v| == SCALAR
    ensures |r| == SCALAR
  {
    if off == 0 && w == width then v
    else OrW(AndW(word, NotW(ShlW(MaskW(SCALAR, w), off))), ShlW(AndW(v, MaskW(SCALAR, w)), off))
  }

  lemma NarrowStoreBit(word: Limb, v: Limb, off: nat, w: nat, width: nat, k: nat)
    requires |word| == |v| == SCALAR && off + w <= width <= SCALAR && k < SCALAR
    requires k < width || (!v[k] && !word[k])
    ensures NarrowStore(word, v, off, w, width)[k] == if off <= k < off + w then v[k - off] else word[k]
  {
    assert ShlW(MaskW(SCALAR, w), off)[k] == (off <= k < off + w);
    assert ShlW(AndW(v, MaskW(SCALAR, w)), off)[k] == (off <= k < off + w && v[k - off]);
  }

  /** The store emitted for one target piece. */
  function ScatterPiece(l: nat, x: Wire, off: nat, w: nat, wy: seq<Limb>, pos: nat): (r: Wire)
    requires LimbWidth(l) && WireOk(l, x) && w > 0 && off + w <= x.width
    requires Words(l, wy) && BitField.Fits(l, wy, pos, w)
    ensures r.width == x.width && r.Wide? == x.Wide?
  {
    FitsPrefix(l, wy, pos, w, w);
    match x
    case Wide(width, limbs) =>
      FieldFits(l, limbs, width, off, w);
      x.(limbs := CopyBits(l, limbs, off, wy, pos, w, true))
    case Narrow(width, word) => x.(word := NarrowStore(word, Wslice64(l, wy, pos, w), off, w, width))
  }

  lemma ScatterWideBit(l: nat, x: Wire, off: nat, w: nat, wy: seq<Limb>, pos: nat, k: nat)
    requires LimbWidth(l) && WireOk(l, x) && w > 0 && off + w <= x.width && k < x.width && x.Wide?
    requires Words(l, wy) && BitField.Fits(l, wy, pos, w)
    ensures WireBit(l, ScatterPiece(l, x, off, w, wy, pos), k) ==
      if off <= k < off + w then Bit(l, wy, pos + (k - off)) else WireBit(l, x, k)
  {
    FieldFits(l, x.limbs, x.width, off, w);
    LimbMono(l, k, x.width - 1);
    CopyBitsAt(l, x.limbs, off, wy, pos, w, true, k);
  }

  /** A bit of a narrow wire after a store of `v`, and the bits above its width. */
  lemma NarrowBit(l: nat, x: Wire, x': Wire, v: Limb, off: nat, w: nat, k: nat)
    requires l > 0 && WireOk(l, x) && x.Narrow? && |v| == SCALAR && off + w <= x.width && k < SCALAR
    requires x' == x.(word := NarrowStore(x.word, v, off, w, x.width)) && (k < x.width || !v[k])
    ensures x'.word[k] == if off <= k < off + w then v[k - off] else x.word[k]
  {
    NarrowStoreBit(x.word, v, off, w, x.width, k);
  }

  /** A narrow wire's bit after a store, from the bits of what was stored. */
  lemma NarrowMeans(l: nat, x: Wire, x': Wire, v: Limb, off: nat, w: nat, k: nat, bit: bool)
    requires l > 0 && WireOk(l, x) && x.Narrow? && |v| == SCALAR && off + w <= x.width && k < x.width
    requires x' == x.(word := NarrowStore(x.word, v, off, w, x.width))
    requires off <= k < off + w ==> v[k - off] == bit
    ensures WireBit(l, x', k) == if off <= k < off + w then bit else WireBit(l, x, k)
  {
    NarrowBit(l, x, x', v, off, w, k);
  }

  lemma NarrowValue(l: nat, off: nat, w: nat, wy: seq<Limb>, pos: nat, k: nat) returns (v: Limb)
    requires LimbWidth(l) && w > 0 && off + w <= SCALAR && k < SCALAR
    requires Words(l, wy) && BitField.Fits(l, wy, pos, w)
    ensures LimbOf(l, pos) < |wy| && v == Wslice64(l, wy, pos, w)
    ensures off <= k < off + w ==> v[k - off] == Bit(l, wy, pos + (k - off))
  {
    FitsPrefix(l, wy, pos, w, w);
    v := Wslice64(l, wy, pos, w);
    if off <= k < off + w { Wslice64Bit(l, wy, pos, w, k - off); }
  }

  lemma ScatterNarrowBit(l: nat, x: Wire, off: nat, w: nat, wy: seq<Limb>, pos: nat, k: nat)
    requires LimbWidth(l) && WireOk(l, x) && w > 0 && off + w <= x.width && k < x.width && x.Narrow?
    requires Words(l, wy) && BitField.Fits(l, wy, pos, w)
    ensures WireBit(l, ScatterPiece(l, x, off, w, wy, pos), k) ==
      if off <= k < off + w then Bit(l, wy, pos + (k - off)) else WireBit(l, x, k)
  {
    var v := NarrowValue(l, off, w, wy, pos, k);
    var bit := off <= k < off + w && Bit(l, wy, pos + (k - off));
    NarrowMeans(l, x, ScatterPiece(l, x, off, w, wy, pos), v, off, w, k, bit);
  }

  /** A store changes exactly its slice. */
  lemma ScatterPieceBit(l: nat, x: Wire, off: nat, w: nat, wy: seq<Limb>, pos: nat, k: nat)
    requires LimbWidth(l) && WireOk(l, x) && w > 0 && off + w <= x.width && k < x.width
    requires Words(l, wy) && BitField.Fits(l, wy, pos, w)
    ensures WireBit(l, ScatterPiece(l, x, off, w, wy, pos), k) ==
      if off <= k < off + w then Bit(l, wy, pos + (k - off)) else WireBit(l, x, k)
  {
    if x.Wide? { ScatterWideBit(l, x, off, w, wy, pos, k); } else { ScatterNarrowBit(l, x, off, w, wy, pos, k); }
  }

  lemma ScatterPieceOk(l: nat, x: Wire, off: nat, w: nat, wy: seq<Limb>, pos: nat)
    requires LimbWidth(l) && WireOk(l, x) && w > 0 && off + w <= x.width
    requires Words(l, wy) && BitField.Fits(l, wy, pos, w)
    ensures WireOk(l, ScatterPiece(l, x, off, w, wy, pos))
  {
    FitsPrefix(l, wy, pos, w, w);
    match x {
      case Wide(width, limbs) =>
      case Narrow(width, word) =>
        forall k | width <= k < SCALAR ensures !ScatterPiece(l, x, off, w, wy, pos).word[k] {
          Wslice64Bit(l, wy, pos, w, k);
          NarrowBit(l, x, ScatterPiece(l, x, off, w, wy, pos), Wslice64(l, wy, pos, w), off, w, k);
        }
    }
  }

  /** What a store leaves behind. */
  ghost predicate Stored(l: nat, x: Wire, x': Wire, off: nat, w: nat, wy: seq<Limb>, pos: nat)
    requires l > 0
  {
    && WireOk(l, x') && x'.width == x.width && x'.Wide? == x.Wide?
    && forall k: nat :: k < x.width ==>
      WireBit(l, x', k) == if off <= k < off + w then Bit(l, wy, pos + (k - off)) else WireBit(l, x, k)
  }

  lemma ScatterStores(l: nat, x: Wire, off: nat, w: nat, wy: seq<Limb>, pos: nat)
    requires LimbWidth(l) && WireOk(l, x) && w > 0 && off + w <= x.width
    requires Words(l, wy) && BitField.Fits(l, wy, pos, w)
    ensures Stored(l, x, ScatterPiece(l, x, off, w, wy, pos), off, w, wy, pos)
  {
    ScatterPieceOk(l, x, off, w, wy, pos);
    forall k: nat | k < x.width
      ensures WireBit(l, ScatterPiece(l, x, off, w, wy, pos), k) ==
        if off <= k < off + w then Bit(l, wy, pos + (k - off)) else WireBit(l, x, k)
    {
      ScatterPieceBit(l, x, off, w, wy, pos, k);
    }
  }

  /** `put_val`: scatters a limb value over the first `n` target pieces; constants take their bits and store nothing. */
  function ScatterTo(l: nat, st: seq<Wire>, y: seq<Piece>, wy: seq<Limb>, n: nat): (st': seq<Wire>)
    requires LimbWidth(l) && StoreOk(l, st) && SigOk(st, y) && n <= |y|
    requires Words(l, wy) && Nlimbs(l, SigLen(y, |y|)) <= |wy|
    ensures SameShape(st, st') && StoreOk(l, st')
    decreases n
  {
    if n == 0 then st
    else
      var t := ScatterTo(l, st, y, wy, n - 1);
      ScatterNext(l, st, t, y, wy, n - 1);
      match y[n - 1]
      case Const(_) => t
      case Slice(wire, off, w) => t[wire := ScatterPiece(l, t[wire], off, w, wy, SigLen(y, n - 1))]
  }

  ghost predicate SameShape(st: seq<Wire>, st': seq<Wire>) {
    |st| == |st'| && forall i :: 0 <= i < |st| ==> st'[i].width == st[i].width && st'[i].Wide? == st[i].Wide?
  }

  lemma ScatterNext(l: nat, st: seq<Wire>, t: seq<Wire>, y: seq<Piece>, wy: seq<Limb>, i: nat)
    requires LimbWidth(l) && SameShape(st, t) && StoreOk(l, t) && SigOk(st, y) && i < |y|
    requires Words(l, wy) && Nlimbs(l, SigLen(y, |y|)) <= |wy|
    ensures BitField.Fits(l, wy, SigLen(y, i), PieceWidth(y[i])) && PieceOk(t, y[i])
    ensures y[i].Slice? ==> WireOk(l, ScatterPiece(l, t[y[i].wire], y[i].off, y[i].w, wy, SigLen(y, i)))
  {
    PieceFits(l, y, i, wy);
    assert PieceOk(st, y[i]);
    if y[i].Slice? { ScatterPieceOk(l, t[y[i].wire], y[i].off, y[i].w, wy, SigLen(y, i)); }
  }

  predicate Covers(c: Piece, wire: nat, k: nat) {
    c.Slice? && c.wire == wire && c.off <= k < c.off + c.w
  }

  /** No two target pieces share a bit. */
  ghost predicate Disjoint(y: seq<Piece>) {
    forall i, j, wire: nat, k: nat :: 0 <= i < j < |y| ==> !(Covers(y[i], wire, k) && Covers(y[j], wire, k))
  }

  /** What storing one target piece does to a wire. */
  ghost predicate Lands(l: nat, x: Wire, x': Wire, c: Piece, wire: nat, wy: seq<Limb>, pos: nat)
    requires l > 0
  {
    if c.Slice? && c.wire == wire then Stored(l, x, x', c.off, c.w, wy, pos) else x' == x
  }

  /** One target piece, as seen at a wire. */
  lemma ScatterWire(l: nat, st: seq<Wire>, y: seq<Piece>, wy: seq<Limb>, n: nat, wire: nat)
    requires LimbWidth(l) && StoreOk(l, st) && SigOk(st, y) && 0 < n <= |y| && wire < |st|
    requires Words(l, wy) && Nlimbs(l, SigLen(y, |y|)) <= |wy|
    ensures var x, x', c := ScatterTo(l, st, y, wy, n - 1)[wire], ScatterTo(l, st, y, wy, n)[wire], y[n - 1];
      x.width == st[wire].width && Lands(l, x, x', c, wire, wy, SigLen(y, n - 1))
  {
    var t, c := ScatterTo(l, st, y, wy, n - 1), y[n - 1];
    ScatterNext(l, st, t, y, wy, n - 1);
    if c.Slice? && c.wire == wire { ScatterStores(l, t[wire], c.off, c.w, wy, SigLen(y, n - 1)); }
  }

  lemma StoredBit(l: nat, x: Wire, x': Wire, c: Piece, wire: nat, wy: seq<Limb>, pos: nat, k: nat)
    requires l > 0 && k < x.width && Lands(l, x, x', c, wire, wy, pos)
    ensures WireBit(l, x', k) == if Covers(c, wire, k) then Bit(l, wy, pos + (k - c.off)) else WireBit(l, x, k)
  {
  }

  /** One target piece, as seen at bit `k` of `wire`. */
  lemma ScatterTurn(l: nat, st: seq<Wire>, y: seq<Piece>, wy: seq<Limb>, n: nat, wire: nat, k: nat)
    requires LimbWidth(l) && StoreOk(l, st) && SigOk(st, y) && 0 < n <= |y|
    requires Words(l, wy) && Nlimbs(l, SigLen(y, |y|)) <= |wy| && wire < |st| && k < st[wire].width
    ensures WireBit(l, ScatterTo(l, st, y, wy, n)[wire], k) ==
      if Covers(y[n - 1], wire, k) then Bit(l, wy, SigLen(y, n - 1) + (k - y[n - 1].off))
      else WireBit(l, ScatterTo(l, st, y, wy, n - 1)[wire], k)
  {
    var x, x', c := ScatterTo(l, st, y, wy, n - 1)[wire], ScatterTo(l, st, y, wy, n)[wire], y[n - 1];
    ScatterWire(l, st, y, wy, n, wire);
    StoredBit(l, x, x', c, wire, wy, SigLen(y, n - 1), k);
  }

  /** Bit `k` of `wire` after the first `n` pieces: the last piece that covers it decides. */
  predicate BitAfter(l: nat, st: seq<Wire>, y: seq<Piece>, wy: seq<Limb>, n: nat, wire: nat, k: nat)
    requires l > 0 && n <= |y| && wire < |st|
    decreases n
  {
    if n == 0 then WireBit(l, st[wire], k)
    else if Covers(y[n - 1], wire, k) then Bit(l, wy, SigLen(y, n - 1) + (k - y[n - 1].off))
    else BitAfter(l, st, y, wy, n - 1, wire, k)
  }

  ghost predicate ScatteredAt(l: nat, st: seq<Wire>, y: seq<Piece>, wy: seq<Limb>, n: nat, wire: nat, k: nat)
    requires LimbWidth(l) && StoreOk(l, st) && SigOk(st, y) && n <= |y|
    requires Words(l, wy) && Nlimbs(l, SigLen(y, |y|)) <= |wy| && wire < |st| && k < st[wire].width
  {
    WireBit(l, ScatterTo(l, st, y, wy, n)[wire], k) == BitAfter(l, st, y, wy, n, wire, k)
  }

  lemma AfterTurn(l: nat, st: seq<Wire>, y: seq<Piece>, wy: seq<Limb>, n: nat, wire: nat, k: nat, was: bool, now: bool)
    requires l > 0 && 0 < n <= |y| && wire < |st| && was == BitAfter(l, st, y, wy, n - 1, wire, k)
    requires now == if Covers(y[n - 1], wire, k) then Bit(l, wy, SigLen(y, n - 1) + (k - y[n - 1].off)) else was
    ensures now == BitAfter(l, st, y, wy, n, wire, k)
  {
  }

  lemma {:induction false} ScatterBit(l: nat, st: seq<Wire>, y: seq<Piece>, wy: seq<Limb>, n: nat, wire: nat, k: nat)
    requires LimbWidth(l) && StoreOk(l, st) && SigOk(st, y) && n <= |y|
    requires Words(l, wy) && Nlimbs(l, SigLen(y, |y|)) <= |wy| && wire < |st| && k < st[wire].width
    ensures ScatteredAt(l, st, y, wy, n, wire, k)
    decreases n
  {
    if n == 0 {
    } else {
      ScatterBit(l, st, y, wy, n - 1, wire, k);
      ScatterTurn(l, st, y, wy, n, wire, k);
      var t, t' := ScatterTo(l, st, y, wy, n - 1), ScatterTo(l, st, y, wy, n);
      AfterTurn(l, st, y, wy, n, wire, k, WireBit(l, t[wire], k), WireBit(l, t'[wire], k));
    }
  }

  /** Bits outside the target keep their value. */
  lemma {:induction false} AfterFrame(l: nat, st: seq<Wire>, y: seq<Piece>, wy: seq<Limb>, n: nat, wire: nat, k: nat)
    requires l > 0 && n <= |y| && wire < |st|
    requires forall i :: 0 <= i < n ==> !Covers(y[i], wire, k)
    ensures BitAfter(l, st, y, wy, n, wire, k) == WireBit(l, st[wire], k)
    decreases n
  {
    if n == 0 {
    } else {
      AfterFrame(l, st, y, wy, n - 1, wire, k);
    }
  }

  /** A target bit receives its bit of the value. */
  lemma {:induction false} AfterHits(l: nat, st: seq<Wire>, y: seq<Piece>, wy: seq<Limb>, n: nat, i: nat, wire: nat, k: nat)
    requires l > 0 && i < n <= |y| && wire < |st| && Disjoint(y) && Covers(y[i], wire, k)
    ensures BitAfter(l, st, y, wy, n, wire, k) == Bit(l, wy, SigLen(y, i) + (k - y[i].off))
    decreases n
  {
    if i < n - 1 { AfterHits(l, st, y, wy, n - 1, i, wire, k); }
  }

  lemma ShapeOk(st: seq<Wire>, st': seq<Wire>, y: seq<Piece>)
    requires SameShape(st, st') && SigOk(st, y)
    ensures SigOk(st', y)
  {
    forall i | 0 <= i < |y| ensures PieceOk(st', y[i]) { assert PieceOk(st, y[i]); }
  }

  ghost predicate AllSlices(y: seq<Piece>) {
    forall i :: 0 <= i < |y| ==> y[i].Slice?
  }

  /** Target piece `i` holds its window of the value. */
  ghost predicate Landed(l: nat, st: seq<Wire>, y: seq<Piece>, b: seq<bool>, i: nat)
    requires l > 0 && SigOk(st, y) && i < |y|
  {
    PieceBits(l, st, y[i]) == Window(b, SigLen(y, i), PieceWidth(y[i]))
  }

  lemma LandedBits(l: nat, st: seq<Wire>, y: seq<Piece>, b: seq<bool>, i: nat)
    requires l > 0 && SigOk(st, y) && i < |y| && y[i].Slice? && PieceOk(st, y[i])
    requires forall j :: 0 <= j < y[i].w ==>
      WireBit(l, st[y[i].wire], y[i].off + j) == Window(b, SigLen(y, i), y[i].w)[j]
    ensures Landed(l, st, y, b, i)
  {
    var p, e := PieceBits(l, st, y[i]), Window(b, SigLen(y, i), y[i].w);
    assert forall j :: 0 <= j < y[i].w ==> p[j] == e[j];
  }

  /** `st'` is the store after the whole scatter, bit by bit. */
  ghost predicate Scattered(l: nat, st: seq<Wire>, st': seq<Wire>, y: seq<Piece>, wy: seq<Limb>)
    requires l > 0
  {
    && SameShape(st, st')
    && forall wire: nat, k: nat :: wire < |st| && k < st[wire].width ==>
      WireBit(l, st'[wire], k) == BitAfter(l, st, y, wy, |y|, wire, k)
  }

  lemma ScatterAll(l: nat, st: seq<Wire>, y: seq<Piece>, wy: seq<Limb>)
    requires LimbWidth(l) && StoreOk(l, st) && SigOk(st, y)
    requires Words(l, wy) && Nlimbs(l, SigLen(y, |y|)) <= |wy|
    ensures Scattered(l, st, ScatterTo(l, st, y, wy, |y|), y, wy)
  {
    var st' := ScatterTo(l, st, y, wy, |y|);
    forall wire: nat, k: nat | wire < |st| && k < st[wire].width
      ensures WireBit(l, st'[wire], k) == BitAfter(l, st, y, wy, |y|, wire, k)
    {
      ScatterBit(l, st, y, wy, |y|, wire, k);
    }
  }

  lemma HitBit(l: nat, st: seq<Wire>, st': seq<Wire>, y: seq<Piece>, wy: seq<Limb>, i: nat, j: nat)
    requires l > 0 && SigOk(st, y) && Disjoint(y) && i < |y| && y[i].Slice? && j < y[i].w
    requires Words(l, wy) && Scattered(l, st, st', y, wy) && PieceOk(st', y[i])
    ensures WireBit(l, st'[y[i].wire], y[i].off + j) == Window(Flat(wy), SigLen(y, i), y[i].w)[j]
  {
    var c := y[i];
    AfterHits(l, st, y, wy, |y|, i, c.wire, c.off + j);
    WindowBit(l, wy, SigLen(y, i), c.w, j);
  }

  lemma WindowBit(l: nat, a: seq<Limb>, off: nat, w: nat, j: nat)
    requires l > 0 && Words(l, a) && j < w
    ensures Window(Flat(a), off, w)[j] == Bit(l, a, off + j)
  {
    FlatAt(l, a, off + j);
  }

  lemma PieceLands(l: nat, st: seq<Wire>, st': seq<Wire>, y: seq<Piece>, wy: seq<Limb>, i: nat)
    requires l > 0 && SigOk(st, y) && SigOk(st', y) && Disjoint(y) && i < |y| && y[i].Slice?
    requires Words(l, wy) && Scattered(l, st, st', y, wy)
    ensures Landed(l, st', y, Flat(wy), i)
  {
    var c := y[i];
    var e := Window(Flat(wy), SigLen(y, i), c.w);
    assert PieceOk(st', c);
    forall j | 0 <= j < c.w ensures WireBit(l, st'[c.wire], c.off + j) == e[j] {
      HitBit(l, st, st', y, wy, i, j);
    }
    LandedBits(l, st', y, Flat(wy), i);
  }

  lemma WindowAppend(b: seq<bool>, p: nat, w: nat)
    ensures Window(b, 0, p + w) == Window(b, 0, p) + Window(b, p, w)
  {
  }

  lemma {:induction false} GatherWindows(l: nat, st: seq<Wire>, y: seq<Piece>, b: seq<bool>, n: nat)
    requires l > 0 && SigOk(st, y) && n <= |y|
    requires forall i: nat :: i < |y| ==> Landed(l, st, y, b, i)
    ensures SigBits(l, st, y, n) == Window(b, 0, SigLen(y, n))
    decreases n
  {
    if n == 0 {
    } else {
      GatherWindows(l, st, y, b, n - 1);
      assert Landed(l, st, y, b, n - 1);
      WindowAppend(b, SigLen(y, n - 1), PieceWidth(y[n - 1]));
    }
  }

  /** Gathering a scattered value returns it. */
  lemma GatherScattered(l: nat, st: seq<Wire>, st': seq<Wire>, y: seq<Piece>, wy: seq<Limb>)
    requires l > 0 && SigOk(st, y) && Disjoint(y) && AllSlices(y) && Words(l, wy) && Scattered(l, st, st', y, wy)
    ensures SigOk(st', y) && SigBits(l, st', y, |y|) == Window(Flat(wy), 0, SigLen(y, |y|))
  {
    ShapeOk(st, st', y);
    forall i: nat | i < |y| ensures Landed(l, st', y, Flat(wy), i) {
      PieceLands(l, st, st', y, wy, i);
    }
    GatherWindows(l, st', y, Flat(wy), |y|);
  }

  /** Scattering leaves every bit outside the target alone. */
  lemma ScatterFrame(l: nat, st: seq<Wire>, st': seq<Wire>, y: seq<Piece>, wy: seq<Limb>, wire: nat, k: nat)
    requires l > 0 && Scattered(l, st, st', y, wy) && wire < |st| && k < st[wire].width
    requires forall i :: 0 <= i < |y| ==> !Covers(y[i], wire, k)
    ensures WireBit(l, st'[wire], k) == WireBit(l, st[wire], k)
  {
    AfterFrame(l, st, y, wy, |y|, wire, k);
  }

  /** The emitted `put_val`: the stores run in place, piece by piece. */
  method PutVal(l: nat, st: array<Wire>, y: seq<Piece>, wy: array<Limb>)
    requires LimbWidth(l) && StoreOk(l, st[..]) && SigOk(st[..], y)
    requires Words(l, wy[..]) && Nlimbs(l, SigLen(y, |y|)) <= wy.Length
    modifies st
    ensures StoreOk(l, st[..]) && Scattered(l, old(st[..]), st[..], y, wy[..])
  {
    ghost var st0 := st[..];
    var pos := 0;
    for i := 0 to |y|
      invariant pos == SigLen(y, i) && st[..] == ScatterTo(l, st0, y, wy[..], i)
    {
      ScatterNext(l, st0, st[..], y, wy[..], i);
      ghost var was := st[..];
      match y[i] {
        case Const(_) =>
        case Slice(wire, off, w) =>
          st[wire] := ScatterPiece(l, st[wire], off, w, wy[..], pos);
          assert st[..] == was[wire := ScatterPiece(l, was[wire], off, w, wy[..], pos)];
      }
      pos := pos + PieceWidth(y[i]);
    }
    ScatterAll(l, st0, y, wy[..]);
  }
}
