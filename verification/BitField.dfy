/** Bit-field copies. */
module BitField {
  // Bit-field copies between wide integers at any offset, one word-sized chunk per turn, and
  // the single-word statement the emitter folds them to.  `l` is the limb width (32 or 64).

  import opened Bits
  import opened Limbs

  function Max(a: nat, b: nat): nat { if a > b then a else b }

  function Min(a: nat, b: nat): nat { if a < b then a else b }

  /** The bits that can be moved without leaving the current source and destination limbs. */
  function Chunk(l: nat, doff: nat, soff: nat, w: nat): (n: nat)
    requires l > 0
    ensures n <= w && (w > 0 ==> n > 0)
    ensures BitOf(l, doff) + n <= l && BitOf(l, soff) + n <= l
  {
    Min(l - Max(BitOf(l, doff), BitOf(l, soff)), w)
  }

  /** Every limb of the field `[off, off + w)` exists. */
  predicate Fits(l: nat, a: seq<Limb>, off: nat, w: nat)
    requires l > 0
  {
    w > 0 ==> LimbOf(l, off + w - 1) < |a|
  }

  lemma FitsPrefix(l: nat, a: seq<Limb>, off: nat, n: nat, w: nat)
    requires l > 0 && Fits(l, a, off, w) && n <= w
    ensures Fits(l, a, off, n) && Fits(l, a, off + n, w - n)
    ensures w > 0 ==> LimbOf(l, off) < |a|
  {
    if w > 0 {
      LimbMono(l, off, off + w - 1);
      if n > 0 { LimbMono(l, off + n - 1, off + w - 1); }
    }
  }

  // ---------------------------------------------------------------- one word

  /** `n` bits of `src` from bit `sb`, moved up to bit `db`. */
  function Field(l: nat, src: Limb, sb: nat, db: nat, n: nat): (r: Limb)
    requires |src| == l
    ensures |r| == l
    ensures forall j :: 0 <= j < l ==> r[j] == (db <= j < db + n && sb + (j - db) < l && src[sb + (j - db)])
  {
    ShlW(AndW(ShrW(src, sb), MaskW(l, n)), db)
  }

  /** `d |= field`, or `d = (d & ~(m << db)) | field` when `put`. */
  function Blend(l: nat, d: Limb, src: Limb, sb: nat, db: nat, n: nat, put: bool): (r: Limb)
    requires |d| == |src| == l
    ensures |r| == l
  {
    if put then OrW(AndW(d, NotW(ShlW(MaskW(l, n), db))), Field(l, src, sb, db, n))
    else OrW(d, Field(l, src, sb, db, n))
  }

  lemma BlendBit(l: nat, d: Limb, src: Limb, sb: nat, db: nat, n: nat, put: bool, j: nat)
    requires |d| == |src| == l && sb + n <= l && db + n <= l && j < l
    ensures Blend(l, d, src, sb, db, n, put)[j] ==
      if db <= j < db + n then src[sb + (j - db)] || (!put && d[j]) else d[j]
  {
  }

  /** One turn: `n` bits of the word `x` from bit `sb` into `d` at `doff`. */
  function Step(l: nat, d: seq<Limb>, doff: nat, x: Limb, sb: nat, n: nat, put: bool): (r: seq<Limb>)
    requires l > 0 && Words(l, d) && |x| == l && LimbOf(l, doff) < |d|
    ensures |r| == |d| && Words(l, r)
  {
    var q := LimbOf(l, doff);
    d[q := Blend(l, d[q], x, sb, BitOf(l, doff), n, put)]
  }

  lemma StepBit(l: nat, d: seq<Limb>, doff: nat, x: Limb, sb: nat, n: nat, put: bool, k: nat)
    requires l > 0 && Words(l, d) && |x| == l && LimbOf(l, doff) < |d|
    requires BitOf(l, doff) + n <= l && sb + n <= l && LimbOf(l, k) < |d|
    ensures Bit(l, Step(l, d, doff, x, sb, n, put), k) ==
      if doff <= k < doff + n then x[sb + (k - doff)] || (!put && Bit(l, d, k)) else Bit(l, d, k)
  {
    InField(l, doff, n, k);
    if LimbOf(l, k) == LimbOf(l, doff) {
      BlendBit(l, d[LimbOf(l, doff)], x, sb, BitOf(l, doff), n, put, BitOf(l, k));
    }
  }

  /** Bit `k` is in the field exactly when it is in the field's limb at the field's places. */
  lemma InField(l: nat, off: nat, n: nat, k: nat)
    requires l > 0 && BitOf(l, off) + n <= l
    ensures off <= k < off + n <==>
      LimbOf(l, k) == LimbOf(l, off) && BitOf(l, off) <= BitOf(l, k) < BitOf(l, off) + n
    ensures off <= k < off + n ==> BitOf(l, k) == BitOf(l, off) + (k - off)
  {
    if off <= k < off + n {
      SameLimb(l, off, k - off);
    } else if LimbOf(l, k) == LimbOf(l, off) && BitOf(l, off) <= BitOf(l, k) < BitOf(l, off) + n {
      NotOutside(l, off, n, k);
    }
  }

  lemma NotOutside(l: nat, off: nat, n: nat, k: nat)
    requires l > 0 && BitOf(l, off) + n <= l && LimbOf(l, k) == LimbOf(l, off)
    requires BitOf(l, off) <= BitOf(l, k) < BitOf(l, off) + n
    ensures off <= k < off + n
  {
    var j := BitOf(l, k) - BitOf(l, off);
    SameLimb(l, off, j);
    SamePlace(l, off + j, k);
  }

  // ---------------------------------------------------------------- limb sources

  /** `worbits` (or `wplacew`, when `put`): copies `w` bits of `s` from `soff` to `d` at `doff`. */
  function CopyBits(l: nat, d: seq<Limb>, doff: nat, s: seq<Limb>, soff: nat, w: nat, put: bool): (r: seq<Limb>)
    requires l > 0 && Words(l, d) && Words(l, s) && Fits(l, d, doff, w) && Fits(l, s, soff, w)
    ensures |r| == |d| && Words(l, r)
    decreases w
  {
    if w == 0 then d
    else
      var n := Chunk(l, doff, soff, w);
      FitsPrefix(l, d, doff, n, w);
      FitsPrefix(l, s, soff, n, w);
      CopyBits(l, Step(l, d, doff, s[LimbOf(l, soff)], BitOf(l, soff), n, put), doff + n, s, soff + n, w - n, put)
  }

  /** Bit `k` after the field is copied: from the source inside the field (keeping set bits unless `put`),
      as it was outside. */
  ghost predicate CopiedAt(l: nat, d: seq<Limb>, r: seq<Limb>, doff: nat, s: seq<Limb>, soff: nat, w: nat, put: bool, k: nat)
    requires l > 0
  {
    Bit(l, r, k) == if doff <= k < doff + w then Bit(l, s, soff + (k - doff)) || (!put && Bit(l, d, k)) else Bit(l, d, k)
  }

  /** Two neighbouring fields are one. */
  lemma CopiedTwice(l: nat, d: seq<Limb>, d': seq<Limb>, r: seq<Limb>, doff: nat, s: seq<Limb>, soff: nat,
                    n: nat, w: nat, put: bool, k: nat)
    requires l > 0 && n <= w && CopiedAt(l, d, d', doff, s, soff, n, put, k)
    requires CopiedAt(l, d', r, doff + n, s, soff + n, w - n, put, k)
    ensures CopiedAt(l, d, r, doff, s, soff, w, put, k)
  {
  }

  /** One turn of the loop, as seen at bit `k`. */
  lemma CopyTurn(l: nat, d: seq<Limb>, doff: nat, s: seq<Limb>, soff: nat, w: nat, put: bool, k: nat)
    returns (n: nat, d': seq<Limb>)
    requires l > 0 && Words(l, d) && Words(l, s) && Fits(l, d, doff, w) && Fits(l, s, soff, w)
    requires LimbOf(l, k) < |d| && w > 0
    ensures 0 < n <= w && |d'| == |d| && Words(l, d') && Fits(l, d', doff + n, w - n) && Fits(l, s, soff + n, w - n)
    ensures CopyBits(l, d, doff, s, soff, w, put) == CopyBits(l, d', doff + n, s, soff + n, w - n, put)
    ensures CopiedAt(l, d, d', doff, s, soff, n, put, k)
  {
    n := Chunk(l, doff, soff, w);
    FitsPrefix(l, d, doff, n, w);
    FitsPrefix(l, s, soff, n, w);
    d' := Step(l, d, doff, s[LimbOf(l, soff)], BitOf(l, soff), n, put);
    StepBit(l, d, doff, s[LimbOf(l, soff)], BitOf(l, soff), n, put, k);
    if doff <= k < doff + n { SameLimb(l, soff, k - doff); }
  }

  lemma {:induction false} CopyCopies(l: nat, d: seq<Limb>, doff: nat, s: seq<Limb>, soff: nat, w: nat, put: bool, k: nat)
    requires l > 0 && Words(l, d) && Words(l, s) && Fits(l, d, doff, w) && Fits(l, s, soff, w)
    requires LimbOf(l, k) < |d|
    ensures CopiedAt(l, d, CopyBits(l, d, doff, s, soff, w, put), doff, s, soff, w, put, k)
    decreases w
  {
    if w == 0 {
    } else {
      var n, d' := CopyTurn(l, d, doff, s, soff, w, put, k);
      CopyCopies(l, d', doff + n, s, soff + n, w - n, put, k);
      CopiedTwice(l, d, d', CopyBits(l, d, doff, s, soff, w, put), doff, s, soff, n, w, put, k);
    }
  }

  /** The copy sets the field's bits from the source (keeping set ones unless `put`) and changes no other bit. */
  lemma CopyBitsAt(l: nat, d: seq<Limb>, doff: nat, s: seq<Limb>, soff: nat, w: nat, put: bool, k: nat)
    requires l > 0 && Words(l, d) && Words(l, s) && Fits(l, d, doff, w) && Fits(l, s, soff, w)
    requires LimbOf(l, k) < |d|
    ensures Bit(l, CopyBits(l, d, doff, s, soff, w, put), k) ==
      if doff <= k < doff + w then Bit(l, s, soff + (k - doff)) || (!put && Bit(l, d, k)) else Bit(l, d, k)
  {
    CopyCopies(l, d, doff, s, soff, w, put, k);
  }

  // ---------------------------------------------------------------- scalar sources

  const SCALAR := 64

  /** The low limb of a 64-bit scalar, as the cast to the limb type takes it. */
  function LowLimb(l: nat, x: Limb): (r: Limb)
    requires l <= SCALAR == |x|
    ensures |r| == l
  {
    x[..l]
  }

  /** Bits of a scalar past its width read as 0. */
  predicate ScalarBit(x: Limb, j: nat) { j < |x| && x[j] }

  /** `worbits_s` (or `wplacew_s`, when `put`): the scalar is shifted down as it is consumed. */
  function ScalarBits(l: nat, d: seq<Limb>, doff: nat, x: Limb, w: nat, put: bool): (r: seq<Limb>)
    requires 0 < l <= SCALAR == |x| && Words(l, d) && Fits(l, d, doff, w)
    ensures |r| == |d| && Words(l, r)
    decreases w
  {
    if w == 0 then d
    else
      var n := Min(l - BitOf(l, doff), w);
      FitsPrefix(l, d, doff, n, w);
      ScalarBits(l, Step(l, d, doff, LowLimb(l, x), 0, n, put), doff + n, ShrW(x, n), w - n, put)
  }

  lemma ShiftedScalar(x: Limb, n: nat, j: nat)
    ensures ScalarBit(ShrW(x, n), j) == ScalarBit(x, j + n)
  {
  }

  lemma ScalarTurn(l: nat, d: seq<Limb>, doff: nat, x: Limb, w: nat, put: bool, k: nat)
    returns (n: nat, d': seq<Limb>, x': Limb)
    requires 0 < l <= SCALAR == |x| && Words(l, d) && Fits(l, d, doff, w) && LimbOf(l, k) < |d| && w > 0
    ensures 0 < n <= w && |d'| == |d| && Words(l, d') && Fits(l, d', doff + n, w - n) && |x'| == SCALAR
    ensures ScalarBits(l, d, doff, x, w, put) == ScalarBits(l, d', doff + n, x', w - n, put)
    ensures Bit(l, d', k) ==
      if doff <= k < doff + n then ScalarBit(x, k - doff) || (!put && Bit(l, d, k)) else Bit(l, d, k)
    ensures doff + n <= k ==> ScalarBit(x', k - (doff + n)) == ScalarBit(x, k - doff)
  {
    n := Min(l - BitOf(l, doff), w);
    FitsPrefix(l, d, doff, n, w);
    d', x' := Step(l, d, doff, LowLimb(l, x), 0, n, put), ShrW(x, n);
    StepBit(l, d, doff, LowLimb(l, x), 0, n, put, k);
    if doff + n <= k { ShiftedScalar(x, n, k - (doff + n)); }
  }

  /** The scalar forms copy the scalar's bits to the field and change no other bit. */
  lemma {:induction false} ScalarBitsAt(l: nat, d: seq<Limb>, doff: nat, x: Limb, w: nat, put: bool, k: nat)
    requires 0 < l <= SCALAR == |x| && Words(l, d) && Fits(l, d, doff, w) && LimbOf(l, k) < |d|
    ensures Bit(l, ScalarBits(l, d, doff, x, w, put), k) ==
      if doff <= k < doff + w then ScalarBit(x, k - doff) || (!put && Bit(l, d, k)) else Bit(l, d, k)
    decreases w
  {
    if w == 0 {
    } else {
      var n, d', x' := ScalarTurn(l, d, doff, x, w, put, k);
      ScalarBitsAt(l, d', doff + n, x', w - n, put, k);
    }
  }

  // ---------------------------------------------------------------- the folded statement

  /** `d[doff>>5] |= ((s[soff>>5] >> sb) & mask) << db` with a mask of `w` bits. */
  function Folded(l: nat, d: seq<Limb>, doff: nat, s: seq<Limb>, soff: nat, w: nat): (r: seq<Limb>)
    requires l > 0 && Words(l, d) && Words(l, s) && LimbOf(l, doff) < |d| && LimbOf(l, soff) < |s|
  {
    var q := LimbOf(l, doff);
    d[q := OrW(d[q], ShlW(AndW(ShrW(s[LimbOf(l, soff)], BitOf(l, soff)), MaskW(l, w)), BitOf(l, doff)))]
  }

  predicate OneWord(l: nat, doff: nat, soff: nat, w: nat)
    requires l > 0
  {
    BitOf(l, doff) + w <= l && BitOf(l, soff) + w <= l
  }

  /** Both limbs the folded statement names exist. */
  ghost predicate Room(l: nat, d: seq<Limb>, doff: nat, s: seq<Limb>, soff: nat, w: nat)
    requires l > 0
  {
    && Words(l, d) && Words(l, s) && Fits(l, d, doff, w) && Fits(l, s, soff, w)
    && LimbOf(l, doff) < |d| && LimbOf(l, soff) < |s|
  }

  ghost predicate FoldEqual(l: nat, doff: nat, soff: nat, w: nat)
    requires l > 0
  {
    forall d: seq<Limb>, s: seq<Limb> :: Room(l, d, doff, s, soff, w) ==>
      Folded(l, d, doff, s, soff, w) == CopyBits(l, d, doff, s, soff, w, false)
  }

  /** The folded statement is the loop when both fields stay in one word. */
  lemma FoldOneWord(l: nat, d: seq<Limb>, doff: nat, s: seq<Limb>, soff: nat, w: nat)
    requires l > 0 && w > 0 && OneWord(l, doff, soff, w) && Room(l, d, doff, s, soff, w)
    ensures Folded(l, d, doff, s, soff, w) == CopyBits(l, d, doff, s, soff, w, false)
  {
    assert Chunk(l, doff, soff, w) == w;
    var d' := Folded(l, d, doff, s, soff, w);
    assert d' == Step(l, d, doff, s[LimbOf(l, soff)], BitOf(l, soff), w, false);
    FitsPrefix(l, d, doff, w, w);
    FitsPrefix(l, s, soff, w, w);
  }

  function Uniform(l: nat, n: nat, v: bool): (a: seq<Limb>)
    ensures Words(l, a) && |a| == n
  {
    seq(n, _ => seq(l, _ => v))
  }

  /** From an all-ones source into a zero destination the folded form sets nothing past either word. */
  lemma FoldedStopsShort(l: nat, d: seq<Limb>, doff: nat, s: seq<Limb>, soff: nat, w: nat)
    requires l > 0 && w > 0 && !OneWord(l, doff, soff, w) && Room(l, d, doff, s, soff, w)
    requires forall i :: 0 <= i < |d| ==> d[i] == seq(l, _ => false)
    ensures !Bit(l, Folded(l, d, doff, s, soff, w), doff + w - 1)
  {
    var k := doff + w - 1;
    LimbBit(l, k);
    LimbBit(l, doff);
    if LimbOf(l, k) == LimbOf(l, doff) {
      assert BitOf(l, k) == BitOf(l, doff) + (w - 1);
    }
  }

  /** A field that crosses a limb: the last bit it should set is missed by the folded form. */
  lemma FoldNeedsGuard(l: nat, doff: nat, soff: nat, w: nat)
    requires l > 0 && w > 0 && !OneWord(l, doff, soff, w)
    ensures !FoldEqual(l, doff, soff, w)
  {
    var k, j := doff + w - 1, soff + w - 1;
    var d, s := Uniform(l, LimbOf(l, k) + 1, false), Uniform(l, LimbOf(l, j) + 1, true);
    FitsPrefix(l, d, doff, w, w);
    FitsPrefix(l, s, soff, w, w);
    CopyBitsAt(l, d, doff, s, soff, w, false, k);
    assert s[LimbOf(l, j)] == seq(l, _ => true);
    assert Bit(l, s, j);
    FoldedStopsShort(l, d, doff, s, soff, w);
    assert Room(l, d, doff, s, soff, w);
  }

  /** The folded statement equals the loop on all data exactly when both fields stay in one word. */
  lemma PeepholeExact(l: nat, doff: nat, soff: nat, w: nat)
    requires l > 0 && w > 0
    ensures FoldEqual(l, doff, soff, w) <==> OneWord(l, doff, soff, w)
  {
    if OneWord(l, doff, soff, w) {
      forall d: seq<Limb>, s: seq<Limb> | Room(l, d, doff, s, soff, w)
        ensures Folded(l, d, doff, s, soff, w) == CopyBits(l, d, doff, s, soff, w, false)
      {
        FoldOneWord(l, d, doff, s, soff, w);
      }
    } else {
      FoldNeedsGuard(l, doff, soff, w);
    }
  }

  // ---------------------------------------------------------------- the emitted helpers

  /** `d[q] = …`, one turn in place. */
  method StepInPlace(l: nat, d: array<Limb>, doff: nat, x: Limb, sb: nat, n: nat, put: bool)
    requires l > 0 && Words(l, d[..]) && |x| == l && LimbOf(l, doff) < d.Length
    modifies d
    ensures d[..] == Step(l, old(d[..]), doff, x, sb, n, put)
  {
    var q, db := LimbOf(l, doff), BitOf(l, doff);
    assert d[..][q] == d[q];
    var field := ShlW(AndW(ShrW(x, sb), MaskW(l, n)), db);
    if put {
      d[q] := OrW(AndW(d[q], NotW(ShlW(MaskW(l, n), db))), field);
    } else {
      d[q] := OrW(d[q], field);
    }
  }

  /** `worbits` (`put` false) and `wplacew` (`put` true; `wplace` is the case `soff0 == 0`).
      The source is only read and never overlaps the destination. */
  method WcopyBits(l: nat, d: array<Limb>, doff0: nat, s: seq<Limb>, soff0: nat, w0: nat, put: bool)
    requires l > 0 && Words(l, d[..]) && Words(l, s)
    requires Fits(l, d[..], doff0, w0) && Fits(l, s, soff0, w0)
    modifies d
    ensures d[..] == CopyBits(l, old(d[..]), doff0, s, soff0, w0, put)
  {
    ghost var goal := CopyBits(l, d[..], doff0, s, soff0, w0, put);
    var doff, soff, w := doff0, soff0, w0;
    while w > 0
      invariant Words(l, d[..]) && Fits(l, d[..], doff, w) && Fits(l, s, soff, w)
      invariant CopyBits(l, d[..], doff, s, soff, w, put) == goal
      decreases w
    {
      var n := Chunk(l, doff, soff, w);
      FitsPrefix(l, d[..], doff, n, w);
      FitsPrefix(l, s, soff, n, w);
      StepInPlace(l, d, doff, s[LimbOf(l, soff)], BitOf(l, soff), n, put);
      doff, soff, w := doff + n, soff + n, w - n;
    }
  }

  /** `worbits_s` (`put` false) and `wplacew_s` (`put` true). */
  method WscalarBits(l: nat, d: array<Limb>, doff0: nat, x0: Limb, soff: nat, w0: nat, put: bool)
    requires 0 < l <= SCALAR == |x0| && Words(l, d[..]) && Fits(l, d[..], doff0, w0) && soff < SCALAR
    modifies d
    ensures d[..] == ScalarBits(l, old(d[..]), doff0, ShrW(x0, soff), w0, put)
  {
    ghost var goal := ScalarBits(l, d[..], doff0, ShrW(x0, soff), w0, put);
    var x := ShrW(x0, soff);
    var doff, w := doff0, w0;
    while w > 0
      invariant |x| == SCALAR && Words(l, d[..]) && Fits(l, d[..], doff, w)
      invariant ScalarBits(l, d[..], doff, x, w, put) == goal
      decreases w
    {
      var n := Min(l - BitOf(l, doff), w);
      FitsPrefix(l, d[..], doff, n, w);
      StepInPlace(l, d, doff, LowLimb(l, x), 0, n, put);
      x, doff, w := ShrW(x, n), doff + n, w - n;
    }
  }
}
