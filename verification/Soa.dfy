/** The structure-of-arrays farm: limb `i` of instance `g` sits at `i * stride + g`, and the strided
    helpers act on one instance's limbs as the plain helpers do. */
module Soa {
  import opened Bits
  import opened Limbs
  import opened BitField
  import opened WideArith
  import opened WideShift

  /** The address of limb `i` for lane `g`; a plain operand is the case `stride == 1`, `g == 0`. */
  function Addr(stride: nat, g: nat, i: nat): (a: nat)
    requires g < stride
    ensures LimbOf(stride, a) == i && BitOf(stride, a) == g
  {
    Place(stride, i, g)
  }

  /** The buffer holds `n` limbs of lane `g`. */
  predicate HasLane(stride: nat, g: nat, buf: seq<Limb>, n: nat) {
    g < stride && forall i: nat :: i < n ==> Addr(stride, g, i) < |buf|
  }

  /** The limbs of one instance, gathered. */
  function Lane(stride: nat, g: nat, buf: seq<Limb>, n: nat): (lane: seq<Limb>)
    requires HasLane(stride, g, buf, n)
    ensures |lane| == n
  {
    seq(n, i requires 0 <= i < n => buf[Addr(stride, g, i)])
  }

  /** Limb `i` of the lane is the buffer's at `i * stride + g`. */
  lemma LaneMeans(stride: nat, g: nat, buf: seq<Limb>, n: nat, i: nat)
    requires HasLane(stride, g, buf, n) && i < n
    ensures i * stride + g < |buf| && Lane(stride, g, buf, n)[i] == buf[i * stride + g]
  {
    LimbBit(stride, Addr(stride, g, i));
  }

  lemma LaneWords(l: nat, stride: nat, g: nat, buf: seq<Limb>, n: nat)
    requires HasLane(stride, g, buf, n) && Words(l, buf)
    ensures Words(l, Lane(stride, g, buf, n))
  {
  }

  /** Addresses of different limbs or lanes differ. */
  lemma AddrUnique(stride: nat, g: nat, h: nat, i: nat, j: nat)
    requires g < stride && h < stride
    ensures Addr(stride, g, i) == Addr(stride, h, j) <==> g == h && i == j
  {
  }

  /** Only the `n` limbs of lane `g` changed. */
  ghost predicate OnlyLane(stride: nat, g: nat, n: nat, buf: seq<Limb>, buf': seq<Limb>)
    requires stride > 0
  {
    && |buf| == |buf'|
    && forall a: nat :: a < |buf| && !(BitOf(stride, a) == g && LimbOf(stride, a) < n) ==> buf'[a] == buf[a]
  }

  /** Another instance's limbs are untouched. */
  lemma OtherLanes(stride: nat, g: nat, h: nat, buf: seq<Limb>, buf': seq<Limb>, n: nat, m: nat)
    requires g < stride && h != g && HasLane(stride, h, buf, m) && OnlyLane(stride, g, n, buf, buf')
    ensures HasLane(stride, h, buf', m) && Lane(stride, h, buf', m) == Lane(stride, h, buf, m)
  {
  }

  /** Storing one limb of a lane. */
  lemma LaneUpdate(stride: nat, g: nat, buf: seq<Limb>, n: nat, q: nat, x: Limb)
    requires HasLane(stride, g, buf, n) && q < n
    ensures var buf' := buf[Addr(stride, g, q) := x];
      && HasLane(stride, g, buf', n)
      && Lane(stride, g, buf', n) == Lane(stride, g, buf, n)[q := x]
      && OnlyLane(stride, g, n, buf, buf')
  {
    var buf' := buf[Addr(stride, g, q) := x];
    forall i: nat | i < n
      ensures Lane(stride, g, buf', n)[i] == Lane(stride, g, buf, n)[q := x][i]
    {
      AddrUnique(stride, g, g, i, q);
    }
  }

  // ---------------------------------------------------------------- strided helpers

  method StridedStep(l: nat, d: array<Limb>, ds: nat, g: nat, ghost n: nat, doff: nat, x: Limb, sb: nat, k: nat, put: bool)
    requires l > 0 && HasLane(ds, g, d[..], n) && Words(l, d[..]) && |x| == l && LimbOf(l, doff) < n
    modifies d
    ensures Words(l, d[..]) && HasLane(ds, g, d[..], n) && OnlyLane(ds, g, n, old(d[..]), d[..])
    ensures Words(l, old(Lane(ds, g, d[..], n)))
    ensures Lane(ds, g, d[..], n) == Step(l, old(Lane(ds, g, d[..], n)), doff, x, sb, k, put)
  {
    ghost var was := d[..];
    LaneWords(l, ds, g, was, n);
    var q := LimbOf(l, doff);
    var p := Addr(ds, g, q);
    assert was[p] == Lane(ds, g, was, n)[q] == d[p];
    var r := Blend(l, d[p], x, sb, BitOf(l, doff), k, put);
    LaneUpdate(ds, g, was, n, q, r);
    d[p] := r;
    assert d[..] == was[p := r];
  }

  lemma OnlyLaneTrans(stride: nat, g: nat, n: nat, a: seq<Limb>, b: seq<Limb>, c: seq<Limb>)
    requires stride > 0 && OnlyLane(stride, g, n, a, b) && OnlyLane(stride, g, n, b, c)
    ensures OnlyLane(stride, g, n, a, c)
  {
  }

  /** What is left of the copy takes the lane's limbs in `buf` to `goal`. */
  ghost predicate Copying(l: nat, ds: nat, g: nat, n: nat, buf: seq<Limb>, doff: nat, src: seq<Limb>, soff: nat,
                          w: nat, put: bool, goal: seq<Limb>)
  {
    && l > 0 && HasLane(ds, g, buf, n) && Words(l, buf) && Words(l, src) && Words(l, Lane(ds, g, buf, n))
    && BitField.Fits(l, Lane(ds, g, buf, n), doff, w) && BitField.Fits(l, src, soff, w)
    && CopyBits(l, Lane(ds, g, buf, n), doff, src, soff, w, put) == goal
  }

  /** One turn of the strided copy: on the lanes' limbs, one turn of the plain one. */
  method StridedTurn(l: nat, d: array<Limb>, ds: nat, g: nat, ghost n: nat, doff: nat, s: seq<Limb>, ss: nat, sg: nat,
                     ghost src: seq<Limb>, soff: nat, w: nat, put: bool, ghost goal: seq<Limb>) returns (k: nat)
    requires Copying(l, ds, g, n, d[..], doff, src, soff, w, put, goal) && w > 0
    requires HasLane(ss, sg, s, |src|) && src == Lane(ss, sg, s, |src|)
    modifies d
    ensures 0 < k <= w && OnlyLane(ds, g, n, old(d[..]), d[..])
    ensures Copying(l, ds, g, n, d[..], doff + k, src, soff + k, w - k, put, goal)
  {
    k := Chunk(l, doff, soff, w);
    FitsPrefix(l, Lane(ds, g, d[..], n), doff, k, w);
    FitsPrefix(l, src, soff, k, w);
    var x := s[Addr(ss, sg, LimbOf(l, soff))];
    assert x == src[LimbOf(l, soff)];
    StridedStep(l, d, ds, g, n, doff, x, BitOf(l, soff), k, put);
    LaneWords(l, ds, g, d[..], n);
  }

  /** `worbits2` and `wplacew2` (`put`): on the lanes' limbs they are the plain copy. */
  method CopyBits2(l: nat, d: array<Limb>, ds: nat, g: nat, ghost n: nat, doff0: nat,
                   s: seq<Limb>, ss: nat, sg: nat, ghost m: nat, soff0: nat, w0: nat, put: bool)
    requires l > 0 && HasLane(ds, g, d[..], n) && HasLane(ss, sg, s, m) && Words(l, d[..]) && Words(l, s)
    requires BitField.Fits(l, Lane(ds, g, d[..], n), doff0, w0) && BitField.Fits(l, Lane(ss, sg, s, m), soff0, w0)
    modifies d
    ensures Words(l, d[..]) && HasLane(ds, g, d[..], n) && OnlyLane(ds, g, n, old(d[..]), d[..])
    ensures Words(l, old(Lane(ds, g, d[..], n))) && Words(l, Lane(ss, sg, s, m))
    ensures Lane(ds, g, d[..], n) ==
      CopyBits(l, old(Lane(ds, g, d[..], n)), doff0, Lane(ss, sg, s, m), soff0, w0, put)
  {
    ghost var was := d[..];
    ghost var src := Lane(ss, sg, s, m);
    LaneWords(l, ds, g, was, n);
    LaneWords(l, ss, sg, s, m);
    ghost var goal := CopyBits(l, Lane(ds, g, was, n), doff0, src, soff0, w0, put);
    var doff, soff, w := doff0, soff0, w0;
    while w > 0
      invariant Copying(l, ds, g, n, d[..], doff, src, soff, w, put, goal) && OnlyLane(ds, g, n, was, d[..])
      decreases w
    {
      ghost var before := d[..];
      var k := StridedTurn(l, d, ds, g, n, doff, s, ss, sg, src, soff, w, put, goal);
      OnlyLaneTrans(ds, g, n, was, before, d[..]);
      doff, soff, w := doff + k, soff + k, w - k;
    }
  }

  /** `worbits_s2` and `wplacew_s2` (`put`). */
  method ScalarBits2(l: nat, d: array<Limb>, ds: nat, g: nat, ghost n: nat, doff0: nat, x0: Limb, soff: nat, w0: nat, put: bool)
    requires 0 < l <= SCALAR == |x0| && HasLane(ds, g, d[..], n) && Words(l, d[..])
    requires BitField.Fits(l, Lane(ds, g, d[..], n), doff0, w0) && soff < SCALAR
    modifies d
    ensures Words(l, d[..]) && HasLane(ds, g, d[..], n) && OnlyLane(ds, g, n, old(d[..]), d[..])
    ensures Words(l, old(Lane(ds, g, d[..], n)))
    ensures Lane(ds, g, d[..], n) == ScalarBits(l, old(Lane(ds, g, d[..], n)), doff0, ShrW(x0, soff), w0, put)
  {
    ghost var was := d[..];
    LaneWords(l, ds, g, was, n);
    ghost var goal := ScalarBits(l, Lane(ds, g, was, n), doff0, ShrW(x0, soff), w0, put);
    var x := ShrW(x0, soff);
    var doff, w := doff0, w0;
    while w > 0
      invariant |x| == SCALAR && Words(l, d[..]) && HasLane(ds, g, d[..], n) && OnlyLane(ds, g, n, was, d[..])
      invariant Words(l, Lane(ds, g, d[..], n)) && BitField.Fits(l, Lane(ds, g, d[..], n), doff, w)
      invariant ScalarBits(l, Lane(ds, g, d[..], n), doff, x, w, put) == goal
      decreases w
    {
      var k := ScalarTurn2(l, d, ds, g, n, doff, x, w, put, was);
      x, doff, w := ShrW(x, k), doff + k, w - k;
    }
  }

  /** One turn: `k` bits of `x`. */
  method ScalarTurn2(l: nat, d: array<Limb>, ds: nat, g: nat, ghost n: nat, doff: nat, x: Limb, w: nat, put: bool, ghost was: seq<Limb>)
    returns (k: nat)
    requires 0 < l <= SCALAR == |x| && 0 < w && HasLane(ds, g, d[..], n) && Words(l, d[..])
    requires OnlyLane(ds, g, n, was, d[..]) && Words(l, Lane(ds, g, d[..], n))
    requires BitField.Fits(l, Lane(ds, g, d[..], n), doff, w)
    modifies d
    ensures 0 < k <= w && Words(l, d[..]) && HasLane(ds, g, d[..], n) && OnlyLane(ds, g, n, was, d[..])
    ensures Words(l, Lane(ds, g, d[..], n)) && BitField.Fits(l, Lane(ds, g, d[..], n), doff + k, w - k)
    ensures |ShrW(x, k)| == SCALAR
    ensures ScalarBits(l, Lane(ds, g, d[..], n), doff + k, ShrW(x, k), w - k, put) ==
      old(ScalarBits(l, Lane(ds, g, d[..], n), doff, x, w, put))
  {
    k := Min(l - BitOf(l, doff), w);
    ghost var before := d[..];
    FitsPrefix(l, Lane(ds, g, d[..], n), doff, k, w);
    StridedStep(l, d, ds, g, n, doff, LowLimb(l, x), 0, k, put);
    OnlyLaneTrans(ds, g, n, was, before, d[..]);
    LaneWords(l, ds, g, d[..], n);
  }

  /** `wcopy2`. */
  method Copy2(d: array<Limb>, ds: nat, g: nat, s: seq<Limb>, ss: nat, sg: nat, n: nat)
    requires HasLane(ds, g, d[..], n) && HasLane(ss, sg, s, n)
    modifies d
    ensures HasLane(ds, g, d[..], n) && OnlyLane(ds, g, n, old(d[..]), d[..])
    ensures Lane(ds, g, d[..], n) == Lane(ss, sg, s, n)
  {
    ghost var was := d[..];
    for i := 0 to n
      invariant HasLane(ds, g, d[..], n) && OnlyLane(ds, g, n, was, d[..])
      invariant Lane(ds, g, d[..], n)[..i] == Lane(ss, sg, s, n)[..i]
    {
      ghost var before := d[..];
      var x := s[Addr(ss, sg, i)];
      LaneUpdate(ds, g, before, n, i, x);
      d[Addr(ds, g, i)] := x;
      assert d[..] == before[Addr(ds, g, i) := x];
      OnlyLaneTrans(ds, g, n, was, before, d[..]);
    }
  }

  /** `wred_or2`. */
  method RedOr2(l: nat, a: seq<Limb>, stride: nat, g: nat, n: nat) returns (r: bool)
    requires l > 0 && HasLane(stride, g, a, n) && Words(l, a)
    ensures r <==> Value(Lane(stride, g, a, n)) != 0
  {
    LaneWords(l, stride, g, a, n);
    ZeroLimbsValue(l, n);
    ghost var lane := Lane(stride, g, a, n);
    for i := 0 to n
      invariant lane[..i] == ZeroLimbs(l, i)
    {
      assert lane[i] == a[Addr(stride, g, i)];
      if a[Addr(stride, g, i)] != Zeros(l) {
        assert lane[i] != ZeroLimbs(l, n)[i];
        if Value(lane) == 0 { ValueUnique(l, lane, ZeroLimbs(l, n)); }
        return true;
      }
    }
    assert lane[..n] == lane;
    return false;
  }

  /** The reads of `wslice642`, at strided addresses. */
  function Gather642(s: seq<Limb>, ss: nat, g: nat, i: nat, b: nat, w: nat, n: nat): (v: Limb)
    requires HasLane(ss, g, s, n) && Words(32, s) && i < n && b < 32
    ensures |v| == 64
  {
    var lo := if i + 1 < n then OrW(Cast64(s[Addr(ss, g, i)]), ShlW(Cast64(s[Addr(ss, g, i + 1)]), 32))
              else Cast64(s[Addr(ss, g, i)]);
    if b > 0 && w + b > 64 && i + 2 < n then OrW(ShrW(lo, b), ShlW(Cast64(s[Addr(ss, g, i + 2)]), 64 - b))
    else ShrW(lo, b)
  }

  /** `wslice642`. */
  function Wslice642(s: seq<Limb>, ss: nat, g: nat, off: nat, w: nat, n: nat): (v: Limb)
    requires HasLane(ss, g, s, n) && Words(32, s) && LimbOf(32, off) < n
    ensures |v| == 64
  {
    var v := Gather642(s, ss, g, LimbOf(32, off), BitOf(32, off), w, n);
    if w >= 64 then v else AndW(v, MaskW(64, w))
  }

  lemma Gather642Same(s: seq<Limb>, ss: nat, g: nat, i: nat, b: nat, w: nat, n: nat)
    requires HasLane(ss, g, s, n) && Words(32, s) && i < n && b < 32
    ensures Words(32, Lane(ss, g, s, n)) && Gather642(s, ss, g, i, b, w, n) == Gather32(Lane(ss, g, s, n), i, b, w)
  {
    var lane := Lane(ss, g, s, n);
    LaneWords(32, ss, g, s, n);
    assert lane[i] == s[Addr(ss, g, i)];
    assert i + 1 < n ==> lane[i + 1] == s[Addr(ss, g, i + 1)];
    assert i + 2 < n ==> lane[i + 2] == s[Addr(ss, g, i + 2)];
  }

  /** Strided extraction is extraction from the gathered lane. */
  lemma Wslice642Same(s: seq<Limb>, ss: nat, g: nat, off: nat, w: nat, n: nat)
    requires HasLane(ss, g, s, n) && Words(32, s) && LimbOf(32, off) < n
    ensures Words(32, Lane(ss, g, s, n)) && Wslice642(s, ss, g, off, w, n) == Wslice64(32, Lane(ss, g, s, n), off, w)
  {
    Gather642Same(s, ss, g, LimbOf(32, off), BitOf(32, off), w, n);
  }

  /** It extracts (value / 2^off) mod 2^w of the instance's own number. */
  lemma Wslice642Num(s: seq<Limb>, ss: nat, g: nat, off: nat, w: nat, n: nat)
    requires HasLane(ss, g, s, n) && Words(32, s) && LimbOf(32, off) < n && w <= 64
    ensures Num(Wslice642(s, ss, g, off, w, n)) == (Value(Lane(ss, g, s, n)) / Pow2(off)) % Pow2(w)
  {
    Wslice642Same(s, ss, g, off, w, n);
    Wslice64Num(32, Lane(ss, g, s, n), off, w);
  }

  // ---------------------------------------------------------------- a farm run

  /** A helper call of one instance: what it does to that instance's limbs. */
  datatype Call = Call(g: nat, run: seq<Limb> -> seq<Limb>)

  ghost predicate CallsOk(stride: nat, calls: seq<Call>) {
    forall i :: 0 <= i < |calls| ==> calls[i].g < stride && forall x :: |calls[i].run(x)| == |x|
  }

  /** Writing a lane back into the shared buffer. */
  function PutLane(stride: nat, g: nat, buf: seq<Limb>, lane: seq<Limb>): (r: seq<Limb>)
    requires stride > 0
    ensures |r| == |buf|
  {
    seq(|buf|, a requires 0 <= a < |buf| =>
      if BitOf(stride, a) == g && LimbOf(stride, a) < |lane| then lane[LimbOf(stride, a)] else buf[a])
  }

  /** What a strided helper leaves behind is its lane's new limbs put back. */
  lemma HelperIsPutLane(stride: nat, g: nat, n: nat, buf: seq<Limb>, buf': seq<Limb>)
    requires HasLane(stride, g, buf', n) && OnlyLane(stride, g, n, buf, buf')
    ensures buf' == PutLane(stride, g, buf, Lane(stride, g, buf', n))
  {
    var lane := Lane(stride, g, buf', n);
    forall a | 0 <= a < |buf| ensures buf'[a] == PutLane(stride, g, buf, lane)[a] {
      var i := LimbOf(stride, a);
      if BitOf(stride, a) == g && i < n {
        SamePlace(stride, a, Addr(stride, g, i));
        assert lane[i] == buf'[a];
      }
    }
  }

  /** Every instance has `n` limbs. */
  predicate FarmOk(stride: nat, buf: seq<Limb>, n: nat) {
    stride > 0 && forall g: nat :: g < stride ==> HasLane(stride, g, buf, n)
  }

  lemma FarmKeeps(stride: nat, buf: seq<Limb>, buf': seq<Limb>, n: nat)
    requires FarmOk(stride, buf, n) && |buf| == |buf'|
    ensures FarmOk(stride, buf', n)
  {
    forall g: nat | g < stride ensures HasLane(stride, g, buf', n) { assert HasLane(stride, g, buf, n); }
  }

  /** The first `k` calls on the shared buffer, in any interleaving of instances. */
  ghost function RunFarm(stride: nat, buf: seq<Limb>, n: nat, calls: seq<Call>, k: nat): (r: seq<Limb>)
    requires FarmOk(stride, buf, n) && CallsOk(stride, calls) && k <= |calls|
    ensures FarmOk(stride, r, n) && |r| == |buf|
    decreases k
  {
    if k == 0 then buf
    else
      var b := RunFarm(stride, buf, n, calls, k - 1);
      var c := calls[k - 1];
      FarmKeeps(stride, b, PutLane(stride, c.g, b, c.run(Lane(stride, c.g, b, n))), n);
      PutLane(stride, c.g, b, c.run(Lane(stride, c.g, b, n)))
  }

  /** Only instance `h`'s own calls, on its own limbs. */
  ghost function RunAlone(h: nat, lane: seq<Limb>, calls: seq<Call>, k: nat): (r: seq<Limb>)
    requires k <= |calls|
    decreases k
  {
    if k == 0 then lane
    else
      var r := RunAlone(h, lane, calls, k - 1);
      if calls[k - 1].g == h then calls[k - 1].run(r) else r
  }

  lemma PutLaneReads(stride: nat, g: nat, h: nat, buf: seq<Limb>, lane: seq<Limb>, n: nat)
    requires g < stride && |lane| == n && HasLane(stride, h, buf, n)
    ensures HasLane(stride, h, PutLane(stride, g, buf, lane), n)
    ensures Lane(stride, h, PutLane(stride, g, buf, lane), n) == if h == g then lane else Lane(stride, h, buf, n)
  {
  }

  /** Instances do not interfere: after any interleaving each holds what it would hold alone. */
  lemma {:induction false} FarmIsolated(stride: nat, buf: seq<Limb>, n: nat, calls: seq<Call>, k: nat, h: nat)
    requires FarmOk(stride, buf, n) && CallsOk(stride, calls) && k <= |calls| && h < stride
    ensures HasLane(stride, h, RunFarm(stride, buf, n, calls, k), n)
    ensures Lane(stride, h, RunFarm(stride, buf, n, calls, k), n) == RunAlone(h, Lane(stride, h, buf, n), calls, k)
    decreases k
  {
    if k == 0 {
    } else {
      FarmIsolated(stride, buf, n, calls, k - 1, h);
      var b, c := RunFarm(stride, buf, n, calls, k - 1), calls[k - 1];
      PutLaneReads(stride, c.g, h, b, c.run(Lane(stride, c.g, b, n)), n);
    }
  }
}
