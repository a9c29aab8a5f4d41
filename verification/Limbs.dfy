/** Machine words as bit strings, and wide integers as little-endian sequences of them. */
module Limbs {
  import opened Bits

  /** A word of `l` bits, least significant first. */
  type Limb = seq<bool>

  ghost predicate Words(l: nat, a: seq<Limb>) {
    forall i :: 0 <= i < |a| ==> |a[i]| == l
  }

  // ---------------------------------------------------------------- word operations

  function AndW(x: Limb, y: Limb): (r: Limb)
    requires |x| == |y|
  { seq(|x|, i requires 0 <= i < |x| => x[i] && y[i]) }

  function OrW(x: Limb, y: Limb): (r: Limb)
    requires |x| == |y|
  { seq(|x|, i requires 0 <= i < |x| => x[i] || y[i]) }

  function XorW(x: Limb, y: Limb): (r: Limb)
    requires |x| == |y|
  { seq(|x|, i requires 0 <= i < |x| => x[i] != y[i]) }

  function NotW(x: Limb): (r: Limb)
  { seq(|x|, i requires 0 <= i < |x| => !x[i]) }

  function ShlW(x: Limb, n: nat): (r: Limb)
  { seq(|x|, i requires 0 <= i < |x| => i >= n && x[i - n]) }

  function ShrW(x: Limb, n: nat): (r: Limb)
  { seq(|x|, i requires 0 <= i < |x| => i + n < |x| && x[i + n]) }

  /** The word with its low `n` bits set. */
  function MaskW(l: nat, n: nat): (r: Limb)
  { seq(l, i requires 0 <= i < l => i < n) }

  // ---------------------------------------------------------------- limb and bit of an offset

  /** `k >> log2(l)`: the limb that holds bit `k`. */
  function LimbOf(l: nat, k: nat): (q: nat)
    requires l > 0
    decreases k
  {
    if k < l then 0 else 1 + LimbOf(l, k - l)
  }

  /** `k & (l - 1)`: the place of bit `k` in its limb. */
  function BitOf(l: nat, k: nat): (r: nat)
    requires l > 0
    ensures r < l
    decreases k
  {
    if k < l then k else BitOf(l, k - l)
  }

  lemma {:induction false} LimbBit(l: nat, k: nat)
    requires l > 0
    ensures k == l * LimbOf(l, k) + BitOf(l, k)
    ensures LimbOf(l, k) == k / l && BitOf(l, k) == k % l
    decreases k
  {
    if k >= l {
      LimbBit(l, k - l);
      assert l * LimbOf(l, k) == l + l * LimbOf(l, k - l);
    }
    DivMod(k, l, LimbOf(l, k), BitOf(l, k));
  }

  /** Offsets that stay inside one limb. */
  lemma {:induction false} SameLimb(l: nat, k: nat, j: nat)
    requires l > 0 && BitOf(l, k) + j < l
    ensures LimbOf(l, k + j) == LimbOf(l, k) && BitOf(l, k + j) == BitOf(l, k) + j
    decreases k
  {
    if k >= l {
      SameLimb(l, k - l, j);
      assert k + j - l == (k - l) + j;
    }
  }

  lemma {:induction false} SamePlace(l: nat, k: nat, k': nat)
    requires l > 0 && LimbOf(l, k) == LimbOf(l, k') && BitOf(l, k) == BitOf(l, k')
    ensures k == k'
    decreases k
  {
    if k >= l && k' >= l { SamePlace(l, k - l, k' - l); }
  }

  lemma {:induction false} LimbMono(l: nat, k: nat, k': nat)
    requires l > 0 && k <= k'
    ensures LimbOf(l, k) <= LimbOf(l, k')
    decreases k
  {
    if k >= l { LimbMono(l, k - l, k' - l); }
  }

  /** Bit `k` of a wide integer; absent bits read as 0. */
  function Bit(l: nat, a: seq<Limb>, k: nat): bool
    requires l > 0
  {
    LimbOf(l, k) < |a| && BitOf(l, k) < |a[LimbOf(l, k)]| && a[LimbOf(l, k)][BitOf(l, k)]
  }

  // ---------------------------------------------------------------- flat view and value

  function Flat(a: seq<Limb>): (b: seq<bool>)
  {
    if a == [] then [] else a[0] + Flat(a[1..])
  }

  lemma {:induction false} FlatAt(l: nat, a: seq<Limb>, k: nat)
    requires l > 0 && Words(l, a)
    ensures k < |Flat(a)| <==> LimbOf(l, k) < |a|
    ensures k < |Flat(a)| ==> Flat(a)[k] == Bit(l, a, k)
    ensures k >= |Flat(a)| ==> !Bit(l, a, k)
    decreases |a|
  {
    if a == [] {
    } else {
      assert Words(l, a[1..]);
      if k >= l {
        FlatAt(l, a[1..], k - l);
        if LimbOf(l, k) < |a| { assert a[LimbOf(l, k)] == a[1..][LimbOf(l, k) - 1]; }
      }
    }
  }

  lemma {:induction false} FlatLength(l: nat, a: seq<Limb>)
    requires Words(l, a)
    ensures |Flat(a)| == l * |a|
    decreases |a|
  {
    if a == [] {
    } else {
      assert Words(l, a[1..]);
      FlatLength(l, a[1..]);
      assert l * |a| == l + l * (|a| - 1);
    }
  }

  lemma {:induction false} FlatAppend(a: seq<Limb>, b: seq<Limb>)
    ensures Flat(a + b) == Flat(a) + Flat(b)
    decreases |a|
  {
    if a == [] {
      assert a + b == b;
    } else {
      assert (a + b)[1..] == a[1..] + b;
      FlatAppend(a[1..], b);
    }
  }

  /** The number a wide integer stands for. */
  function Value(a: seq<Limb>): (v: nat) { Num(Flat(a)) }

  /** Pow2 of the length of `n` limbs. */
  function Range(l: nat, n: nat): (m: nat)
    ensures m > 0
  {
    if n == 0 then 1 else Range(l, n - 1) * Pow2(l)
  }

  lemma {:induction false} RangeIsPow2(l: nat, a: seq<Limb>)
    requires Words(l, a)
    ensures Range(l, |a|) == Pow2(|Flat(a)|)
    decreases |a|
  {
    if a == [] {
    } else {
      var b := a[..|a|-1];
      assert a == b + [a[|a|-1]];
      RangeIsPow2(l, b);
      FlatAppend(b, [a[|a|-1]]);
      assert Flat([a[|a|-1]]) == a[|a|-1] + Flat([]) == a[|a|-1];
      Pow2Add(|Flat(b)|, l);
    }
  }

  lemma ValueBound(l: nat, a: seq<Limb>)
    requires Words(l, a)
    ensures Value(a) < Range(l, |a|)
  {
    RangeIsPow2(l, a);
    NumBound(Flat(a));
  }

  /** Adding a most significant limb. */
  lemma ValueTop(l: nat, a: seq<Limb>, x: Limb)
    requires Words(l, a)
    ensures Value(a + [x]) == Value(a) + Range(l, |a|) * Num(x)
  {
    FlatAppend(a, [x]);
    assert Flat([x]) == x + Flat([]) == x;
    NumAppend(Flat(a), x);
    RangeIsPow2(l, a);
  }

  lemma ValueSplit(l: nat, a: seq<Limb>, n: nat)
    requires Words(l, a) && n <= |a|
    ensures Value(a) == Value(a[..n]) + Range(l, n) * Value(a[n..])
  {
    assert a == a[..n] + a[n..];
    FlatAppend(a[..n], a[n..]);
    NumAppend(Flat(a[..n]), Flat(a[n..]));
    RangeIsPow2(l, a[..n]);
  }

  /** Wide integers of equal length with equal bits are equal. */
  lemma SameBits(l: nat, a: seq<Limb>, b: seq<Limb>)
    requires l > 0 && Words(l, a) && Words(l, b) && |a| == |b|
    requires forall k: nat :: LimbOf(l, k) < |a| ==> Bit(l, a, k) == Bit(l, b, k)
    ensures a == b
  {
    forall i | 0 <= i < |a| ensures a[i] == b[i] {
      forall j | 0 <= j < l ensures a[i][j] == b[i][j] {
        var k := Place(l, i, j);
        assert Bit(l, a, k) == Bit(l, b, k);
      }
    }
  }

  /** The offset of bit `j` of limb `i`. */
  function Place(l: nat, i: nat, j: nat): (k: nat)
    requires j < l
    ensures LimbOf(l, k) == i && BitOf(l, k) == j
  {
    if i == 0 then j else Place(l, i - 1, j) + l
  }
}
