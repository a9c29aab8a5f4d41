/** Shifts, extraction, comparisons and reductions of the emitted wide-integer runtime. */
module WideShift {
  import opened Bits
  import opened Limbs
  import opened WideArith

  // ---------------------------------------------------------------- where a shifted bit lands

  lemma PlaceIs(l: nat, k: nat, i: nat, r: nat)
    requires r < l && k == r + l * i
    ensures LimbOf(l, k) == i && BitOf(l, k) == r
  {
    LimbBit(l, k);
    DivMod(k, l, i, r);
  }

  lemma BitAt(l: nat, a: seq<Limb>, k: nat, i: nat, r: nat)
    requires Words(l, a) && r < l && LimbOf(l, k) == i && BitOf(l, k) == r
    ensures Bit(l, a, k) == (i < |a| && a[i][r])
  {
  }

  /** Limb and bit of a sum: the bits add, with at most one limb carried. */
  lemma AddPlace(l: nat, k: nat, s: nat)
    requires l > 0
    ensures var r, i := BitOf(l, k) + BitOf(l, s), LimbOf(l, k) + LimbOf(l, s);
      && (r < l ==> LimbOf(l, k + s) == i && BitOf(l, k + s) == r)
      && (r >= l ==> LimbOf(l, k + s) == i + 1 && BitOf(l, k + s) == r - l)
  {
    var r := BitOf(l, k) + BitOf(l, s);
    if r < l {
      PlaceSum(l, k, s, 0);
    } else {
      PlaceSum(l, k, s, 1);
    }
  }

  lemma PlaceSum(l: nat, k: nat, s: nat, c: nat)
    requires l > 0 && l * c <= BitOf(l, k) + BitOf(l, s) < l * c + l
    ensures LimbOf(l, k + s) == LimbOf(l, k) + LimbOf(l, s) + c
    ensures BitOf(l, k + s) == BitOf(l, k) + BitOf(l, s) - l * c
  {
    LimbBit(l, k);
    LimbBit(l, s);
    SumArith(l, LimbOf(l, k), BitOf(l, k), LimbOf(l, s), BitOf(l, s), c);
    PlaceIs(l, k + s, LimbOf(l, k) + LimbOf(l, s) + c, BitOf(l, k) + BitOf(l, s) - l * c);
  }

  lemma SumArith(l: nat, i: nat, r: nat, i': nat, r': nat, c: nat)
    ensures (l * i + r) + (l * i' + r') == (r + r' - l * c) + l * (i + i' + c)
  {
    assert l * (i + i' + c) == l * i + l * i' + l * c;
  }

  /** `j` bits past a place, `c` limbs up. */
  lemma PlaceOf(l: nat, off: nat, j: nat, i: nat, b: nat, c: nat)
    requires l > 0 && i == LimbOf(l, off) && b == BitOf(l, off) && l * c <= b + j < l * c + l
    ensures LimbOf(l, off + j) == i + c && BitOf(l, off + j) == b + j - l * c
  {
    LimbBit(l, off);
    assert l * (i + c) == l * i + l * c;
    PlaceIs(l, off + j, i + c, b + j - l * c);
  }

  // ---------------------------------------------------------------- shift left

  /** Limb `i` of `a` shifted left by `w` limbs and `b` bits. */
  function ShlLimb(l: nat, a: seq<Limb>, w: nat, b: nat, i: nat): (v: Limb)
    requires Words(l, a) && i < |a| && b < l
    ensures |v| == l
  {
    if i < w then Zeros(l)
    else if b > 0 && i - w >= 1 then OrW(ShlW(a[i - w], b), ShrW(a[i - w - 1], l - b))
    else ShlW(a[i - w], b)
  }

  lemma ShlWordBit(l: nat, a: seq<Limb>, w: nat, b: nat, i: nat, r: nat)
    requires Words(l, a) && i < |a| && b < l && r < l
    ensures ShlLimb(l, a, w, b, i)[r] ==
      (i >= w && if r >= b then a[i - w][r - b] else i > w && a[i - w - 1][r + l - b])
  {
    if i >= w {
      var x := a[i - w];
      assert ShlW(x, b)[r] == (r >= b && x[r - b]);
      if i > w {
        var y := a[i - w - 1];
        assert ShrW(y, l - b)[r] == (r < b && y[r + l - b]);
      }
    }
  }

  lemma ShlLimbBit(l: nat, a: seq<Limb>, s: nat, k: nat, w: nat, b: nat, i: nat, r: nat)
    requires l > 0 && Words(l, a) && i < |a|
    requires w == LimbOf(l, s) && b == BitOf(l, s) && i == LimbOf(l, k) && r == BitOf(l, k)
    ensures ShlLimb(l, a, w, b, i)[r] == (k >= s && Bit(l, a, k - s))
  {
    ShlWordBit(l, a, w, b, i, r);
    if k >= s {
      AddPlace(l, k - s, s);
      if r >= b { BitAt(l, a, k - s, i - w, r - b); } else { BitAt(l, a, k - s, i - w - 1, r + l - b); }
    } else {
      Below(l, k, s);
    }
  }

  lemma Below(l: nat, k: nat, s: nat)
    requires l > 0 && k < s
    ensures LimbOf(l, k) < LimbOf(l, s) || (LimbOf(l, k) == LimbOf(l, s) && BitOf(l, k) < BitOf(l, s))
  {
    LimbMono(l, k, s);
    LimbBit(l, k);
    LimbBit(l, s);
  }

  /** `d` is `a` shifted left by `s`, bit by bit. */
  ghost predicate ShiftedLeft(l: nat, d: seq<Limb>, a: seq<Limb>, s: nat)
    requires l > 0
  {
    && Words(l, d) && Words(l, a) && |d| == |a|
    && forall k: nat :: LimbOf(l, k) < |a| ==> Bit(l, d, k) == (k >= s && Bit(l, a, k - s))
  }

  lemma FlatShifted(l: nat, d: seq<Limb>, a: seq<Limb>, s: nat)
    requires l > 0 && ShiftedLeft(l, d, a, s)
    ensures |Flat(a)| == |Flat(d)| && Flat(d) == (Zeros(s) + Flat(a))[..|Flat(d)|]
  {
    FlatLength(l, a);
    FlatLength(l, d);
    forall k: nat | k < |Flat(d)| ensures Flat(d)[k] == (Zeros(s) + Flat(a))[k] { FlatShiftedAt(l, d, a, s, k); }
  }

  lemma FlatShiftedAt(l: nat, d: seq<Limb>, a: seq<Limb>, s: nat, k: nat)
    requires l > 0 && ShiftedLeft(l, d, a, s) && |Flat(a)| == |Flat(d)| && k < |Flat(d)|
    ensures Flat(d)[k] == (Zeros(s) + Flat(a))[k]
  {
    FlatAt(l, d, k);
    if k >= s { FlatAt(l, a, k - s); }
  }

  /** Shifting left multiplies by a power of two, modulo the range. */
  lemma ShlValue(l: nat, d: seq<Limb>, a: seq<Limb>, s: nat)
    requires l > 0 && ShiftedLeft(l, d, a, s)
    ensures Value(d) == (Pow2(s) * Value(a)) % Range(l, |a|)
  {
    FlatShifted(l, d, a, s);
    ShiftNum(Flat(a), s);
    SliceNum(Zeros(s) + Flat(a), |Flat(d)|);
    RangeIsPow2(l, d);
  }

  lemma ShlAll(l: nat, d: seq<Limb>, a: seq<Limb>, s: nat)
    requires l > 0 && Words(l, d) && Words(l, a) && |d| == |a|
    requires forall i :: 0 <= i < |a| ==> d[i] == ShlLimb(l, a, LimbOf(l, s), BitOf(l, s), i)
    ensures ShiftedLeft(l, d, a, s)
  {
    forall k: nat | LimbOf(l, k) < |a| ensures Bit(l, d, k) == (k >= s && Bit(l, a, k - s)) {
      ShlLimbBit(l, a, s, k, LimbOf(l, s), BitOf(l, s), LimbOf(l, k), BitOf(l, k));
    }
  }

  /** From the top limb down, so that `d` may be `a`. */
  method Wshl(l: nat, d: array<Limb>, a: array<Limb>, s: nat, n: nat)
    requires l > 0 && n <= d.Length && n <= a.Length && Words(l, d[..]) && Words(l, a[..])
    modifies d
    ensures Words(l, d[..]) && d[n..] == old(d[n..])
    ensures ShiftedLeft(l, d[..n], old(a[..n]), s)
    ensures Value(d[..n]) == (Pow2(s) * old(Value(a[..n]))) % Range(l, n)
  {
    ghost var a0 := a[..n];
    var w, b := LimbOf(l, s), BitOf(l, s);
    var i := n;
    while i > 0
      invariant i <= n && Words(l, d[..])
      invariant forall k :: n <= k < d.Length ==> d[k] == old(d[k])
      invariant forall k :: 0 <= k < i ==> a[k] == a0[k]
      invariant forall k :: i <= k < n ==> d[k] == ShlLimb(l, a0, w, b, k)
    {
      i := i - 1;
      var v := Zeros(l);
      if i >= w {
        var j := i - w;
        v := ShlW(a[j], b);
        if b > 0 && j >= 1 {
          v := OrW(v, ShrW(a[j - 1], l - b));
        }
      }
      d[i] := v;
    }
    ShlAll(l, d[..n], a0, s);
    ShlValue(l, d[..n], a0, s);
  }

  // ---------------------------------------------------------------- shift right

  /** Limb `i` of `a` shifted right by `w` limbs and `b` bits. */
  function ShrLimb(l: nat, a: seq<Limb>, w: nat, b: nat, i: nat): (v: Limb)
    requires Words(l, a) && i < |a| && b < l
    ensures |v| == l
  {
    if i + w >= |a| then Zeros(l)
    else if b > 0 && i + w + 1 < |a| then OrW(ShrW(a[i + w], b), ShlW(a[i + w + 1], l - b))
    else ShrW(a[i + w], b)
  }

  lemma ShrWordBit(l: nat, a: seq<Limb>, w: nat, b: nat, i: nat, r: nat)
    requires Words(l, a) && i < |a| && b < l && r < l
    ensures ShrLimb(l, a, w, b, i)[r] ==
      if r + b < l then i + w < |a| && a[i + w][r + b] else i + w + 1 < |a| && a[i + w + 1][r + b - l]
  {
    if i + w < |a| {
      var x := a[i + w];
      assert ShrW(x, b)[r] == (r + b < l && x[r + b]);
      if i + w + 1 < |a| {
        var y := a[i + w + 1];
        assert ShlW(y, l - b)[r] == (r + b >= l && y[r + b - l]);
      }
    }
  }

  lemma ShrLimbBit(l: nat, a: seq<Limb>, s: nat, k: nat, w: nat, b: nat, i: nat, r: nat)
    requires l > 0 && Words(l, a) && i < |a|
    requires w == LimbOf(l, s) && b == BitOf(l, s) && i == LimbOf(l, k) && r == BitOf(l, k)
    ensures ShrLimb(l, a, w, b, i)[r] == Bit(l, a, k + s)
  {
    ShrWordBit(l, a, w, b, i, r);
    AddPlace(l, k, s);
    if r + b < l { BitAt(l, a, k + s, i + w, r + b); } else { BitAt(l, a, k + s, i + w + 1, r + b - l); }
  }

  ghost predicate ShiftedRight(l: nat, d: seq<Limb>, a: seq<Limb>, s: nat)
    requires l > 0
  {
    && Words(l, d) && Words(l, a) && |d| == |a|
    && forall k: nat :: LimbOf(l, k) < |a| ==> Bit(l, d, k) == Bit(l, a, k + s)
  }

  lemma FlatShiftedRight(l: nat, d: seq<Limb>, a: seq<Limb>, s: nat)
    requires l > 0 && ShiftedRight(l, d, a, s)
    ensures Flat(d) == Window(Flat(a), s, |Flat(d)|)
  {
    FlatLength(l, a);
    FlatLength(l, d);
    forall k | 0 <= k < |Flat(d)| ensures Flat(d)[k] == (s + k < |Flat(a)| && Flat(a)[s + k]) {
      FlatAt(l, d, k);
      FlatAt(l, a, s + k);
    }
  }

  lemma QuotientSmall(v: nat, p: nat, m: nat)
    requires p > 0 && v < m
    ensures (v / p) % m == v / p
  {
    if v / p > v { MulMono(v / p, 1, p); }
    DivMod(v / p, m, 0, v / p);
  }

  /** Shifting right divides by a power of two. */
  lemma ShrValue(l: nat, d: seq<Limb>, a: seq<Limb>, s: nat)
    requires l > 0 && ShiftedRight(l, d, a, s)
    ensures Value(d) == Value(a) / Pow2(s)
  {
    FlatShiftedRight(l, d, a, s);
    WindowNum(Flat(a), s, |Flat(d)|);
    FlatLength(l, a);
    FlatLength(l, d);
    NumBound(Flat(a));
    QuotientSmall(Value(a), Pow2(s), Pow2(|Flat(d)|));
  }

  lemma ShrAll(l: nat, d: seq<Limb>, a: seq<Limb>, s: nat)
    requires l > 0 && Words(l, d) && Words(l, a) && |d| == |a|
    requires forall i :: 0 <= i < |a| ==> d[i] == ShrLimb(l, a, LimbOf(l, s), BitOf(l, s), i)
    ensures ShiftedRight(l, d, a, s)
  {
    forall k: nat | LimbOf(l, k) < |a| ensures Bit(l, d, k) == Bit(l, a, k + s) {
      ShrLimbBit(l, a, s, k, LimbOf(l, s), BitOf(l, s), LimbOf(l, k), BitOf(l, k));
    }
  }

  /** The limbs below `i` are shifted. */
  ghost predicate RightTo(l: nat, d: seq<Limb>, a: seq<Limb>, s: nat, i: nat)
    requires l > 0 && Words(l, a)
  {
    i <= |a| <= |d| && forall k :: 0 <= k < i ==> d[k] == ShrLimb(l, a, LimbOf(l, s), BitOf(l, s), k)
  }

  lemma RightTurn(l: nat, d: seq<Limb>, d': seq<Limb>, a: seq<Limb>, s: nat, i: nat)
    requires l > 0 && Words(l, a) && RightTo(l, d, a, s, i) && i < |a|
    requires d' == d[i := ShrLimb(l, a, LimbOf(l, s), BitOf(l, s), i)]
    ensures RightTo(l, d', a, s, i + 1)
  {
  }

  lemma RightEnd(l: nat, d: seq<Limb>, a: seq<Limb>, s: nat)
    requires l > 0 && Words(l, a) && Words(l, d) && RightTo(l, d, a, s, |a|)
    ensures ShiftedRight(l, d[..|a|], a, s) && Value(d[..|a|]) == Value(a) / Pow2(s)
  {
    ShrAll(l, d[..|a|], a, s);
    ShrValue(l, d[..|a|], a, s);
  }

  /** From the bottom limb up, so that `d` may be `a`. */
  method Wshr(l: nat, d: array<Limb>, a: array<Limb>, s: nat, n: nat)
    requires l > 0 && n <= d.Length && n <= a.Length && Words(l, d[..]) && Words(l, a[..])
    modifies d
    ensures Words(l, d[..]) && d[n..] == old(d[n..])
    ensures ShiftedRight(l, d[..n], old(a[..n]), s)
    ensures Value(d[..n]) == old(Value(a[..n])) / Pow2(s)
  {
    ghost var a0 := a[..n];
    var w, b := LimbOf(l, s), BitOf(l, s);
    var i := 0;
    while i < n
      invariant i <= n && Words(l, d[..])
      invariant forall k :: n <= k < d.Length ==> d[k] == old(d[k])
      invariant forall k :: i <= k < n ==> a[k] == a0[k]
      invariant RightTo(l, d[..], a0, s, i)
    {
      var v := Zeros(l);
      var j := i + w;
      if j < n {
        v := ShrW(a[j], b);
        if b > 0 && j + 1 < n {
          v := OrW(v, ShlW(a[j + 1], l - b));
        }
      }
      ghost var was := d[..];
      d[i] := v;
      RightTurn(l, was, d[..], a0, s, i);
      i := i + 1;
    }
    RightEnd(l, d[..], a0, s);
  }

  // ---------------------------------------------------------------- extraction

  /** A limb cast to 64 bits. */
  function Cast64(x: Limb): (r: Limb)
    requires |x| <= 64
    ensures |r| == 64
  {
    x + Zeros(64 - |x|)
  }

  /** The two- or three-limb read of the 32-bit runtime, before masking. */
  function Gather32(s: seq<Limb>, i: nat, b: nat, w: nat): (v: Limb)
    requires Words(32, s) && i < |s| && b < 32
    ensures |v| == 64
  {
    var lo := if i + 1 < |s| then OrW(Cast64(s[i]), ShlW(Cast64(s[i + 1]), 32)) else Cast64(s[i]);
    if b > 0 && w + b > 64 && i + 2 < |s| then OrW(ShrW(lo, b), ShlW(Cast64(s[i + 2]), 64 - b)) else ShrW(lo, b)
  }

  /** The one- or two-limb read of the 64-bit runtime. */
  function Gather64(s: seq<Limb>, i: nat, b: nat): (v: Limb)
    requires Words(64, s) && i < |s| && b < 64
    ensures |v| == 64
  {
    if b > 0 && i + 1 < |s| then OrW(ShrW(s[i], b), ShlW(s[i + 1], 64 - b)) else ShrW(s[i], b)
  }

  /** `wslice64`: up to 64 bits of a limb array from any offset. */
  function Wslice64(l: nat, s: seq<Limb>, off: nat, w: nat): (v: Limb)
    requires (l == 32 || l == 64) && Words(l, s) && LimbOf(l, off) < |s|
    ensures |v| == 64
  {
    var g := if l == 32 then Gather32(s, LimbOf(l, off), BitOf(l, off), w)
             else Gather64(s, LimbOf(l, off), BitOf(l, off));
    if w >= 64 then g else AndW(g, MaskW(64, w))
  }

  lemma Gather32Word(s: seq<Limb>, i: nat, b: nat, w: nat, j: nat)
    requires Words(32, s) && i < |s| && b < 32 && j < w && j < 64
    ensures b + j < 32 ==> Gather32(s, i, b, w)[j] == s[i][b + j]
    ensures 32 <= b + j < 64 ==> Gather32(s, i, b, w)[j] == (i + 1 < |s| && s[i + 1][b + j - 32])
    ensures 64 <= b + j ==> Gather32(s, i, b, w)[j] == (i + 2 < |s| && s[i + 2][b + j - 64])
  {
    var x := Cast64(s[i]);
    assert b + j < 64 ==> x[b + j] == (b + j < 32 && s[i][b + j]);
    if i + 1 < |s| {
      var y := Cast64(s[i + 1]);
      var lo := OrW(x, ShlW(y, 32));
      assert b + j < 64 ==> lo[b + j] == if b + j < 32 then s[i][b + j] else s[i + 1][b + j - 32];
      assert ShrW(lo, b)[j] == (b + j < 64 && lo[b + j]);
      if i + 2 < |s| {
        var z := Cast64(s[i + 2]);
        assert ShlW(z, 64 - b)[j] == (b + j >= 64 && s[i + 2][b + j - 64]);
      }
    } else {
      assert ShrW(x, b)[j] == (b + j < 64 && x[b + j]);
    }
  }

  // A gathered bit lies in the first, second or third limb.

  lemma Gather32First(l: nat, s: seq<Limb>, off: nat, w: nat, j: nat, i: nat, b: nat)
    requires l == 32 && Words(l, s) && i == LimbOf(l, off) < |s| && b == BitOf(l, off) && j < w && j < 64 && b + j < 32
    ensures Gather32(s, i, b, w)[j] == Bit(l, s, off + j)
  {
    PlaceOf(l, off, j, i, b, 0);
    BitAt(l, s, off + j, i + 0, b + j - 0);
    Gather32Word(s, i, b, w, j);
  }

  lemma Gather32Second(l: nat, s: seq<Limb>, off: nat, w: nat, j: nat, i: nat, b: nat)
    requires l == 32 && Words(l, s) && i == LimbOf(l, off) < |s| && b == BitOf(l, off) && j < w && j < 64 && 32 <= b + j < 64
    ensures Gather32(s, i, b, w)[j] == Bit(l, s, off + j)
  {
    PlaceOf(l, off, j, i, b, 1);
    BitAt(l, s, off + j, i + 1, b + j - 32);
    Gather32Word(s, i, b, w, j);
  }

  lemma Gather32Third(l: nat, s: seq<Limb>, off: nat, w: nat, j: nat, i: nat, b: nat)
    requires l == 32 && Words(l, s) && i == LimbOf(l, off) < |s| && b == BitOf(l, off) && j < w && j < 64 && 64 <= b + j
    ensures Gather32(s, i, b, w)[j] == Bit(l, s, off + j)
  {
    PlaceOf(l, off, j, i, b, 2);
    BitAt(l, s, off + j, i + 2, b + j - 64);
    Gather32Word(s, i, b, w, j);
  }

  lemma Gather32Bit(l: nat, s: seq<Limb>, off: nat, w: nat, j: nat)
    requires l == 32 && Words(l, s) && LimbOf(l, off) < |s| && j < w && j < 64
    ensures Gather32(s, LimbOf(l, off), BitOf(l, off), w)[j] == Bit(l, s, off + j)
  {
    var i, b := LimbOf(l, off), BitOf(l, off);
    if b + j < 32 {
      Gather32First(l, s, off, w, j, i, b);
    } else if b + j < 64 {
      Gather32Second(l, s, off, w, j, i, b);
    } else {
      Gather32Third(l, s, off, w, j, i, b);
    }
  }

  lemma Gather64Word(s: seq<Limb>, i: nat, b: nat, j: nat)
    requires Words(64, s) && i < |s| && b < 64 && j < 64
    ensures Gather64(s, i, b)[j] == if b + j < 64 then s[i][b + j] else i + 1 < |s| && s[i + 1][b + j - 64]
  {
    var x := s[i];
    assert ShrW(x, b)[j] == (j + b < 64 && x[j + b]);
    if i + 1 < |s| {
      var y := s[i + 1];
      assert ShlW(y, 64 - b)[j] == (b + j >= 64 && y[b + j - 64]);
    }
  }

  lemma Gather64First(l: nat, s: seq<Limb>, off: nat, j: nat, i: nat, b: nat)
    requires l == 64 && Words(l, s) && i == LimbOf(l, off) < |s| && b == BitOf(l, off) && j < 64 && b + j < 64
    ensures Gather64(s, i, b)[j] == Bit(l, s, off + j)
  {
    PlaceOf(l, off, j, i, b, 0);
    BitAt(l, s, off + j, i + 0, b + j - 0);
    Gather64Word(s, i, b, j);
  }

  lemma Gather64Second(l: nat, s: seq<Limb>, off: nat, j: nat, i: nat, b: nat)
    requires l == 64 && Words(l, s) && i == LimbOf(l, off) < |s| && b == BitOf(l, off) && j < 64 <= b + j
    ensures Gather64(s, i, b)[j] == Bit(l, s, off + j)
  {
    PlaceOf(l, off, j, i, b, 1);
    BitAt(l, s, off + j, i + 1, b + j - 64);
    Gather64Word(s, i, b, j);
  }

  lemma Gather64Bit(l: nat, s: seq<Limb>, off: nat, j: nat)
    requires l == 64 && Words(l, s) && LimbOf(l, off) < |s| && j < 64
    ensures Gather64(s, LimbOf(l, off), BitOf(l, off))[j] == Bit(l, s, off + j)
  {
    var i, b := LimbOf(l, off), BitOf(l, off);
    if b + j < 64 { Gather64First(l, s, off, j, i, b); } else { Gather64Second(l, s, off, j, i, b); }
  }

  lemma Wslice64Bit(l: nat, s: seq<Limb>, off: nat, w: nat, j: nat)
    requires (l == 32 || l == 64) && Words(l, s) && LimbOf(l, off) < |s| && j < 64
    ensures Wslice64(l, s, off, w)[j] == (j < w && Bit(l, s, off + j))
  {
    if j < w {
      if l == 32 { Gather32Bit(l, s, off, w, j); } else { Gather64Bit(l, s, off, j); }
    }
  }

  /** A word whose bits are those of `g` and then zeros. */
  lemma Padded(v: seq<bool>, g: seq<bool>, n: nat)
    requires |g| <= n == |v| && forall j :: 0 <= j < n ==> v[j] == (j < |g| && g[j])
    ensures v == g + Zeros(n - |g|)
  {
  }

  lemma Wslice64Window(l: nat, s: seq<Limb>, off: nat, w: nat)
    requires (l == 32 || l == 64) && Words(l, s) && LimbOf(l, off) < |s| && w <= 64
    ensures Wslice64(l, s, off, w) == Window(Flat(s), off, w) + Zeros(64 - w)
  {
    var v, g := Wslice64(l, s, off, w), Window(Flat(s), off, w);
    forall j: nat | j < 64 ensures v[j] == (j < |g| && g[j]) { Wslice64At(l, s, off, w, j); }
    Padded(v, g, 64);
  }

  lemma Wslice64At(l: nat, s: seq<Limb>, off: nat, w: nat, j: nat)
    requires (l == 32 || l == 64) && Words(l, s) && LimbOf(l, off) < |s| && w <= 64 && j < 64
    ensures Wslice64(l, s, off, w)[j] == (j < |Window(Flat(s), off, w)| && Window(Flat(s), off, w)[j])
  {
    Wslice64Bit(l, s, off, w, j);
    if j < w { FlatAt(l, s, off + j); }
  }

  /** The extracted number: divide by 2^off, keep `w` bits. */
  lemma Wslice64Num(l: nat, s: seq<Limb>, off: nat, w: nat)
    requires (l == 32 || l == 64) && Words(l, s) && LimbOf(l, off) < |s| && w <= 64
    ensures Num(Wslice64(l, s, off, w)) == (Value(s) / Pow2(off)) % Pow2(w)
  {
    Wslice64Window(l, s, off, w);
    PadNum(Window(Flat(s), off, w), 64 - w);
    WindowNum(Flat(s), off, w);
  }

  // ---------------------------------------------------------------- comparison

  lemma LessArith(R: nat, x: nat, y: nat, va: nat, vb: nat)
    requires va < R && x < y
    ensures va + R * x < vb + R * y
  {
    MulMono(R, x + 1, y);
    assert R * (x + 1) == R * x + R;
  }

  /** The first differing limb from the top decides. */
  lemma TopDecides(l: nat, a: seq<Limb>, b: seq<Limb>, i: nat)
    requires Words(l, a) && Words(l, b) && |a| == |b| && i < |a| && a[i+1..] == b[i+1..]
    ensures Num(a[i]) < Num(b[i]) ==> Value(a) < Value(b)
  {
    if Num(a[i]) < Num(b[i]) {
      Grow(l, a, i);
      Grow(l, b, i);
      ValueBound(l, a[..i]);
      LessArith(Range(l, i), Num(a[i]), Num(b[i]), Value(a[..i]), Value(b[..i]));
      ValueSplit(l, a, i + 1);
      ValueSplit(l, b, i + 1);
    }
  }

  method Wult(l: nat, a: array<Limb>, b: array<Limb>, n: nat) returns (r: bool)
    requires n <= a.Length && n <= b.Length && Words(l, a[..]) && Words(l, b[..])
    ensures r <==> Value(a[..n]) < Value(b[..n])
  {
    var i := n;
    while i > 0
      invariant 0 <= i <= n && a[i..n] == b[i..n]
    {
      i := i - 1;
      if a[i] != b[i] {
        assert a[..n][i+1..] == a[i+1..n] && b[..n][i+1..] == b[i+1..n];
        if Num(a[i]) == Num(b[i]) { NumUnique(a[i], b[i]); }
        TopDecides(l, a[..n], b[..n], i);
        TopDecides(l, b[..n], a[..n], i);
        return Num(a[i]) < Num(b[i]);
      }
    }
    assert a[..n] == a[0..n] && b[..n] == b[0..n];
    return false;
  }

  /** Two's-complement reading. */
  function Signed(l: nat, a: seq<Limb>): (v: int)
    requires l > 0 && Words(l, a) && |a| > 0
  {
    if a[|a| - 1][l - 1] then Value(a) - Range(l, |a|) else Value(a)
  }

  method Wslt(l: nat, a: array<Limb>, b: array<Limb>, n: nat) returns (r: bool)
    requires l > 0 && 0 < n <= a.Length && n <= b.Length && Words(l, a[..]) && Words(l, b[..])
    ensures r <==> Signed(l, a[..n]) < Signed(l, b[..n])
  {
    var sa, sb := a[n - 1][l - 1], b[n - 1][l - 1];
    ValueBound(l, a[..n]);
    ValueBound(l, b[..n]);
    if sa != sb { return sa; }
    r := Wult(l, a, b, n);
  }

  /** Equal numbers have equal limbs. */
  lemma ValueUnique(l: nat, a: seq<Limb>, b: seq<Limb>)
    requires l > 0 && Words(l, a) && Words(l, b) && |a| == |b| && Value(a) == Value(b)
    ensures a == b
  {
    FlatLength(l, a);
    FlatLength(l, b);
    NumUnique(Flat(a), Flat(b));
    forall k: nat | LimbOf(l, k) < |a| ensures Bit(l, a, k) == Bit(l, b, k) {
      FlatAt(l, a, k);
      FlatAt(l, b, k);
    }
    SameBits(l, a, b);
  }

  method Weq(l: nat, a: array<Limb>, b: array<Limb>, n: nat) returns (r: bool)
    requires l > 0 && n <= a.Length && n <= b.Length && Words(l, a[..]) && Words(l, b[..])
    ensures r <==> Value(a[..n]) == Value(b[..n])
  {
    var i := 0;
    while i < n
      invariant i <= n && a[..i] == b[..i]
    {
      if a[i] != b[i] {
        assert a[..n][i] != b[..n][i];
        if Value(a[..n]) == Value(b[..n]) { ValueUnique(l, a[..n], b[..n]); }
        return false;
      }
      i := i + 1;
    }
    return true;
  }

  // ---------------------------------------------------------------- reductions

  method WredOr(l: nat, a: array<Limb>, n: nat) returns (r: bool)
    requires l > 0 && n <= a.Length && Words(l, a[..])
    ensures r <==> Value(a[..n]) != 0
  {
    var i := 0;
    ZeroLimbsValue(l, n);
    while i < n
      invariant i <= n && a[..i] == ZeroLimbs(l, i)
    {
      if a[i] != Zeros(l) {
        assert a[..n][i] != ZeroLimbs(l, n)[i];
        if Value(a[..n]) == 0 { ValueUnique(l, a[..n], ZeroLimbs(l, n)); }
        return true;
      }
      i := i + 1;
    }
    return false;
  }

  /** The bits of limb `i` that belong to a `width`-bit value of `n` limbs. */
  function LiveMask(l: nat, width: nat, n: nat, i: nat): (m: Limb)
    requires l > 0
    ensures |m| == l
  {
    if i + 1 == n && BitOf(l, width) > 0 then MaskW(l, BitOf(l, width)) else MaskW(l, l)
  }

  lemma LiveMaskBit(l: nat, width: nat, n: nat, k: nat)
    requires l > 0 && width > 0 && LimbOf(l, width - 1) + 1 == n && LimbOf(l, k) < n
    ensures LiveMask(l, width, n, LimbOf(l, k))[BitOf(l, k)] <==> k < width
  {
    LimbBit(l, width);
    LimbBit(l, width - 1);
    LimbBit(l, k);
    AddPlace(l, width - 1, 1);
    PlaceIs(l, 1 % l, 0, 1 % l);
    if l == 1 { PlaceIs(1, 1, 1, 0); }
    if k < width { LimbMono(l, k, width - 1); }
    else { LimbMono(l, width, k); }
  }

  method WredAnd(l: nat, a: array<Limb>, width: nat, n: nat) returns (r: bool)
    requires l > 0 && n <= a.Length && Words(l, a[..]) && width > 0 && LimbOf(l, width - 1) + 1 == n
    ensures r <==> forall k: nat :: k < width ==> Bit(l, a[..n], k)
  {
    var i := 0;
    while i < n
      invariant i <= n
      invariant forall k: nat :: k < width && LimbOf(l, k) < i ==> Bit(l, a[..n], k)
    {
      var m := LiveMask(l, width, n, i);
      if AndW(a[i], m) != m {
        var j :| 0 <= j < l && AndW(a[i], m)[j] != m[j];
        ghost var k := Place(l, i, j);
        LiveMaskBit(l, width, n, k);
        assert !Bit(l, a[..n], k);
        return false;
      }
      forall k: nat | k < width && LimbOf(l, k) == i ensures Bit(l, a[..n], k) {
        LiveMaskBit(l, width, n, k);
        assert AndW(a[i], m)[BitOf(l, k)] == m[BitOf(l, k)];
      }
      i := i + 1;
    }
    forall k: nat | k < width ensures Bit(l, a[..n], k) { LimbMono(l, k, width - 1); }
    return true;
  }

  /** Whether an odd number of bits are set. */
  function Odd(b: seq<bool>): (odd: bool)
    decreases |b|
  {
    if b == [] then false else b[|b| - 1] != Odd(b[..|b| - 1])
  }

  lemma {:induction false} OddXor(x: Limb, y: Limb)
    requires |x| == |y|
    ensures Odd(XorW(x, y)) == (Odd(x) != Odd(y))
    decreases |x|
  {
    if x == [] {
    } else {
      var m := |x| - 1;
      assert XorW(x, y)[..m] == XorW(x[..m], y[..m]);
      OddXor(x[..m], y[..m]);
    }
  }

  lemma {:induction false} OddAppend(x: seq<bool>, y: seq<bool>)
    ensures Odd(x + y) == (Odd(x) != Odd(y))
    decreases |y|
  {
    if y == [] {
      assert x + y == x;
    } else {
      assert (x + y)[..|x + y| - 1] == x + y[..|y| - 1];
      OddAppend(x, y[..|y| - 1]);
    }
  }

  lemma {:induction false} OddZeros(l: nat)
    ensures !Odd(Zeros(l))
  {
    if l == 0 {
    } else {
      assert Zeros(l)[..l - 1] == Zeros(l - 1);
      OddZeros(l - 1);
    }
  }

  function FoldXor(x: Limb, m: nat): (r: Limb)
    ensures |r| == |x|
  {
    XorW(x, ShrW(x, m))
  }

  /** `x ^= x >> m` brings the parity of the low `2m` bits into the low `m`. */
  lemma FoldHalf(x: Limb, m: nat)
    requires m + m <= |x|
    ensures Odd(FoldXor(x, m)[..m]) == Odd(x[..m + m])
  {
    assert FoldXor(x, m)[..m] == XorW(x[..m], x[m..m + m]);
    OddXor(x[..m], x[m..m + m]);
    assert x[..m + m] == x[..m] + x[m..m + m];
    OddAppend(x[..m], x[m..m + m]);
  }

  method WredXor(l: nat, a: array<Limb>, n: nat) returns (r: bool)
    requires (l == 32 || l == 64) && n <= a.Length && Words(l, a[..])
    ensures r == Odd(Flat(a[..n]))
  {
    var x := Zeros(l);
    var i := 0;
    OddZeros(l);
    assert a[..0] == [];
    while i < n
      invariant i <= n && |x| == l && Odd(x) == Odd(Flat(a[..i]))
    {
      assert a[..i+1] == a[..i] + [a[i]];
      FlatAppend(a[..i], [a[i]]);
      assert Flat([a[i]]) == a[i] + Flat([]) == a[i];
      OddXor(x, a[i]);
      OddAppend(Flat(a[..i]), a[i]);
      x := XorW(x, a[i]);
      i := i + 1;
    }
    r := LowParity(l, x);
  }

  method FoldStep(x: Limb, m: nat) returns (y: Limb)
    requires m + m <= |x|
    ensures |y| == |x| && Odd(y[..m]) == Odd(x[..m + m])
  {
    FoldHalf(x, m);
    y := FoldXor(x, m);
  }

  /** The halving cascade that leaves the parity in bit 0. */
  method LowParity(l: nat, x0: Limb) returns (r: bool)
    requires (l == 32 || l == 64) && |x0| == l
    ensures r == Odd(x0)
  {
    var x := x0;
    assert x0[..l] == x0;
    if l == 64 { x := FoldStep(x, 32); }
    x := FoldStep(x, 16);
    x := FoldStep(x, 8);
    x := FoldStep(x, 4);
    x := FoldStep(x, 2);
    x := FoldStep(x, 1);
    r := x[0];
    assert Odd(x[..1]) == x[0];
  }
}
