/** The emitted wide-integer arithmetic: limb loops with a carry word, proved against the
    numbers the limb arrays stand for.  `l` is the limb width (32 or 64). */
module WideArith {
  import opened Bits
  import opened Limbs

  // ---------------------------------------------------------------- arithmetic facts

  lemma ModUnique(x: int, m: nat, q: int, r: nat)
    requires m > 0 && x == r + m * q && r < m
    ensures x % m == r
  {
    var q', r' := x / m, x % m;
    assert x == m * q' + r';
    assert m * (q - q') == r' - r;
    if q - q' >= 1 {
      MulMono(m, 1, q - q');
    } else if q' - q >= 1 {
      MulMono(m, 1, q' - q);
    }
  }

  /** A carry word of `2 * l` bits holding a value that fits loses nothing. */
  lemma Fits(n: nat, v: nat)
    requires v < Pow2(n)
    ensures Num(ToBits(n, v)) == v
  {
    TruncIsMod(n, v);
    DivMod(v, Pow2(n), 0, v);
  }

  /** `(dword)v`: what the double-width accumulator keeps. */
  function Dword(l: nat, v: nat): (r: nat)
  {
    Num(ToBits(l + l, v))
  }

  lemma DwordExact(l: nat, v: nat)
    requires v < Pow2(l) * Pow2(l)
    ensures Dword(l, v) == v
  {
    Pow2Add(l, l);
    Fits(l + l, v);
  }

  /** Adding two limbs and a carry: the double word does not overflow and the new carry is 0 or 1. */
  lemma AddCarry(l: nat, x: Limb, y: Limb, c: nat)
    requires l > 0 && |x| == |y| == l && c <= 1
    ensures Dword(l, c + Num(x) + Num(y)) == c + Num(x) + Num(y)
    ensures var s := c + Num(x) + Num(y);
      && s == Num(ToBits(l, s)) + Pow2(l) * Rest(l, s)
      && Rest(l, s) <= 1
  {
    var s, p := c + Num(x) + Num(y), Pow2(l);
    NumBound(x);
    NumBound(y);
    assert p >= 2;
    MulMono(p, 2, p);
    DwordExact(l, s);
    SplitNum(l, s);
    if Rest(l, s) >= 2 { MulMono(p, 2, Rest(l, s)); }
  }

  lemma AddStep(R: nat, P: nat, vd: nat, c: nat, va: nat, vb: nat, x: nat, y: nat, dig: nat, c': nat)
    requires vd + R * c == va + vb && c + x + y == dig + P * c'
    ensures (vd + R * dig) + R * P * c' == (va + R * x) + (vb + R * y)
  {
    MulAssoc(R, P, c');
    assert R * (c + x + y) == R * c + R * x + R * y;
    assert R * (dig + P * c') == R * dig + R * (P * c');
  }

  /** The numbers of the prefixes one limb longer. */
  lemma Grow(l: nat, a: seq<Limb>, i: nat)
    requires Words(l, a) && i < |a|
    ensures Value(a[..i+1]) == Value(a[..i]) + Range(l, i) * Num(a[i])
  {
    assert a[..i+1] == a[..i] + [a[i]];
    ValueTop(l, a[..i], a[i]);
  }

  function NotAll(a: seq<Limb>): (r: seq<Limb>)
    ensures |r| == |a| && forall i :: 0 <= i < |a| ==> r[i] == NotW(a[i])
  {
    seq(|a|, i requires 0 <= i < |a| => NotW(a[i]))
  }

  lemma {:induction false} NotNum(x: Limb)
    ensures Num(NotW(x)) == Pow2(|x|) - 1 - Num(x)
  {
    if x == [] {
    } else {
      assert NotW(x)[1..] == NotW(x[1..]);
      NotNum(x[1..]);
    }
  }

  lemma NotArith(R: nat, P: nat, x: nat, v: nat)
    ensures (R - 1 - v) + R * (P - 1 - x) == R * P - 1 - (v + R * x)
  {
    assert R * (P - 1 - x) == R * P - R - R * x;
  }

  /** One's complement of a wide integer. */
  lemma {:induction false} NotValue(l: nat, a: seq<Limb>)
    requires Words(l, a)
    ensures Value(NotAll(a)) == Range(l, |a|) - 1 - Value(a)
    decreases |a|
  {
    if a == [] {
    } else {
      var n := |a| - 1;
      NotValue(l, a[..n]);
      assert NotAll(a)[..n] == NotAll(a[..n]);
      assert a[..n+1] == a && NotAll(a)[..n+1] == NotAll(a);
      Grow(l, a, n);
      assert Words(l, NotAll(a));
      Grow(l, NotAll(a), n);
      NotNum(a[n]);
      NotArith(Range(l, n), Pow2(l), Num(a[n]), Value(a[..n]));
    }
  }

  // ---------------------------------------------------------------- add, subtract, negate

  /** The state of a carry loop after `i` limbs. */
  ghost predicate Carried(l: nat, d: seq<Limb>, a: seq<Limb>, b: seq<Limb>, c0: nat, c: nat, i: nat) {
    && c <= 1 && i <= |d| && i <= |a| && i <= |b|
    && Value(d[..i]) + Range(l, i) * c == Value(a[..i]) + Value(b[..i]) + c0
  }

  lemma CarryStep(l: nat, d: seq<Limb>, d': seq<Limb>, a: seq<Limb>, b: seq<Limb>, c0: nat, c: nat, i: nat)
    requires l > 0 && Words(l, d) && Words(l, a) && Words(l, b) && i < |d| && i < |a| && i < |b|
    requires Carried(l, d, a, b, c0, c, i)
    requires var s := Dword(l, c + Num(a[i]) + Num(b[i])); d' == d[i := ToBits(l, s)]
    ensures Words(l, d') && Carried(l, d', a, b, c0, Rest(l, Dword(l, c + Num(a[i]) + Num(b[i]))), i + 1)
  {
    var s := c + Num(a[i]) + Num(b[i]);
    AddCarry(l, a[i], b[i], c);
    assert d'[..i] == d[..i];
    Grow(l, d', i);
    Grow(l, a, i);
    Grow(l, b, i);
    AddStep(Range(l, i), Pow2(l), Value(d[..i]), c, Value(a[..i]) + c0, Value(b[..i]),
            Num(a[i]), Num(b[i]), Num(ToBits(l, s)), Rest(l, s));
  }

  lemma CarryEnd(l: nat, d: seq<Limb>, a: seq<Limb>, b: seq<Limb>, c0: nat, c: nat, n: nat)
    requires Words(l, d) && Carried(l, d, a, b, c0, c, n)
    ensures Value(d[..n]) == (Value(a[..n]) + Value(b[..n]) + c0) % Range(l, n)
  {
    ValueBound(l, d[..n]);
    ModUnique(Value(a[..n]) + Value(b[..n]) + c0, Range(l, n), c, Value(d[..n]));
  }

  lemma ModShift(y: int, m: nat)
    requires m > 0
    ensures (y + m) % m == y % m
  {
    assert y == y % m + m * (y / m);
    assert m * (y / m + 1) == m * (y / m) + m;
    ModUnique(y + m, m, y / m + 1, y % m);
  }

  lemma NegEnd(l: nat, b: seq<Limb>, x: int)
    requires Words(l, b)
    ensures (x + Value(NotAll(b)) + 1) % Range(l, |b|) == (x - Value(b)) % Range(l, |b|)
  {
    NotValue(l, b);
    ModShift(x - Value(b), Range(l, |b|));
  }

  lemma AddEnd(l: nat, d: seq<Limb>, a: seq<Limb>, b: seq<Limb>, c: nat, n: nat)
    requires Words(l, d) && Carried(l, d, a, b, 0, c, n)
    ensures Value(d[..n]) == (Value(a[..n]) + Value(b[..n])) % Range(l, n)
  {
    CarryEnd(l, d, a, b, 0, c, n);
  }

  lemma SubEnd(l: nat, d: seq<Limb>, a: seq<Limb>, b: seq<Limb>, c: nat, n: nat)
    requires Words(l, d) && Words(l, b) && Carried(l, d, a, NotAll(b), 1, c, n)
    ensures Value(d[..n]) == (Value(a[..n]) - Value(b[..n])) % Range(l, n)
  {
    CarryEnd(l, d, a, NotAll(b), 1, c, n);
    assert NotAll(b)[..n] == NotAll(b[..n]);
    NegEnd(l, b[..n], Value(a[..n]));
  }

  /** The sum modulo the range of `n` limbs; `d` may be `a` or `b`. */
  method Wadd(l: nat, d: array<Limb>, a: array<Limb>, b: array<Limb>, n: nat)
    requires l > 0 && n <= d.Length && n <= a.Length && n <= b.Length
    requires Words(l, d[..]) && Words(l, a[..]) && Words(l, b[..])
    modifies d
    ensures Words(l, d[..]) && d[n..] == old(d[n..])
    ensures Value(d[..n]) == (old(Value(a[..n])) + old(Value(b[..n]))) % Range(l, n)
  {
    ghost var a0, b0 := a[..], b[..];
    var c: nat, i := 0, 0;
    while i < n
      invariant i <= n && Words(l, d[..])
      invariant forall k :: n <= k < d.Length ==> d[k] == old(d[k])
      invariant forall k :: i <= k < n ==> a[k] == a0[k] && b[k] == b0[k]
      invariant Carried(l, d[..], a0, b0, 0, c, i)
    {
      ghost var was := d[..];
      var s := Dword(l, c + Num(a[i]) + Num(b[i]));
      d[i] := ToBits(l, s);
      CarryStep(l, was, d[..], a0, b0, 0, c, i);
      c, i := Rest(l, s), i + 1;
    }
    AddEnd(l, d[..], a0, b0, c, n);
  }

  /** The difference modulo the range of `n` limbs. */
  method Wsub(l: nat, d: array<Limb>, a: array<Limb>, b: array<Limb>, n: nat)
    requires l > 0 && n <= d.Length && n <= a.Length && n <= b.Length
    requires Words(l, d[..]) && Words(l, a[..]) && Words(l, b[..])
    modifies d
    ensures Words(l, d[..]) && d[n..] == old(d[n..])
    ensures Value(d[..n]) == (old(Value(a[..n])) - old(Value(b[..n]))) % Range(l, n)
  {
    ghost var a0, b0 := a[..], b[..];
    ghost var nb := NotAll(b0);
    var c: nat, i := 1, 0;
    while i < n
      invariant i <= n && Words(l, d[..])
      invariant forall k :: n <= k < d.Length ==> d[k] == old(d[k])
      invariant forall k :: i <= k < n ==> a[k] == a0[k] && b[k] == b0[k]
      invariant Carried(l, d[..], a0, nb, 1, c, i)
    {
      ghost var was := d[..];
      var s := Dword(l, c + Num(a[i]) + Num(NotW(b[i])));
      d[i] := ToBits(l, s);
      CarryStep(l, was, d[..], a0, nb, 1, c, i);
      c, i := Rest(l, s), i + 1;
    }
    SubEnd(l, d[..], a0, b0, c, n);
  }

  function ZeroLimbs(l: nat, n: nat): (z: seq<Limb>)
    ensures |z| == n && Words(l, z)
  {
    seq(n, _ => Zeros(l))
  }

  lemma {:induction false} ZeroLimbsValue(l: nat, n: nat)
    ensures Value(ZeroLimbs(l, n)) == 0
  {
    if n == 0 {
    } else {
      ZeroLimbsValue(l, n - 1);
      assert ZeroLimbs(l, n) == ZeroLimbs(l, n - 1) + [Zeros(l)];
      ValueTop(l, ZeroLimbs(l, n - 1), Zeros(l));
      NumZeros(l);
    }
  }

  /** The state of the negation after `i` limbs: zero less the number. */
  ghost predicate Negating(l: nat, d: seq<Limb>, a: seq<Limb>, c: nat, i: nat) {
    Carried(l, d, ZeroLimbs(l, |a|), NotAll(a), 1, c, i)
  }

  lemma NegStep(l: nat, d: seq<Limb>, d': seq<Limb>, a: seq<Limb>, c: nat, i: nat)
    requires l > 0 && Words(l, d) && Words(l, a) && i < |d| && i < |a| && Negating(l, d, a, c, i)
    requires d' == d[i := ToBits(l, Dword(l, c + Num(NotW(a[i]))))]
    ensures Words(l, d') && Negating(l, d', a, Rest(l, Dword(l, c + Num(NotW(a[i])))), i + 1)
  {
    var z := ZeroLimbs(l, |a|);
    NumZeros(l);
    assert z[i] == Zeros(l);
    CarryStep(l, d, d', z, NotAll(a), 1, c, i);
  }

  lemma NegDone(l: nat, d: seq<Limb>, a: seq<Limb>, c: nat, n: nat)
    requires Words(l, d) && Words(l, a) && n <= |a| && n <= |d| && Negating(l, d, a, c, n)
    ensures Value(d[..n]) == (0 - Value(a[..n])) % Range(l, n)
  {
    var z := ZeroLimbs(l, |a|);
    assert z[..n] == ZeroLimbs(l, n);
    ZeroLimbsValue(l, n);
    SubEnd(l, d, z, a, c, n);
  }

  /** The two's complement. */
  method Wneg(l: nat, d: array<Limb>, a: array<Limb>, n: nat)
    requires l > 0 && n <= d.Length && n <= a.Length && Words(l, d[..]) && Words(l, a[..])
    modifies d
    ensures Words(l, d[..]) && d[n..] == old(d[n..])
    ensures Value(d[..n]) == (0 - old(Value(a[..n]))) % Range(l, n)
  {
    ghost var a0 := a[..];
    var c: nat, i := 1, 0;
    while i < n
      invariant i <= n && Words(l, d[..])
      invariant forall k :: n <= k < d.Length ==> d[k] == old(d[k])
      invariant forall k :: i <= k < n ==> a[k] == a0[k]
      invariant Negating(l, d[..], a0, c, i)
    {
      ghost var was := d[..];
      var s := Dword(l, c + Num(NotW(a[i])));
      d[i] := ToBits(l, s);
      NegStep(l, was, d[..], a0, c, i);
      c, i := Rest(l, s), i + 1;
    }
    NegDone(l, d[..], a0, c, n);
  }

  // ---------------------------------------------------------------- multiply

  lemma ProductBound(P: nat, x: nat, y: nat, t: nat, c: nat)
    requires x < P && y < P && t < P && c < P
    ensures x * y + t + c < P * P
  {
    MulMono(x, y, P - 1);
    MulMono(P - 1, x, P - 1);
    assert x * (P - 1) == (P - 1) * x;
    assert (P - 1) * (P - 1) == P * P - P - P + 1;
  }

  lemma HighBound(P: nat, dig: nat, q: nat)
    requires dig + P * q < P * P
    ensures q < P
  {
    if q >= P { MulMono(P, P, q); }
  }

  lemma DwordSplit(l: nat, p: nat)
    requires p < Pow2(l) * Pow2(l)
    ensures Dword(l, p) == p && p == Num(ToBits(l, p)) + Pow2(l) * Rest(l, p) && Rest(l, p) < Pow2(l)
  {
    DwordExact(l, p);
    SplitNum(l, p);
    HighBound(Pow2(l), Num(ToBits(l, p)), Rest(l, p));
  }

  lemma ProductFits(l: nat, x: Limb, y: Limb, t: Limb, c: nat)
    requires |x| == |y| == |t| == l && c < Pow2(l)
    ensures Num(x) * Num(y) + Num(t) + c < Pow2(l) * Pow2(l)
  {
    NumBound(x);
    NumBound(y);
    NumBound(t);
    ProductBound(Pow2(l), Num(x), Num(y), Num(t), c);
  }

  /** One partial product, the old digit and a carry: the double word does not overflow. */
  lemma MulCarry(l: nat, x: Limb, y: Limb, t: Limb, c: nat) returns (p: nat)
    requires |x| == |y| == |t| == l && c < Pow2(l)
    ensures p == Num(x) * Num(y) + Num(t) + c && Dword(l, p) == p
    ensures p == Num(ToBits(l, p)) + Pow2(l) * Rest(l, p) && Rest(l, p) < Pow2(l)
  {
    p := Num(x) * Num(y) + Num(t) + c;
    ProductFits(l, x, y, t, c);
    DwordSplit(l, p);
  }

  /** The state of a row of the schoolbook product after `j` limbs of `b`. */
  ghost predicate RowDone(l: nat, t: seq<Limb>, t0: seq<Limb>, x: nat, b: seq<Limb>, c: nat, j: nat) {
    && c < Pow2(l) && |t| == |t0| && j <= |t| && j <= |b|
    && t[j..] == t0[j..]
    && Value(t[..j]) + Range(l, j) * c == Value(t0[..j]) + x * Value(b[..j])
  }

  lemma RowArith(R: nat, P: nat, v: nat, c: nat, v0: nat, x: nat, vb: nat, y: nat, t: nat, dig: nat, c': nat)
    requires v + R * c == v0 + x * vb && x * y + t + c == dig + P * c'
    ensures (v + R * dig) + R * P * c' == (v0 + R * t) + x * (vb + R * y)
  {
    MulAssoc(R, P, c');
    assert R * (x * y + t + c) == R * (x * y) + R * t + R * c;
    assert R * (dig + P * c') == R * dig + R * (P * c');
    assert x * (vb + R * y) == x * vb + x * (R * y);
    assert x * (R * y) == R * (x * y);
  }

  lemma RowStep(l: nat, t: seq<Limb>, t': seq<Limb>, t0: seq<Limb>, x: Limb, b: seq<Limb>, c: nat, j: nat)
    requires Words(l, t) && Words(l, t0) && Words(l, b) && |x| == l && j < |t| && j < |b|
    requires RowDone(l, t, t0, Num(x), b, c, j)
    requires t' == t[j := ToBits(l, Dword(l, Num(x) * Num(b[j]) + Num(t[j]) + c))]
    ensures Words(l, t')
    ensures RowDone(l, t', t0, Num(x), b, Rest(l, Dword(l, Num(x) * Num(b[j]) + Num(t[j]) + c)), j + 1)
  {
    var p := MulCarry(l, x, b[j], t[j], c);
    assert t[j] == t[j..][0] == t0[j];
    assert t'[..j] == t[..j];
    Grow(l, t', j);
    Grow(l, t0, j);
    Grow(l, b, j);
    RowArith(Range(l, j), Pow2(l), Value(t[..j]), c, Value(t0[..j]), Num(x), Value(b[..j]),
             Num(b[j]), Num(t[j]), Num(ToBits(l, p)), Rest(l, p));
  }

  lemma RowTurn(l: nat, t: seq<Limb>, t': seq<Limb>, t0: seq<Limb>, x: Limb, b: seq<Limb>, i: nat, n: nat, c: nat, j: nat)
    requires Words(l, t) && Words(l, t0) && Words(l, b) && |x| == l && i + j < n <= |t| && j < |b|
    requires RowDone(l, t[i..n], t0, Num(x), b, c, j)
    requires t' == t[i + j := ToBits(l, Dword(l, Num(x) * Num(b[j]) + Num(t[i + j]) + c))]
    ensures Words(l, t') && t'[..i] == t[..i] && t'[n..] == t[n..]
    ensures RowDone(l, t'[i..n], t0, Num(x), b, Rest(l, Dword(l, Num(x) * Num(b[j]) + Num(t[i + j]) + c)), j + 1)
  {
    assert t[i..n][j] == t[i + j];
    assert t'[i..n] == t[i..n][j := t'[i + j]];
    RowStep(l, t[i..n], t'[i..n], t0, x, b, c, j);
  }

  /** One row: adds `x * b`, placed `i` limbs up, to `t` modulo the range; returns the carry it drops. */
  method MulRow(l: nat, t: array<Limb>, x: Limb, b: array<Limb>, i: nat, n: nat) returns (c: nat)
    requires t != b && |x| == l && i <= n <= b.Length && n <= t.Length && Words(l, t[..]) && Words(l, b[..])
    modifies t
    ensures Words(l, t[..]) && t[..i] == old(t[..i]) && t[n..] == old(t[n..])
    ensures Value(t[i..n]) + Range(l, n - i) * c == old(Value(t[i..n])) + Num(x) * Value(b[..n-i])
  {
    ghost var t0, b0 := t[i..n], b[..n];
    c := 0;
    var j := 0;
    assert t[i..i] == [] && b0[..0] == [] && t0[..0] == [];
    while i + j < n
      invariant j <= n - i && Words(l, t[..]) && t[..i] == old(t[..i]) && t[n..] == old(t[n..])
      invariant RowDone(l, t[..][i..n], t0, Num(x), b0, c, j)
    {
      ghost var was := t[..];
      var p := Dword(l, Num(x) * Num(b[j]) + Num(t[i + j]) + c);
      t[i + j] := ToBits(l, p);
      RowTurn(l, was, t[..], t0, x, b0, i, n, c, j);
      c, j := Rest(l, p), j + 1;
    }
    assert t[i..n][..j] == t[i..n] && t0[..j] == t0 && b0[..j] == b[..n-i];
  }

  lemma {:induction false} RangeAdd(l: nat, i: nat, j: nat)
    ensures Range(l, i + j) == Range(l, i) * Range(l, j)
    decreases j
  {
    if j == 0 {
    } else {
      RangeAdd(l, i, j - 1);
      MulAssoc(Range(l, i), Range(l, j - 1), Pow2(l));
    }
  }

  lemma RowTerm(Ri: nat, Rj: nat, x: nat, bl: nat, bh: nat)
    ensures Ri * x * (bl + Rj * bh) == Ri * (x * bl) + Ri * Rj * (x * bh)
  {
    var B := bl + Rj * bh;
    assert Ri * x * B == Ri * (x * B);
    assert x * B == x * bl + x * (Rj * bh);
    assert x * (Rj * bh) == Rj * (x * bh);
    assert Ri * (x * bl + Rj * (x * bh)) == Ri * (x * bl) + Ri * (Rj * (x * bh));
    assert Ri * (Rj * (x * bh)) == Ri * Rj * (x * bh);
  }

  /** The row's equation lifted to the whole product: `Q` counts the ranges dropped so far. */
  lemma ProductArith(Ri: nat, Rj: nat, lo: nat, hi: nat, hi': nat, c: nat, x: nat, va: nat, bl: nat, bh: nat, Q: nat)
    requires hi' + Rj * c == hi + x * bl
    requires (lo + Ri * hi) + Ri * Rj * Q == va * (bl + Rj * bh)
    ensures (lo + Ri * hi') + Ri * Rj * (Q + c + x * bh) == (va + Ri * x) * (bl + Rj * bh)
  {
    var B := bl + Rj * bh;
    assert Ri * (hi' + Rj * c) == Ri * hi' + Ri * Rj * c;
    assert Ri * (hi + x * bl) == Ri * hi + Ri * (x * bl);
    assert Ri * Rj * (Q + c + x * bh) == Ri * Rj * Q + Ri * Rj * c + Ri * Rj * (x * bh);
    assert (va + Ri * x) * B == va * B + Ri * x * B;
    RowTerm(Ri, Rj, x, bl, bh);
  }

  /** `t` is the product of `b` and the first `i` limbs of `a`, up to dropped multiples of the range. */
  ghost predicate Product(l: nat, t: seq<Limb>, a: seq<Limb>, b: seq<Limb>, i: nat, Q: nat) {
    i <= |a| && Value(t) + Range(l, |t|) * Q == Value(a[..i]) * Value(b)
  }

  lemma ProductParts(l: nat, t: seq<Limb>, t': seq<Limb>, a: seq<Limb>, b: seq<Limb>, i: nat)
    requires Words(l, t) && Words(l, t') && Words(l, a) && Words(l, b)
    requires |t| == |t'| == |a| == |b| && i < |a| && t'[..i] == t[..i]
    ensures Value(t) == Value(t[..i]) + Range(l, i) * Value(t[i..])
    ensures Value(t') == Value(t[..i]) + Range(l, i) * Value(t'[i..])
    ensures Value(b) == Value(b[..|b| - i]) + Range(l, |b| - i) * Value(b[|b| - i..])
    ensures Value(a[..i+1]) == Value(a[..i]) + Range(l, i) * Num(a[i])
    ensures Range(l, |t|) == Range(l, i) * Range(l, |t| - i)
  {
    ValueSplit(l, t, i);
    ValueSplit(l, t', i);
    ValueSplit(l, b, |b| - i);
    Grow(l, a, i);
    RangeAdd(l, i, |t| - i);
  }

  lemma ProductStep(l: nat, t: seq<Limb>, t': seq<Limb>, a: seq<Limb>, b: seq<Limb>, i: nat, c: nat, Q: nat)
    returns (Q': nat)
    requires Words(l, t) && Words(l, t') && Words(l, a) && Words(l, b)
    requires |t| == |t'| == |a| == |b| && i < |a| && Product(l, t, a, b, i, Q) && t'[..i] == t[..i]
    requires Value(t'[i..]) + Range(l, |t| - i) * c == Value(t[i..]) + Num(a[i]) * Value(b[..|t| - i])
    ensures Product(l, t', a, b, i + 1, Q')
  {
    var n := |t|;
    ProductParts(l, t, t', a, b, i);
    Q' := Q + c + Num(a[i]) * Value(b[n - i..]);
    ProductArith(Range(l, i), Range(l, n - i), Value(t[..i]), Value(t[i..]), Value(t'[i..]), c, Num(a[i]),
                 Value(a[..i]), Value(b[..n - i]), Value(b[n - i..]), Q);
  }

  /** The temporary of the emitted multiplication: 128 limbs of 32 bits, 64 of 64. */
  function Scratch(l: nat): nat { if l == 64 then 64 else 128 }

  /** The product modulo the range of `n` limbs; `d` may be `a` or `b`. */
  method Wmul(l: nat, d: array<Limb>, a: array<Limb>, b: array<Limb>, n: nat)
    requires n <= d.Length && n <= a.Length && n <= b.Length && n <= Scratch(l)
    requires Words(l, d[..]) && Words(l, a[..]) && Words(l, b[..])
    modifies d
    ensures Words(l, d[..]) && d[n..] == old(d[n..])
    ensures Value(d[..n]) == (old(Value(a[..n])) * old(Value(b[..n]))) % Range(l, n)
  {
    var t := new Limb[n](_ => Zeros(l));
    ghost var Q: nat := 0;
    ghost var a0, b0 := a[..n], b[..n];
    assert t[..] == ZeroLimbs(l, n);
    ZeroLimbsValue(l, n);
    assert a0[..0] == [];
    var i := 0;
    while i < n
      invariant i <= n && Words(l, t[..]) && d[..] == old(d[..]) && a[..n] == a0 && b[..n] == b0
      invariant Product(l, t[..], a0, b0, i, Q)
    {
      ghost var was := t[..];
      var c := MulRow(l, t, a[i], b, i, n);
      assert was[i..n] == was[i..] && t[i..n] == t[..][i..] && b[..n-i] == b0[..n-i];
      assert t[..][..i] == was[..i];
      Q := ProductStep(l, was, t[..], a0, b0, i, c, Q);
      i := i + 1;
    }
    assert a0[..n] == a0;
    ValueBound(l, t[..]);
    ModUnique(Value(a0) * Value(b0), Range(l, n), Q, Value(t[..]));
    CopyLimbs(d, t, n);
    assert d[..n] == t[..];
    assert forall k :: n <= k < d.Length ==> d[k] == d[n..][k - n];
  }

  /** `wcopy`. */
  method CopyLimbs(d: array<Limb>, a: array<Limb>, n: nat)
    requires n <= d.Length && n <= a.Length && d != a
    modifies d
    ensures d[..n] == a[..n] && d[n..] == old(d[n..])
  {
    var i := 0;
    while i < n
      invariant i <= n && d[..i] == a[..i] && d[n..] == old(d[n..])
    {
      d[i] := a[i];
      i := i + 1;
    }
  }
}
