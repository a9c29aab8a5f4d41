/** Little-endian bit strings and the numbers they spell. */
module Bits {

  /** Bit 0 is the least significant one. */
  function Num(b: seq<bool>): (v: nat)
  {
    if b == [] then 0 else (if b[0] then 1 else 0) + 2 * Num(b[1..])
  }

  function Pow2(n: nat): (p: nat)
    ensures p > 0
  {
    if n == 0 then 1 else 2 * Pow2(n - 1)
  }

  function Zeros(n: nat): (z: seq<bool>)
    ensures |z| == n
  {
    seq(n, _ => false)
  }

  /** The low `n` bits of `v`: truncation to an `n`-bit word. */
  function ToBits(n: nat, v: nat): (b: seq<bool>)
    ensures |b| == n
  {
    if n == 0 then [] else [v % 2 == 1] + ToBits(n - 1, v / 2)
  }

  /** `v` shifted right by `n`. */
  function Rest(n: nat, v: nat): (q: nat)
  {
    if n == 0 then v else Rest(n - 1, v / 2)
  }

  // ---------------------------------------------------------------- arithmetic of products

  lemma MulAssoc(a: int, b: int, c: int)
    ensures a * b * c == a * (b * c)
  {
  }

  lemma MulMono(n: nat, x: nat, y: nat)
    requires x <= y
    ensures n * x <= n * y
  {
    assert n * y == n * x + n * (y - x);
  }

  /** Quotient and remainder by what they satisfy. */
  lemma DivMod(x: nat, m: nat, q: nat, r: nat)
    requires m > 0 && x == r + m * q && r < m
    ensures x % m == r && x / m == q
  {
    var q', r' := x / m, x % m;
    assert x == m * q' + r';
    if q < q' { MulMono(m, q + 1, q'); }
    if q' < q { MulMono(m, q' + 1, q); }
  }

  // ---------------------------------------------------------------- numbers of bit strings

  lemma {:induction false} NumBound(b: seq<bool>)
    ensures Num(b) < Pow2(|b|)
  {
    if b == [] {
    } else {
      NumBound(b[1..]);
    }
  }

  lemma {:induction false} NumAppend(a: seq<bool>, b: seq<bool>)
    ensures Num(a + b) == Num(a) + Pow2(|a|) * Num(b)
  {
    if a == [] {
      assert a + b == b;
    } else {
      assert (a + b)[1..] == a[1..] + b;
      NumAppend(a[1..], b);
      MulAssoc(2, Pow2(|a| - 1), Num(b));
    }
  }

  lemma {:induction false} Pow2Add(m: nat, n: nat)
    ensures Pow2(m + n) == Pow2(m) * Pow2(n)
  {
    if m == 0 {
    } else {
      Pow2Add(m - 1, n);
      MulAssoc(2, Pow2(m - 1), Pow2(n));
    }
  }

  lemma {:induction false} NumZeros(n: nat)
    ensures Num(Zeros(n)) == 0
  {
    if n == 0 {
    } else {
      assert Zeros(n)[1..] == Zeros(n - 1);
      NumZeros(n - 1);
    }
  }

  /** A number has only one spelling of a given length. */
  lemma {:induction false} NumUnique(a: seq<bool>, b: seq<bool>)
    requires |a| == |b| && Num(a) == Num(b)
    ensures a == b
  {
    if a == [] {
    } else {
      NumUnique(a[1..], b[1..]);
      assert a == [a[0]] + a[1..] && b == [b[0]] + b[1..];
    }
  }

  /** Truncation and shift split a number. */
  lemma {:induction false} SplitNum(n: nat, v: nat)
    ensures v == Num(ToBits(n, v)) + Pow2(n) * Rest(n, v)
  {
    if n == 0 {
    } else {
      SplitNum(n - 1, v / 2);
      assert ToBits(n, v)[1..] == ToBits(n - 1, v / 2);
      MulAssoc(2, Pow2(n - 1), Rest(n, v));
    }
  }

  lemma TruncIsMod(n: nat, v: nat)
    ensures Num(ToBits(n, v)) == v % Pow2(n) && Rest(n, v) == v / Pow2(n)
  {
    SplitNum(n, v);
    NumBound(ToBits(n, v));
    DivMod(v, Pow2(n), Rest(n, v), Num(ToBits(n, v)));
  }

  /** Dropping low bits divides, keeping them takes the remainder. */
  lemma SliceNum(b: seq<bool>, n: nat)
    requires n <= |b|
    ensures Num(b[n..]) == Num(b) / Pow2(n) && Num(b[..n]) == Num(b) % Pow2(n)
  {
    assert b == b[..n] + b[n..];
    NumAppend(b[..n], b[n..]);
    NumBound(b[..n]);
    DivMod(Num(b), Pow2(n), Num(b[n..]), Num(b[..n]));
  }

  /** Zero extension keeps the number. */
  lemma PadNum(b: seq<bool>, n: nat)
    ensures Num(b + Zeros(n)) == Num(b)
  {
    NumAppend(b, Zeros(n));
    NumZeros(n);
  }

  /** Shifting zeros in from below multiplies. */
  lemma ShiftNum(b: seq<bool>, n: nat)
    ensures Num(Zeros(n) + b) == Pow2(n) * Num(b)
  {
    NumAppend(Zeros(n), b);
    NumZeros(n);
  }

  /** `w` bits from bit `off`; bits past the end read as 0. */
  function Window(b: seq<bool>, off: nat, w: nat): (r: seq<bool>)
    ensures |r| == w
  {
    seq(w, j requires 0 <= j => off + j < |b| && b[off + j])
  }

  lemma {:induction false} WindowIsToBits(b: seq<bool>, off: nat, w: nat)
    ensures Window(b, off, w) == ToBits(w, Rest(off, Num(b)))
    decreases off, w
  {
    if off > 0 {
      if b == [] {
        WindowIsToBits(b, off - 1, w);
        assert Window(b, off, w) == Window(b, off - 1, w);
      } else {
        WindowIsToBits(b[1..], off - 1, w);
        assert Window(b, off, w) == Window(b[1..], off - 1, w);
        assert Num(b) / 2 == Num(b[1..]);
      }
    } else if w > 0 {
      var c := if b == [] then [] else b[1..];
      WindowIsToBits(c, 0, w - 1);
      assert Window(b, 0, w) == [b != [] && b[0]] + Window(c, 0, w - 1);
      assert Num(b) / 2 == Num(c);
    }
  }

  /** Taking a window divides and truncates. */
  lemma WindowNum(b: seq<bool>, off: nat, w: nat)
    ensures Num(Window(b, off, w)) == (Num(b) / Pow2(off)) % Pow2(w)
  {
    WindowIsToBits(b, off, w);
    TruncIsMod(off, Num(b));
    TruncIsMod(w, Rest(off, Num(b)));
  }
}
