/** Wide cells. */
module WideCell {
  // Wide cells: operands gathered into limbs, one runtime call, the result scattered over the
  // output slices.  Each emitted cell is proved against the operation on the signals' numbers.

  import opened Bits
  import opened Limbs
  import opened BitField
  import opened WideArith
  import opened WideShift
  import opened WideSig
  import opened WideSigned

  // ---------------------------------------------------------------- truncation to the output width

  lemma ModMod(x: int, m: nat, n: nat)
    requires m > 0 && n > 0
    ensures m * n > 0 && (x % (m * n)) % m == x % m
  {
    MulMono(m, 1, n);
    var q, r := x / (m * n), x % (m * n);
    assert x == (m * n) * q + r;
    assert (m * n) * q == m * (n * q);
    var q', r' := r / m, r % m;
    assert r == m * q' + r';
    assert m * (n * q) + m * q' == m * (n * q + q');
    ModUnique(x, m, n * q + q', r');
  }

  /** The low bits of a result that is right modulo the range of its limbs. */
  lemma LowBits(l: nat, d: seq<Limb>, yw: nat, x: int)
    requires Words(l, d) && yw <= |Flat(d)| && Value(d) == x % Range(l, |d|)
    ensures Window(Flat(d), 0, yw) == Trunc(yw, x)
  {
    var rest := |Flat(d)| - yw;
    RangeIsPow2(l, d);
    Pow2Add(yw, rest);
    ModMod(x, Pow2(yw), Pow2(rest));
    WindowNum(Flat(d), 0, yw);
    TruncIsMod(yw, x % Pow2(yw));
    DivMod(x % Pow2(yw), Pow2(yw), 0, x % Pow2(yw));
    NumUnique(Window(Flat(d), 0, yw), Trunc(yw, x));
  }

  /** The limbs of the widest of the three signals hold `w` bits. */
  lemma Roomy(l: nat, d: seq<Limb>, m: nat, w: nat)
    requires l > 0 && Words(l, d) && w <= m && |d| == Nlimbs(l, m)
    ensures Nlimbs(l, w) <= |d| && w <= |Flat(d)|
  {
    if w > 0 {
      LimbMono(l, w - 1, m - 1);
      FlatAt(l, d, w - 1);
    }
  }

  lemma NlimbsMono(l: nat, w: nat, m: nat)
    requires l > 0 && w <= m
    ensures Nlimbs(l, w) <= Nlimbs(l, m)
  {
    if w > 0 { LimbMono(l, w - 1, m - 1); }
  }

  /** Everything but the output slices is as before. */
  ghost predicate OnlyWrites(l: nat, st: seq<Wire>, st': seq<Wire>, y: seq<Piece>)
    requires l > 0
  {
    && SameShape(st, st')
    && forall wire: nat, k: nat :: wire < |st| && k < st[wire].width && !Covered(y, wire, k) ==>
      WireBit(l, st'[wire], k) == WireBit(l, st[wire], k)
  }

  ghost predicate Covered(y: seq<Piece>, wire: nat, k: nat) {
    exists i :: 0 <= i < |y| && Covers(y[i], wire, k)
  }

  lemma ScatterWritesOnly(l: nat, st: seq<Wire>, st': seq<Wire>, y: seq<Piece>, wy: seq<Limb>)
    requires l > 0 && Scattered(l, st, st', y, wy)
    ensures OnlyWrites(l, st, st', y)
  {
    forall wire: nat, k: nat | wire < |st| && k < st[wire].width && !Covered(y, wire, k)
      ensures WireBit(l, st'[wire], k) == WireBit(l, st[wire], k)
    {
      ScatterFrame(l, st, st', y, wy, wire, k);
    }
  }

  // ---------------------------------------------------------------- the bitwise runtime

  function WordOp(op: BitOp, x: Limb, y: Limb): (r: Limb)
    requires |x| == |y|
    ensures |r| == |x|
    ensures forall j :: 0 <= j < |x| ==> r[j] == OnBits(op, x[j], y[j])
  {
    match op
    case And => AndW(x, y)
    case Or => OrW(x, y)
    case Xor => XorW(x, y)
    case Xnor => NotW(XorW(x, y))
    case Not => NotW(x)
  }

  /** `wand`, `wor_`, `wxor`, `wxor` then `wnot`, and `wnot`. */
  method Wbitwise(l: nat, op: BitOp, d: array<Limb>, a: array<Limb>, b: array<Limb>, n: nat)
    requires d != a && d != b && n <= d.Length && n <= a.Length && n <= b.Length
    requires Words(l, d[..]) && Words(l, a[..]) && Words(l, b[..])
    modifies d
    ensures Words(l, d[..])
    ensures forall i :: 0 <= i < n ==> d[i] == WordOp(op, a[i], b[i])
  {
    for i := 0 to n
      invariant Words(l, d[..]) && forall k :: 0 <= k < i ==> d[k] == WordOp(op, a[k], b[k])
    {
      d[i] := WordOp(op, a[i], b[i]);
    }
  }

  /** Limb by limb is bit by bit. */
  lemma BitwiseWindow(l: nat, op: BitOp, d: seq<Limb>, a: seq<Limb>, b: seq<Limb>, yw: nat)
    requires l > 0 && Words(l, d) && Words(l, a) && Words(l, b) && |d| == |a| == |b| && yw <= |Flat(d)|
    requires forall i :: 0 <= i < |d| ==> d[i] == WordOp(op, a[i], b[i])
    ensures forall k: nat :: k < yw ==> Window(Flat(d), 0, yw)[k] == OnBits(op, Bit(l, a, k), Bit(l, b, k))
  {
    forall k: nat | k < yw
      ensures Window(Flat(d), 0, yw)[k] == OnBits(op, Bit(l, a, k), Bit(l, b, k))
    {
      FlatAt(l, d, k);
      var q := LimbOf(l, k);
      assert d[q][BitOf(l, k)] == OnBits(op, a[q][BitOf(l, k)], b[q][BitOf(l, k)]);
    }
  }

  /** A bit of a zero-extended operand. */
  lemma ExtendedBit(l: nat, a: seq<Limb>, b: seq<bool>, k: nat)
    requires l > 0 && Words(l, a) && |b| <= |Flat(a)| && Flat(a) == Extend(b, |Flat(a)|, false)
    ensures Bit(l, a, k) == At(b, k)
  {
    FlatAt(l, a, k);
  }

  // ---------------------------------------------------------------- the cells

  function Max3(a: nat, b: nat, c: nat): (m: nat)
    ensures a <= m && b <= m && c <= m
  {
    Max(a, Max(b, c))
  }

  /** The limbs of its temporary that a multiplication of `n` limbs clears and accumulates in. */
  predicate Touched(n: nat, k: nat) { k < n }

  /** A multiplication runs past its temporary exactly when the widest of its signals has more than 4096 bits,
      for 32-bit and 64-bit limbs alike. */
  lemma ScratchExact(l: nat, m: nat)
    requires LimbWidth(l)
    ensures (exists k: nat :: Touched(Nlimbs(l, m), k) && k >= Scratch(l)) <==> m > 4096
    ensures Scratch(l) == if l == 32 then 128 else 64
  {
    var n := Nlimbs(l, m);
    if m > 0 {
      LimbBit(l, m - 1);
      assert n == LimbOf(l, m - 1) + 1;
      if m > 4096 { assert Touched(n, Scratch(l)); }
    }
  }

  /** `$add`, `$sub`, `$mul`, `$neg`: the runtime call. */
  method RunArith(l: nat, op: ArithOp, wy: array<Limb>, wa: array<Limb>, wb: array<Limb>, n: nat)
    requires l > 0 && wy.Length == wa.Length == wb.Length == n && wy != wa && wy != wb
    requires Words(l, wy[..]) && Words(l, wa[..]) && Words(l, wb[..])
    requires op.Mul? ==> n <= Scratch(l)
    modifies wy
    ensures Words(l, wy[..])
    ensures Value(wy[..]) == Exact(op, Value(wa[..]), Value(wb[..])) % Range(l, n)
  {
    assert wa[..n] == wa[..] && wb[..n] == wb[..];
    match op {
      case Add => Wadd(l, wy, wa, wb, n);
      case Sub => Wsub(l, wy, wa, wb, n);
      case Mul => Wmul(l, wy, wa, wb, n);
      case Neg => Wneg(l, wy, wa, n);
    }
    assert wy[..n] == wy[..];
  }

  /** Storing a limb result and reading the output back. */
  method Store(l: nat, st: array<Wire>, y: seq<Piece>, wy: array<Limb>)
    requires LimbWidth(l) && StoreOk(l, st[..]) && SigOk(st[..], y) && AllSlices(y) && Disjoint(y)
    requires Words(l, wy[..]) && Nlimbs(l, SigLen(y, |y|)) <= wy.Length
    modifies st
    ensures StoreOk(l, st[..]) && OnlyWrites(l, old(st[..]), st[..], y)
    ensures SigOk(st[..], y) && SigBits(l, st[..], y, |y|) == Window(Flat(wy[..]), 0, SigLen(y, |y|))
  {
    ghost var st0 := st[..];
    PutVal(l, st, y, wy);
    GatherScattered(l, st0, st[..], y, wy[..]);
    ScatterWritesOnly(l, st0, st[..], y, wy[..]);
  }

  /** An emitted arithmetic cell leaves the low bits of the exact result in its output and nothing else changed. */
  method EmitArith(l: nat, st: array<Wire>, op: ArithOp, a: seq<Piece>, b: seq<Piece>, y: seq<Piece>)
    requires LimbWidth(l) && StoreOk(l, st[..]) && SigOk(st[..], a) && SigOk(st[..], b) && SigOk(st[..], y)
    requires |a| > 0 && |b| > 0 && AllSlices(y) && Disjoint(y)
    requires op.Mul? ==> Nlimbs(l, Max3(SigLen(y, |y|), SigLen(a, |a|), SigLen(b, |b|))) <= Scratch(l)
    modifies st
    ensures StoreOk(l, st[..]) && OnlyWrites(l, old(st[..]), st[..], y) && SigOk(st[..], y)
    ensures SigBits(l, st[..], y, |y|) == Trunc(SigLen(y, |y|),
      Exact(op, Num(SigBits(l, old(st[..]), a, |a|)), Num(SigBits(l, old(st[..]), b, |b|))))
    ensures SigLen(a, |a|) > 0 && SigLen(b, |b|) > 0
    ensures ArithSafe(op, SigLen(y, |y|), SigLen(a, |a|), SigLen(b, |b|)) ==>
      SigBits(l, st[..], y, |y|) == Trunc(SigLen(y, |y|),
        Exact(op, SignedNum(SigBits(l, old(st[..]), a, |a|)), SignedNum(SigBits(l, old(st[..]), b, |b|))))
  {
    SigWidth(st[..], a);
    SigWidth(st[..], b);
    var yw, aw, bw := SigLen(y, |y|), SigLen(a, |a|), SigLen(b, |b|);
    var m := Max3(yw, aw, bw);
    var ng := Nlimbs(l, m);
    NlimbsMono(l, aw, m);
    NlimbsMono(l, bw, m);
    ghost var st0 := st[..];
    var wa := Materialize(l, st[..], a, ng, false);
    var wb := Materialize(l, st[..], b, ng, false);
    var wy := new Limb[ng](_ => Zeros(l));
    ExtendNum(SigBits(l, st0, a, |a|), |Flat(wa[..])|);
    ExtendNum(SigBits(l, st0, b, |b|), |Flat(wb[..])|);
    RunArith(l, op, wy, wa, wb, ng);
    Roomy(l, wy[..], m, yw);
    LowBits(l, wy[..], yw, Exact(op, Value(wa[..]), Value(wb[..])));
    assert st[..] == st0;
    Store(l, st, y, wy);
    if ArithSafe(op, yw, aw, bw) { ArithSafeAgrees(op, yw, SigBits(l, st0, a, |a|), SigBits(l, st0, b, |b|)); }
  }

  /** An emitted bitwise cell: every output bit is the operation on the zero-extended operand bits. */
  method EmitBitwise(l: nat, st: array<Wire>, op: BitOp, a: seq<Piece>, b: seq<Piece>, y: seq<Piece>)
    requires LimbWidth(l) && StoreOk(l, st[..]) && SigOk(st[..], a) && SigOk(st[..], b) && SigOk(st[..], y)
    requires |a| > 0 && |b| > 0 && AllSlices(y) && Disjoint(y)
    modifies st
    ensures StoreOk(l, st[..]) && OnlyWrites(l, old(st[..]), st[..], y) && SigOk(st[..], y)
    ensures forall k: nat :: k < SigLen(y, |y|) ==>
      SigBits(l, st[..], y, |y|)[k] ==
      OnBits(op, At(SigBits(l, old(st[..]), a, |a|), k), At(SigBits(l, old(st[..]), b, |b|), k))
  {
    var yw, aw, bw := SigLen(y, |y|), SigLen(a, |a|), SigLen(b, |b|);
    var m := Max3(yw, aw, bw);
    var ng := Nlimbs(l, m);
    NlimbsMono(l, aw, m);
    NlimbsMono(l, bw, m);
    ghost var st0 := st[..];
    var wa := Materialize(l, st[..], a, ng, false);
    var wb := Materialize(l, st[..], b, ng, false);
    var wy := new Limb[ng](_ => Zeros(l));
    Wbitwise(l, op, wy, wa, wb, ng);
    Roomy(l, wy[..], m, yw);
    BitwiseWindow(l, op, wy[..], wa[..], wb[..], yw);
    forall k: nat | k < yw
      ensures Window(Flat(wy[..]), 0, yw)[k] == OnBits(op, At(SigBits(l, st0, a, |a|), k), At(SigBits(l, st0, b, |b|), k))
    {
      ExtendedBit(l, wa[..], SigBits(l, st0, a, |a|), k);
      ExtendedBit(l, wb[..], SigBits(l, st0, b, |b|), k);
    }
    assert st[..] == st0;
    Store(l, st, y, wy);
  }

  /** The runtime call of a shift. */
  method RunShift(l: nat, left: bool, wy: array<Limb>, wa: array<Limb>, s: nat, n: nat)
    requires LimbWidth(l) && wy.Length == wa.Length == n && wy != wa && Words(l, wy[..]) && Words(l, wa[..])
    modifies wy
    ensures Words(l, wy[..])
    ensures Value(wy[..]) == (if left then Pow2(s) * Value(wa[..]) else Value(wa[..]) / Pow2(s)) % Range(l, n)
  {
    assert wa[..n] == wa[..];
    if left { Wshl(l, wy, wa, s, n); } else { Wshr(l, wy, wa, s, n); }
    assert wy[..n] == wy[..];
    if !left { ShiftedInRange(l, wy[..]); }
  }

  /** `$shl` and `$shr`: the shift count is a scalar, converted to an `int`. */
  method EmitShift(l: nat, st: array<Wire>, left: bool, a: seq<Piece>, s: nat, y: seq<Piece>)
    requires LimbWidth(l) && StoreOk(l, st[..]) && SigOk(st[..], a) && SigOk(st[..], y)
    requires |a| > 0 && AllSlices(y) && Disjoint(y)
    requires SigLen(a, |a|) <= INT_RANGE && SigLen(y, |y|) <= INT_RANGE
    requires CountSafe(left, SigLen(y, |y|), SigLen(a, |a|), s)
    modifies st
    ensures StoreOk(l, st[..]) && OnlyWrites(l, old(st[..]), st[..], y) && SigOk(st[..], y)
    ensures SigBits(l, st[..], y, |y|) == Trunc(SigLen(y, |y|), Shifted(left, s, Num(SigBits(l, old(st[..]), a, |a|))))
  {
    var yw, aw := SigLen(y, |y|), SigLen(a, |a|);
    var m := Max(yw, aw);
    var ng := Nlimbs(l, m);
    var c: nat := IntCount(s);
    NlimbsMono(l, aw, m);
    ghost var st0 := st[..];
    var wa := Materialize(l, st[..], a, ng, false);
    var wy := new Limb[ng](_ => Zeros(l));
    ghost var b := SigBits(l, st0, a, |a|);
    ExtendNum(b, |Flat(wa[..])|);
    RunShift(l, left, wy, wa, c, ng);
    Roomy(l, wy[..], m, yw);
    LowBits(l, wy[..], yw, Shifted(left, c, Num(b)));
    SameShift(left, s, b, yw);
    assert st[..] == st0;
    Store(l, st, y, wy);
  }

  ghost function Shifted(left: bool, s: nat, x: nat): (v: int) {
    if left then Pow2(s) * x else x / Pow2(s)
  }

  /** A safe count shifts as the whole count does. */
  lemma SameShift(left: bool, s: nat, x: seq<bool>, yw: nat)
    requires 0 < |x| <= INT_RANGE && yw <= INT_RANGE && CountSafe(left, yw, |x|, s)
    ensures Trunc(yw, Shifted(left, IntCount(s), Num(x))) == Trunc(yw, Shifted(left, s, Num(x)))
  {
    CountSame(left, yw, |x|, s);
    forall k: nat | k < yw
      ensures Trunc(yw, Shifted(left, IntCount(s), Num(x)))[k] == Trunc(yw, Shifted(left, s, Num(x)))[k]
    {
      ShiftedBits(x, left, IntCount(s), yw, k);
      ShiftedBits(x, left, s, yw, k);
    }
  }

  lemma ShiftedInRange(l: nat, d: seq<Limb>)
    requires Words(l, d)
    ensures Value(d) == Value(d) % Range(l, |d|)
  {
    ValueBound(l, d);
    DivMod(Value(d), Range(l, |d|), 0, Value(d));
  }

  // ---------------------------------------------------------------- comparisons

  /** Sign extension keeps the signed number. */
  lemma ExtendSigned(b: seq<bool>, n: nat)
    requires 0 < |b| <= n
    ensures SignedNum(Extend(b, n, true)) == SignedNum(b)
  {
    var e := Extend(b, n, true);
    if b[|b| - 1] {
      var ones := seq(n - |b|, _ => true);
      assert e == b + ones;
      NumAppend(b, ones);
      OnesNum(n - |b|);
      Pow2Add(|b|, n - |b|);
      assert Pow2(|b|) * (Pow2(n - |b|) - 1) == Pow2(|b|) * Pow2(n - |b|) - Pow2(|b|);
    } else {
      assert e == Extend(b, n, false);
      ExtendNum(b, n);
    }
  }

  lemma SignedFlat(l: nat, a: seq<Limb>)
    requires l > 0 && Words(l, a) && |a| > 0
    ensures |Flat(a)| > 0 && Signed(l, a) == SignedNum(Flat(a))
  {
    var n := |a| - 1;
    assert a == a[..n] + [a[n]];
    FlatAppend(a[..n], [a[n]]);
    assert Flat([a[n]]) == a[n] + Flat([]) == a[n];
    RangeIsPow2(l, a);
  }

  /** `$lt`, `$le`, `$gt`, `$ge` on operands extended to a common number of limbs. */
  method EmitCompare(l: nat, st: seq<Wire>, swap: bool, negate: bool, signed: bool, a: seq<Piece>, b: seq<Piece>)
    returns (r: bool)
    requires LimbWidth(l) && StoreOk(l, st) && SigOk(st, a) && SigOk(st, b) && |a| > 0 && |b| > 0
    ensures var x, y := SigBits(l, st, a, |a|), SigBits(l, st, b, |b|);
      && |x| > 0 && |y| > 0
      && var p, q := if signed then SignedNum(x) else Num(x), if signed then SignedNum(y) else Num(y);
      r == if swap then (if negate then p <= q else q < p) else (if negate then q <= p else p < q)
  {
    SigWidth(st, a);
    SigWidth(st, b);
    var aw, bw := SigLen(a, |a|), SigLen(b, |b|);
    var m := Max(aw, bw);
    var nc := Nlimbs(l, m);
    NlimbsMono(l, aw, m);
    NlimbsMono(l, bw, m);
    var wa := Materialize(l, st, a, nc, signed);
    var wb := Materialize(l, st, b, nc, signed);
    Operand(l, wa[..], SigBits(l, st, a, |a|), signed);
    Operand(l, wb[..], SigBits(l, st, b, |b|), signed);
    assert wa[..nc] == wa[..] && wb[..nc] == wb[..];
    var less := CompareLimbs(l, signed, if swap then wb else wa, if swap then wa else wb, nc);
    r := less != negate;
  }

  method CompareLimbs(l: nat, signed: bool, a: array<Limb>, b: array<Limb>, n: nat) returns (r: bool)
    requires l > 0 && 0 < n == a.Length == b.Length && Words(l, a[..]) && Words(l, b[..])
    ensures signed ==> r == (Signed(l, a[..]) < Signed(l, b[..]))
    ensures !signed ==> r == (Value(a[..]) < Value(b[..]))
  {
    assert a[..n] == a[..] && b[..n] == b[..];
    if signed { r := Wslt(l, a, b, n); } else { r := Wult(l, a, b, n); }
  }

  /** An extended operand reads as the signal's number. */
  lemma Operand(l: nat, d: seq<Limb>, b: seq<bool>, signed: bool)
    requires l > 0 && Words(l, d) && |d| > 0 && 0 < |b| <= |Flat(d)| && Flat(d) == Extend(b, |Flat(d)|, signed)
    ensures signed ==> Signed(l, d) == SignedNum(b)
    ensures !signed ==> Value(d) == Num(b)
  {
    if signed {
      SignedFlat(l, d);
      ExtendSigned(b, |Flat(d)|);
    } else {
      ExtendNum(b, |Flat(d)|);
    }
  }

  /** `$eq`: equality of the zero-extended operands. */
  method EmitEqual(l: nat, st: seq<Wire>, a: seq<Piece>, b: seq<Piece>) returns (r: bool)
    requires LimbWidth(l) && StoreOk(l, st) && SigOk(st, a) && SigOk(st, b) && |a| > 0 && |b| > 0
    ensures r == (Num(SigBits(l, st, a, |a|)) == Num(SigBits(l, st, b, |b|)))
  {
    SigWidth(st, a);
    SigWidth(st, b);
    var aw, bw := SigLen(a, |a|), SigLen(b, |b|);
    var m := Max(aw, bw);
    var nc := Nlimbs(l, m);
    NlimbsMono(l, aw, m);
    NlimbsMono(l, bw, m);
    var wa := Materialize(l, st, a, nc, false);
    var wb := Materialize(l, st, b, nc, false);
    Operand(l, wa[..], SigBits(l, st, a, |a|), false);
    Operand(l, wb[..], SigBits(l, st, b, |b|), false);
    assert wa[..nc] == wa[..] && wb[..nc] == wb[..];
    r := Weq(l, wa, wb, nc);
  }

  // ---------------------------------------------------------------- one-bit results

  /** `put_bit`: a wide target takes `wplaceb` at the output's offset, a narrow one is assigned whole. */
  function PutBit(l: nat, x: Wire, off: nat, v: bool): (r: Wire)
    requires LimbWidth(l) && WireOk(l, x) && off < x.width
    ensures r.width == x.width && (r.Narrow? ==> |r.word| == 64)
  {
    match x
    case Narrow(_, _) => x.(word := [v] + Zeros(SCALAR - 1))
    case Wide(width, limbs) =>
      LimbMono(l, off, width - 1);
      x.(limbs := Step(l, limbs, off, [v] + Zeros(l - 1), 0, 1, true))
  }

  /** The one-bit output slice at `off` gets `v` and the rest of the wire keeps its bits. */
  ghost predicate WritesOneBit(l: nat, x: Wire, off: nat, v: bool)
    requires LimbWidth(l) && WireOk(l, x) && off < x.width
  {
    forall k: nat :: k < x.width ==> WireBit(l, PutBit(l, x, off, v), k) == if k == off then v else WireBit(l, x, k)
  }

  /** On every wire of this shape and for every result. */
  ghost predicate PutBitRight(l: nat, wide: bool, width: nat, off: nat)
    requires LimbWidth(l) && off < width
  {
    forall x: Wire, v: bool :: WireOk(l, x) && x.width == width && x.Wide? == wide ==> WritesOneBit(l, x, off, v)
  }

  lemma PutBitWide(l: nat, x: Wire, off: nat, v: bool)
    requires LimbWidth(l) && WireOk(l, x) && off < x.width && x.Wide?
    ensures WritesOneBit(l, x, off, v)
  {
    LimbMono(l, off, x.width - 1);
    forall k: nat | k < x.width
      ensures WireBit(l, PutBit(l, x, off, v), k) == if k == off then v else WireBit(l, x, k)
    {
      LimbMono(l, k, x.width - 1);
      StepBit(l, x.limbs, off, [v] + Zeros(l - 1), 0, 1, true, k);
    }
  }

  /** A one-bit result is stored right exactly when the target wire is wide or one bit long: a narrow
      wire with other bits has them overwritten. */
  lemma PutBitExact(l: nat, wide: bool, width: nat, off: nat)
    requires LimbWidth(l) && off < width && (!wide ==> width <= SCALAR)
    ensures PutBitRight(l, wide, width, off) <==> wide || width == 1
  {
    if wide {
      forall x: Wire, v: bool | WireOk(l, x) && x.width == width && x.Wide? ensures WritesOneBit(l, x, off, v) {
        PutBitWide(l, x, off, v);
      }
    } else if width > 1 {
      var x := Narrow(width, MaskW(SCALAR, width));
      var k := if off == 0 then 1 else if off == 1 then 0 else 1;
      assert WireOk(l, x) && WireBit(l, x, k);
      assert !WireBit(l, PutBit(l, x, off, false), k);
      assert !WritesOneBit(l, x, off, false);
    }
  }
}
