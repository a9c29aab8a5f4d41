/** Signed operands. */
module WideSigned {
  // Which wide cells the emitter gets right for signed operands.
  //
  // Arithmetic, bitwise, shift and equality cells extend their operands with zeros whatever the
  // cell's signedness; only the orderings sign-extend.  For each operation, the lemmas give the
  // exact widths at which that makes no difference.

  import opened Bits
  import opened WideArith
  import opened WideSig

  datatype ArithOp = Add | Sub | Mul | Neg

  datatype BitOp = And | Or | Xor | Xnor | Not

  /** The operation on unbounded numbers. */
  function Exact(op: ArithOp, x: int, y: int): int {
    match op
    case Add => x + y
    case Sub => x - y
    case Mul => x * y
    case Neg => 0 - x
  }

  predicate OnBits(op: BitOp, x: bool, y: bool) {
    match op
    case And => x && y
    case Or => x || y
    case Xor => x != y
    case Xnor => x == y
    case Not => !x
  }

  /** The operations are those of the integers: addition counts up, subtraction undoes it, multiplication adds up. */
  lemma ExactMeans(x: int, y: int)
    ensures Exact(Add, x, 0) == x && Exact(Add, x, y + 1) == Exact(Add, x, y) + 1
    ensures Exact(Sub, Exact(Add, x, y), y) == x && Exact(Add, Exact(Neg, x, y), x) == 0
    ensures Exact(Mul, x, 0) == 0 && Exact(Mul, x, y + 1) == Exact(Mul, x, y) + x
  {
    assert x * (y + 1) == x * y + x;
  }

  function Bit01(x: bool): nat { if x then 1 else 0 }

  /** The bit operations by their sums: AND is the carry and XOR the sum of a half adder, OR is what the two make up. */
  lemma BitsMean(x: bool, y: bool)
    ensures Bit01(x) + Bit01(y) == 2 * Bit01(OnBits(And, x, y)) + Bit01(OnBits(Xor, x, y))
    ensures Bit01(OnBits(Or, x, y)) == Bit01(OnBits(And, x, y)) + Bit01(OnBits(Xor, x, y))
    ensures Bit01(OnBits(Xnor, x, y)) + Bit01(OnBits(Xor, x, y)) == 1 && Bit01(OnBits(Not, x, y)) + Bit01(x) == 1
  {
  }

  /** The low `n` bits of an integer. */
  function Trunc(n: nat, x: int): (b: seq<bool>)
    ensures |b| == n
  {
    ToBits(n, x % Pow2(n))
  }

  /** Bit `k` of a zero-extended operand. */
  predicate At(b: seq<bool>, k: nat) { k < |b| && b[k] }

  /** Bit `k` of a sign-extended operand. */
  predicate SignedAt(b: seq<bool>, k: nat)
    requires |b| > 0
  {
    if k < |b| then b[k] else b[|b| - 1]
  }

  /** Two's-complement reading of a bit string. */
  function SignedNum(b: seq<bool>): (v: int)
    requires |b| > 0
  {
    if b[|b| - 1] then Num(b) - Pow2(|b|) else Num(b)
  }

  // ---------------------------------------------------------------- truncation

  /** Two integers have the same low bits iff they differ by a multiple. */
  lemma TruncSame(n: nat, x: int, y: int)
    ensures Trunc(n, x) == Trunc(n, y) <==> x % Pow2(n) == y % Pow2(n)
  {
    var m := Pow2(n);
    TruncIsMod(n, x % m);
    TruncIsMod(n, y % m);
    ModUnique(x % m, m, 0, x % m);
    ModUnique(y % m, m, 0, y % m);
  }

  lemma TruncShift(n: nat, x: int, k: int)
    ensures Trunc(n, x + Pow2(n) * k) == Trunc(n, x)
  {
    var m := Pow2(n);
    assert x == x % m + m * (x / m);
    assert m * (x / m + k) == m * (x / m) + m * k;
    ModUnique(x + m * k, m, x / m + k, x % m);
    TruncSame(n, x + m * k, x);
  }

  /** Integers closer than the range and different have different low bits. */
  lemma TruncDiffers(n: nat, x: int, y: int)
    requires 0 < x - y < Pow2(n)
    ensures Trunc(n, x) != Trunc(n, y)
  {
    var m, q, r := Pow2(n), y / Pow2(n), y % Pow2(n);
    assert y == r + m * q;
    if r + (x - y) < m {
      ModUnique(x, m, q, r + (x - y));
    } else {
      assert m * (q + 1) == m * q + m;
      ModUnique(x, m, q + 1, r + (x - y) - m);
    }
    TruncSame(n, x, y);
  }

  lemma {:induction false} Pow2Less(m: nat, n: nat)
    requires m < n
    ensures 2 * Pow2(m) <= Pow2(n)
    decreases n
  {
    if m + 1 < n { Pow2Less(m, n - 1); }
  }

  /** A sign extension of at least the output width changes no output bit. */
  lemma WideEnough(yw: nat, b: seq<bool>, c: int) returns (k: int)
    requires 0 < |b| && yw <= |b|
    ensures SignedNum(b) * c == Num(b) * c + Pow2(yw) * k
  {
    if b[|b| - 1] {
      var m, p := Pow2(yw), Pow2(|b| - yw);
      Pow2Add(yw, |b| - yw);
      k := 0 - p * c;
      MulAssoc(m, p, c);
      assert (Num(b) - m * p) * c == Num(b) * c - m * p * c;
      assert m * (0 - p * c) == 0 - m * (p * c);
    } else {
      k := 0;
    }
  }

  // ---------------------------------------------------------------- witnesses

  /** The number 1 in `n` bits; negative when there is only one. */
  function One(n: nat): (b: seq<bool>)
    requires n > 0
    ensures |b| == n
  {
    [true] + Zeros(n - 1)
  }

  /** Only the sign bit. */
  function Top(n: nat): (b: seq<bool>)
    requires n > 0
    ensures |b| == n
  {
    Zeros(n - 1) + [true]
  }

  lemma OneNum(n: nat)
    requires n > 0
    ensures Num(One(n)) == 1 && SignedNum(One(n)) == if n == 1 then -1 else 1
  {
    PadNum([true], n - 1);
    assert [true][1..] == [] && Num([true]) == 1;
    assert Pow2(1) == 2 * Pow2(0);
  }

  lemma TopNum(n: nat)
    requires n > 0
    ensures Num(Top(n)) == Pow2(n - 1) && SignedNum(Top(n)) == 0 - Pow2(n - 1)
  {
    ShiftNum([true], n - 1);
    assert [true][1..] == [] && Num([true]) == 1;
  }

  lemma ZeroNum(n: nat)
    requires n > 0
    ensures Num(Zeros(n)) == 0 && SignedNum(Zeros(n)) == 0
  {
    NumZeros(n);
  }

  // ---------------------------------------------------------------- arithmetic

  predicate Unary(op: ArithOp) { op.Neg? }

  /** The widths at which the emitted cell is also the signed one. */
  predicate ArithSafe(op: ArithOp, yw: nat, aw: nat, bw: nat) {
    (aw >= yw && (bw >= yw || Unary(op))) || (op.Mul? && aw == 1 && bw == 1)
  }

  ghost predicate ArithAgrees(op: ArithOp, yw: nat, x: seq<bool>, y: seq<bool>)
    requires |x| > 0 && |y| > 0
  {
    Trunc(yw, Exact(op, Num(x), Num(y))) == Trunc(yw, Exact(op, SignedNum(x), SignedNum(y)))
  }

  ghost predicate ArithRight(op: ArithOp, yw: nat, aw: nat, bw: nat)
    requires aw > 0 && bw > 0
  {
    forall x, y :: |x| == aw && |y| == bw ==> ArithAgrees(op, yw, x, y)
  }

  lemma ArithSafeAgrees(op: ArithOp, yw: nat, x: seq<bool>, y: seq<bool>)
    requires |x| > 0 && |y| > 0 && ArithSafe(op, yw, |x|, |y|)
    ensures ArithAgrees(op, yw, x, y)
  {
    match op {
      case Mul => if |x| >= yw && |y| >= yw { MulAgrees(yw, x, y); } else { BitProduct(x, y); }
      case Neg =>
        var k := WideEnough(yw, x, -1);
        TruncShift(yw, 0 - Num(x), k);
      case _ =>
        var k := WideEnough(yw, x, 1);
        var j := WideEnough(yw, y, if op.Add? then 1 else -1);
        TruncShift(yw, Exact(op, Num(x), Num(y)), k);
        TruncShift(yw, Exact(op, Num(x), Num(y)) + Pow2(yw) * k, j);
    }
  }

  lemma MulAgrees(yw: nat, x: seq<bool>, y: seq<bool>)
    requires |x| > 0 && |y| > 0 && |x| >= yw && |y| >= yw
    ensures ArithAgrees(Mul, yw, x, y)
  {
    var k := WideEnough(yw, x, SignedNum(y));
    var j := WideEnough(yw, y, Num(x));
    ProductShift(yw, Num(x), Num(y), SignedNum(x), SignedNum(y), k, j);
  }

  lemma ProductShift(n: nat, nx: int, ny: int, sx: int, sy: int, k: int, j: int)
    requires sx * sy == nx * sy + Pow2(n) * k && sy * nx == ny * nx + Pow2(n) * j
    ensures Trunc(n, nx * ny) == Trunc(n, sx * sy)
  {
    TruncShift(n, nx * ny, j);
    TruncShift(n, nx * ny + Pow2(n) * j, k);
    assert sx * sy == nx * ny + Pow2(n) * j + Pow2(n) * k;
  }

  /** One bit times one bit: 1 * 1 and -1 * -1 are both 1. */
  lemma BitProduct(x: seq<bool>, y: seq<bool>)
    requires |x| == |y| == 1
    ensures Num(x) * Num(y) == SignedNum(x) * SignedNum(y)
  {
    assert x[1..] == [] && y[1..] == [];
    assert Pow2(1) == 2 * Pow2(0);
  }

  /** At all other widths some operands are computed wrong. */
  lemma ArithUnsafe(op: ArithOp, yw: nat, aw: nat, bw: nat) returns (x: seq<bool>, y: seq<bool>)
    requires aw > 0 && bw > 0 && !ArithSafe(op, yw, aw, bw)
    ensures |x| == aw && |y| == bw && !ArithAgrees(op, yw, x, y)
  {
    if op.Mul? {
      x, y := MulUnsafe(yw, aw, bw);
    } else if aw < yw {
      x, y := Top(aw), Zeros(bw);
      TopNum(aw);
      ZeroNum(bw);
      Pow2Less(aw, yw);
      Apart(yw, Exact(op, Num(x), Num(y)), Exact(op, SignedNum(x), SignedNum(y)), aw);
    } else {
      x, y := Zeros(aw), Top(bw);
      ZeroNum(aw);
      TopNum(bw);
      Pow2Less(bw, yw);
      Apart(yw, Exact(op, Num(x), Num(y)), Exact(op, SignedNum(x), SignedNum(y)), bw);
    }
  }

  /** Results that differ by less than the range. */
  lemma Apart(yw: nat, u: int, v: int, w: nat)
    requires w < yw && (u - v == Pow2(w) || v - u == Pow2(w))
    ensures Trunc(yw, u) != Trunc(yw, v)
  {
    Pow2Less(w, yw);
    if u > v { TruncDiffers(yw, u, v); } else { TruncDiffers(yw, v, u); }
  }

  lemma MulUnsafe(yw: nat, aw: nat, bw: nat) returns (x: seq<bool>, y: seq<bool>)
    requires aw > 0 && bw > 0 && !ArithSafe(Mul, yw, aw, bw)
    ensures |x| == aw && |y| == bw && !ArithAgrees(Mul, yw, x, y)
  {
    assert Pow2(1) == 2 * Pow2(0);
    if aw < yw && bw > 1 {
      x, y := Top(aw), One(bw);
      TopNum(aw);
      OneNum(bw);
      Apart(yw, Num(x) * Num(y), SignedNum(x) * SignedNum(y), aw);
    } else {
      assert aw > 1 && bw < yw;
      x, y := One(aw), Top(bw);
      OneNum(aw);
      TopNum(bw);
      Apart(yw, Num(x) * Num(y), SignedNum(x) * SignedNum(y), bw);
    }
  }

  /** An emitted arithmetic cell is also right for signed operands exactly when no operand is narrower
      than the output; a product of two single bits is right at every width. */
  lemma ArithSignedExact(op: ArithOp, yw: nat, aw: nat, bw: nat)
    requires aw > 0 && bw > 0
    ensures ArithRight(op, yw, aw, bw) <==> ArithSafe(op, yw, aw, bw)
  {
    if ArithSafe(op, yw, aw, bw) {
      forall x, y | |x| == aw && |y| == bw ensures ArithAgrees(op, yw, x, y) { ArithSafeAgrees(op, yw, x, y); }
    } else {
      var x, y := ArithUnsafe(op, yw, aw, bw);
      assert !ArithAgrees(op, yw, x, y);
    }
  }

  /** A one-bit -1 plus a two-bit 0: the emitted sum is 1, the signed one 3. */
  lemma SignedSumWrong()
    ensures Trunc(2, Exact(Add, Num([true]), Num([false, false]))) == [true, false]
    ensures Trunc(2, Exact(Add, SignedNum([true]), SignedNum([false, false]))) == [true, true]
  {
    assert [true][1..] == [] && [false, false][1..] == [false] && [false][1..] == [];
    assert Num([true]) == 1 && Num([false, false]) == 0;
    assert Pow2(1) == 2 && Pow2(2) == 4;
    assert ToBits(2, 1) == [true] + ToBits(1, 0) && ToBits(2, 3) == [true] + ToBits(1, 1);
  }

  // ---------------------------------------------------------------- bitwise

  predicate BitwiseSafe(op: BitOp, yw: nat, aw: nat, bw: nat) {
    aw >= yw && (bw >= yw || op.Not?)
  }

  ghost predicate BitwiseRight(op: BitOp, yw: nat, aw: nat, bw: nat)
    requires aw > 0 && bw > 0
  {
    forall x: seq<bool>, y: seq<bool>, k: nat :: |x| == aw && |y| == bw && k < yw ==>
      OnBits(op, At(x, k), At(y, k)) == OnBits(op, SignedAt(x, k), SignedAt(y, k))
  }

  /** An emitted bitwise cell is also right for signed operands exactly when no operand it reads is
      narrower than the output. */
  lemma BitwiseSignedExact(op: BitOp, yw: nat, aw: nat, bw: nat)
    requires aw > 0 && bw > 0
    ensures BitwiseRight(op, yw, aw, bw) <==> BitwiseSafe(op, yw, aw, bw)
  {
    if !BitwiseSafe(op, yw, aw, bw) {
      var narrow := if aw < yw && (bw >= yw || aw <= bw || op.Not?) then aw else bw;
      var ones, k := op.And?, narrow;
      var x := if aw == narrow || ones then seq(aw, _ => true) else Zeros(aw);
      var y := if (bw == narrow && aw != narrow) || ones then seq(bw, _ => true) else Zeros(bw);
      assert k < yw;
      assert OnBits(op, At(x, k), At(y, k)) != OnBits(op, SignedAt(x, k), SignedAt(y, k));
    }
  }

  // ---------------------------------------------------------------- shifts

  /** Shifting a signed operand: the operand is extended to the wider of operand and output, then
      moved; zeros come in from both ends. */
  predicate ShiftedAt(x: seq<bool>, left: bool, s: int, m: nat, k: nat, signed: bool)
    requires |x| > 0
  {
    var j := if left then k - s else k + s;
    0 <= j < m && if signed then SignedAt(x, j) else At(x, j)
  }

  /** The low bits of a number, read off its spelling. */
  lemma TruncWindow(b: seq<bool>, off: nat, w: nat)
    ensures Trunc(w, Num(b) / Pow2(off)) == Window(b, off, w)
  {
    var v, m := Num(b) / Pow2(off), Pow2(w);
    WindowNum(b, off, w);
    TruncIsMod(w, v % m);
    ModUnique(v % m, m, 0, v % m);
    NumUnique(Trunc(w, v), Window(b, off, w));
  }

  /** The emitted product or quotient by 2^s, bit by bit. */
  lemma ShiftedBits(x: seq<bool>, left: bool, s: nat, yw: nat, k: nat)
    requires |x| > 0 && k < yw
    ensures Trunc(yw, if left then Pow2(s) * Num(x) else Num(x) / Pow2(s))[k] ==
      ShiftedAt(x, left, s, Larger(yw, |x|), k, false)
  {
    if left { LeftBits(x, s, yw); } else { TruncWindow(x, s, yw); }
  }

  lemma LeftBits(x: seq<bool>, s: nat, yw: nat)
    ensures Trunc(yw, Pow2(s) * Num(x)) == Window(Zeros(s) + x, 0, yw)
  {
    ShiftNum(x, s);
    assert Pow2(0) == 1 && Num(Zeros(s) + x) / 1 == Num(Zeros(s) + x);
    TruncWindow(Zeros(s) + x, 0, yw);
  }

  predicate ShiftSafe(left: bool, yw: nat, aw: nat, s: nat) {
    aw >= yw || (if left then aw + s >= yw else s >= yw)
  }

  ghost predicate ShiftRight(left: bool, yw: nat, aw: nat, s: nat)
    requires aw > 0
  {
    forall x: seq<bool>, k: nat :: |x| == aw && k < yw ==>
      ShiftedAt(x, left, s, Larger(yw, aw), k, false) == ShiftedAt(x, left, s, Larger(yw, aw), k, true)
  }

  function Larger(a: nat, b: nat): nat { if a > b then a else b }

  /** A shift is also right for a signed operand exactly when the operand is not narrower than the
      output, or its extension is moved out of the output. */
  lemma ShiftSignedExact(left: bool, yw: nat, aw: nat, s: nat)
    requires aw > 0
    ensures ShiftRight(left, yw, aw, s) <==> ShiftSafe(left, yw, aw, s)
  {
    var m := Larger(yw, aw);
    if ShiftSafe(left, yw, aw, s) {
      forall x: seq<bool>, k: nat | |x| == aw && k < yw
        ensures ShiftedAt(x, left, s, m, k, false) == ShiftedAt(x, left, s, m, k, true)
      {
      }
    } else {
      var x := seq(aw, _ => true);
      var k: nat := if left then aw + s else if s >= aw then 0 else aw - s;
      assert ShiftedAt(x, left, s, m, k, false) != ShiftedAt(x, left, s, m, k, true);
    }
  }

  const INT_RANGE := 0x1_0000_0000

  /** The count after its conversion to a 32-bit `int`. */
  function IntCount(s: nat): (c: int)
    ensures -INT_RANGE / 2 <= c < INT_RANGE / 2
    ensures s < INT_RANGE / 2 ==> c == s
  {
    var r := s % INT_RANGE;
    if r < INT_RANGE / 2 then r else r - INT_RANGE
  }

  /** The conversion keeps the count modulo 2^32, in the range of a 32-bit two's-complement number. */
  lemma IntCountMeans(s: nat)
    ensures -0x8000_0000 <= IntCount(s) < 0x8000_0000 && (s - IntCount(s)) % 0x1_0000_0000 == 0
  {
  }

  /** Turn `i` of the left (right) shift of `n` limbs by the `int` count `c` reads limb `j` of the operand. */
  predicate LimbRead(l: nat, left: bool, c: int, n: nat, i: nat, j: int)
    requires l > 0
  {
    var w, b := c / l, c % l;
    if left then i - w >= 0 && (j == i - w || (b > 0 && i - w - 1 >= 0 && j == i - w - 1))
    else i + w < n && (j == i + w || (b > 0 && i + w + 1 < n && j == i + w + 1))
  }

  ghost predicate InBounds(l: nat, left: bool, c: int, n: nat)
    requires l > 0
  {
    forall i: nat, j: int :: i < n && LimbRead(l, left, c, n, i, j) ==> 0 <= j < n
  }

  /** The shift loops stay inside the limbs exactly when the count is not negative. */
  lemma InBoundsExact(l: nat, left: bool, c: int, n: nat)
    requires l > 0 && n > 0
    ensures InBounds(l, left, c, n) <==> c >= 0
  {
    var w := c / l;
    if c >= 0 {
      assert w >= 0;
    } else {
      assert w < 0;
      assert LimbRead(l, left, c, n, if left then n - 1 else 0, if left then n - 1 - w else w);
    }
  }

  /** The shift leaves nothing of the operand. */
  predicate MovedOut(left: bool, yw: nat, aw: nat, s: int) {
    yw == 0 || s >= if left then yw else aw
  }

  ghost predicate CountRight(left: bool, yw: nat, aw: nat, s: nat, c: int)
    requires aw > 0
  {
    forall x: seq<bool>, k: nat :: |x| == aw && k < yw ==>
      ShiftedAt(x, left, c, Larger(yw, aw), k, false) == ShiftedAt(x, left, s, Larger(yw, aw), k, false)
  }

  /** The shift by the converted count stays inside the limbs and moves every operand as the whole count does. */
  ghost predicate CountOk(l: nat, left: bool, yw: nat, aw: nat, s: nat)
    requires LimbWidth(l) && aw > 0
  {
    InBounds(l, left, IntCount(s), Nlimbs(l, Larger(yw, aw))) && CountRight(left, yw, aw, s, IntCount(s))
  }

  predicate CountSafe(left: bool, yw: nat, aw: nat, s: nat) {
    IntCount(s) >= 0 && (IntCount(s) == s || MovedOut(left, yw, aw, IntCount(s)))
  }

  lemma CountSame(left: bool, yw: nat, aw: nat, s: nat)
    requires 0 < aw <= INT_RANGE && yw <= INT_RANGE && IntCount(s) >= 0
    ensures CountRight(left, yw, aw, s, IntCount(s)) <==> CountSafe(left, yw, aw, s)
  {
    var c: nat, m := IntCount(s), Larger(yw, aw);
    if c == s || MovedOut(left, yw, aw, c) {
      forall x: seq<bool>, k: nat | |x| == aw && k < yw
        ensures ShiftedAt(x, left, c, m, k, false) == ShiftedAt(x, left, s, m, k, false)
      {
        assert c == s || s >= INT_RANGE;
      }
    } else {
      var x := seq(aw, _ => true);
      var k := if left then c else 0;
      assert s >= INT_RANGE;
      assert ShiftedAt(x, left, c, m, k, false) != ShiftedAt(x, left, s, m, k, false);
    }
  }

  /** For every count: the emitted shift stays inside the limbs and is right for all operands exactly when the
      converted count is not negative, and is the count itself or leaves nothing as the count does. */
  lemma ShiftCountExact(l: nat, left: bool, yw: nat, aw: nat, s: nat)
    requires LimbWidth(l) && 0 < aw <= INT_RANGE && yw <= INT_RANGE
    ensures CountOk(l, left, yw, aw, s) <==> CountSafe(left, yw, aw, s)
  {
    var n := Nlimbs(l, Larger(yw, aw));
    assert n > 0;
    InBoundsExact(l, left, IntCount(s), n);
    if IntCount(s) >= 0 { CountSame(left, yw, aw, s); }
  }

  // ---------------------------------------------------------------- equality

  ghost predicate EqualRight(aw: nat, bw: nat)
    requires aw > 0 && bw > 0
  {
    forall x, y :: |x| == aw && |y| == bw ==> (Num(x) == Num(y) <==> SignedNum(x) == SignedNum(y))
  }

  lemma {:induction false} OnesNum(n: nat)
    ensures Num(seq(n, _ => true)) == Pow2(n) - 1
  {
    if n == 0 {
    } else {
      assert seq(n, _ => true)[1..] == seq(n - 1, _ => true);
      OnesNum(n - 1);
    }
  }

  /** The emitted equality is also that of the signed numbers exactly when the operands have one width. */
  lemma EqualSignedExact(aw: nat, bw: nat)
    requires aw > 0 && bw > 0
    ensures EqualRight(aw, bw) <==> aw == bw
  {
    if aw == bw {
      forall x: seq<bool>, y: seq<bool> | |x| == aw && |y| == bw
        ensures Num(x) == Num(y) <==> SignedNum(x) == SignedNum(y)
      {
        if Num(x) == Num(y) { NumUnique(x, y); }
        NumBound(x);
        NumBound(y);
      }
    } else {
      var x, y := seq(aw, _ => true), seq(bw, _ => true);
      OnesNum(aw);
      OnesNum(bw);
      Pow2Less(if aw < bw then aw else bw, if aw < bw then bw else aw);
      assert SignedNum(x) == SignedNum(y) == -1 && Num(x) != Num(y);
    }
  }

  /** -1 in one bit and 1 in two bits compare equal. */
  lemma SignedEqualWrong()
    ensures Num([true]) == Num([true, false]) && SignedNum([true]) == -1 && SignedNum([true, false]) == 1
  {
    assert [true][1..] == [] && [true, false][1..] == [false] && [false][1..] == [];
    assert Pow2(1) == 2 * Pow2(0);
  }
}
