/** UTF-8 as in section 3 of RFC 3629, with surrogate code points passed through. */
module Utf8 {

  type Code = c: int | 0 <= c < 0x110000

  type Byte = b: int | 0 <= b < 256

  datatype Option<T> = None | Some(value: T)

  predicate Cont(b: Byte) { 0x80 <= b < 0xC0 }

  /** The payload of a lead or continuation byte. */
  function Low(b: Byte, mark: nat): (v: nat)
    requires mark <= b
    ensures v == b - mark
  {
    (b as int) - mark
  }

  function EncodeOne(c: Code): (b: seq<Byte>)
    ensures 1 <= |b| <= 4
  {
    if c < 0x80 then [c]
    else if c < 0x800 then [0xC0 + c / 64, 0x80 + c % 64]
    else if c < 0x10000 then [0xE0 + c / 4096, 0x80 + c / 64 % 64, 0x80 + c % 64]
    else [0xF0 + c / 262144, 0x80 + c / 4096 % 64, 0x80 + c / 64 % 64, 0x80 + c % 64]
  }

  function Encode(s: seq<Code>): (b: seq<Byte>) {
    if s == [] then [] else EncodeOne(s[0]) + Encode(s[1..])
  }

  /** The code point a byte sequence starts with and the bytes it takes; overlong forms and values
      past the last code point are errors. */
  function DecodeOne(b: seq<Byte>): (r: Option<(Code, nat)>)
    requires b != []
    ensures r.Some? ==> 1 <= r.value.1 <= |b| && r.value.1 <= 4
  {
    if b[0] < 0x80 then Some((b[0], 1))
    else if 0xC2 <= b[0] < 0xE0 && |b| >= 2 && Cont(b[1]) then Some((Low(b[0], 0xC0) * 64 + Low(b[1], 0x80), 2))
    else if 0xE0 <= b[0] < 0xF0 && |b| >= 3 && Cont(b[1]) && Cont(b[2]) && (b[0] == 0xE0 ==> b[1] >= 0xA0) then
      Some((Low(b[0], 0xE0) * 4096 + Low(b[1], 0x80) * 64 + Low(b[2], 0x80), 3))
    else if 0xF0 <= b[0] <= 0xF4 && |b| >= 4 && Cont(b[1]) && Cont(b[2]) && Cont(b[3])
      && (b[0] == 0xF0 ==> b[1] >= 0x90) && (b[0] == 0xF4 ==> b[1] < 0x90) then
      Some((Low(b[0], 0xF0) * 262144 + Low(b[1], 0x80) * 4096 + Low(b[2], 0x80) * 64 + Low(b[3], 0x80), 4))
    else None
  }

  function Decode(b: seq<Byte>): (r: Option<seq<Code>>)
    decreases |b|
  {
    if b == [] then Some([])
    else
      match DecodeOne(b)
      case None => None
      case Some((c, n)) =>
        match Decode(b[n..])
        case None => None
        case Some(s) => Some([c] + s)
  }

  /** `b` spells code point `c`: lead and continuation bytes with the payload of `c`, as few as hold it. */
  ghost predicate Spelt(c: Code, b: seq<Byte>) {
    || (|b| == 1 && c < 0x80 && b[0] == c)
    || (|b| == 2 && 0x80 <= c < 0x800 && 0xC0 <= b[0] < 0xE0 && 0x80 <= b[1] < 0xC0
          && ((b[0] as int) - 0xC0) * 64 + ((b[1] as int) - 0x80) == c)
    || (|b| == 3 && 0x800 <= c < 0x10000 && 0xE0 <= b[0] < 0xF0 && 0x80 <= b[1] < 0xC0 && 0x80 <= b[2] < 0xC0
          && ((b[0] as int) - 0xE0) * 4096 + ((b[1] as int) - 0x80) * 64 + ((b[2] as int) - 0x80) == c)
    || (|b| == 4 && 0x10000 <= c && 0xF0 <= b[0] < 0xF8 && 0x80 <= b[1] < 0xC0 && 0x80 <= b[2] < 0xC0 && 0x80 <= b[3] < 0xC0
          && ((b[0] as int) - 0xF0) * 262144 + ((b[1] as int) - 0x80) * 4096 + ((b[2] as int) - 0x80) * 64 + ((b[3] as int) - 0x80) == c)
  }

  lemma OneSpelt(c: Code)
    ensures Spelt(c, EncodeOne(c))
  {
    Digits(c);
  }

  /** The encoding is one such spelling after the other, in order. */
  lemma EncodeMeans(s: seq<Code>)
    ensures s == [] ==> Encode(s) == []
    ensures s != [] ==> exists n :: 0 < n <= |Encode(s)| && Spelt(s[0], Encode(s)[..n]) && Encode(s)[n..] == Encode(s[1..])
  {
    if s != [] {
      OneSpelt(s[0]);
      var e, b := EncodeOne(s[0]), Encode(s);
      assert b[..|e|] == e && b[|e|..] == Encode(s[1..]);
    }
  }

  /** Decoding the encoding of a code point finds it and its length. */
  lemma DecodeEncodeOne(c: Code, rest: seq<Byte>)
    ensures DecodeOne(EncodeOne(c) + rest) == Some((c, |EncodeOne(c)|))
  {
    Digits(c);
    if c < 0x80 { OneByte(c, rest); }
    else if c < 0x800 { TwoBytes(c, rest); }
    else if c < 0x10000 { ThreeBytes(c, rest); }
    else { FourBytes(c, rest); }
  }

  /** A code point in base 64. */
  lemma Digits(c: nat)
    ensures c == c / 64 * 64 + c % 64
    ensures c / 64 == c / 4096 * 64 + c / 64 % 64
    ensures c / 4096 == c / 262144 * 64 + c / 4096 % 64
  {
    assert c / 4096 == c / 64 / 64 && c / 262144 == c / 4096 / 64;
  }

  lemma OneByte(c: Code, rest: seq<Byte>)
    requires c < 0x80
    ensures DecodeOne(EncodeOne(c) + rest) == Some((c, |EncodeOne(c)|))
  {
  }

  lemma TwoBytes(c: Code, rest: seq<Byte>)
    requires 0x80 <= c < 0x800
    ensures DecodeOne(EncodeOne(c) + rest) == Some((c, |EncodeOne(c)|))
  {
    var b := EncodeOne(c) + rest;
    assert b[0] == 0xC0 + c / 64 && b[1] == 0x80 + c % 64;
  }

  lemma ThreeBytes(c: Code, rest: seq<Byte>)
    requires 0x800 <= c < 0x10000
    ensures DecodeOne(EncodeOne(c) + rest) == Some((c, |EncodeOne(c)|))
  {
    var b := EncodeOne(c) + rest;
    Digits(c);
    assert b[0] == 0xE0 + c / 4096 && b[1] == 0x80 + c / 64 % 64 && b[2] == 0x80 + c % 64;
  }

  lemma FourBytes(c: Code, rest: seq<Byte>)
    requires 0x10000 <= c
    ensures DecodeOne(EncodeOne(c) + rest) == Some((c, |EncodeOne(c)|))
  {
    var b := EncodeOne(c) + rest;
    Digits(c);
    assert b[0] == 0xF0 + c / 262144 && b[1] == 0x80 + c / 4096 % 64;
    assert b[2] == 0x80 + c / 64 % 64 && b[3] == 0x80 + c % 64;
  }

  /** A decoded code point is spelt by exactly the bytes it was decoded from. */
  lemma EncodeDecodeOne(b: seq<Byte>)
    requires b != [] && DecodeOne(b).Some?
    ensures EncodeOne(DecodeOne(b).value.0) == b[..DecodeOne(b).value.1]
  {
    var (c, n) := DecodeOne(b).value;
    if n == 1 {
    } else if n == 2 {
      TwoDigits(Low(b[0], 0xC0), Low(b[1], 0x80));
    } else if n == 3 {
      ThreeDigits(Low(b[0], 0xE0), Low(b[1], 0x80), Low(b[2], 0x80));
    } else {
      FourDigits(Low(b[0], 0xF0), Low(b[1], 0x80), Low(b[2], 0x80), Low(b[3], 0x80));
    }
  }

  lemma TwoDigits(x: nat, y: nat)
    requires y < 64
    ensures (x * 64 + y) / 64 == x && (x * 64 + y) % 64 == y
  {
  }

  lemma ThreeDigits(x: nat, y: nat, z: nat)
    requires y < 64 && z < 64
    ensures var c := x * 4096 + y * 64 + z; c / 4096 == x && c / 64 % 64 == y && c % 64 == z
  {
    var c := x * 4096 + y * 64 + z;
    assert c == (x * 64 + y) * 64 + z;
    TwoDigits(x * 64 + y, z);
    TwoDigits(x, y);
  }

  lemma FourDigits(w: nat, x: nat, y: nat, z: nat)
    requires x < 64 && y < 64 && z < 64
    ensures var c := w * 262144 + x * 4096 + y * 64 + z;
      c / 262144 == w && c / 4096 % 64 == x && c / 64 % 64 == y && c % 64 == z
  {
    var c := w * 262144 + x * 4096 + y * 64 + z;
    assert c == ((w * 64 + x) * 64 + y) * 64 + z;
    TwoDigits((w * 64 + x) * 64 + y, z);
    TwoDigits(w * 64 + x, y);
    TwoDigits(w, x);
    assert c / 4096 == w * 64 + x;
  }

  lemma {:induction false} DecodeEncode(s: seq<Code>)
    ensures Decode(Encode(s)) == Some(s)
    decreases |s|
  {
    if s == [] {
    } else {
      DecodeEncode(s[1..]);
      DecodeEncodeOne(s[0], Encode(s[1..]));
      var e := EncodeOne(s[0]);
      assert (e + Encode(s[1..]))[|e|..] == Encode(s[1..]);
      assert s == [s[0]] + s[1..];
    }
  }

  /** The first code point of what decodes. */
  lemma DecodeTurn(b: seq<Byte>) returns (c: Code, n: nat, s: seq<Code>)
    requires b != [] && Decode(b).Some?
    ensures 1 <= n <= |b| && Decode(b[n..]) == Some(s) && Decode(b) == Some([c] + s) && EncodeOne(c) == b[..n]
  {
    EncodeDecodeOne(b);
    c, n := DecodeOne(b).value.0, DecodeOne(b).value.1;
    s := Decode(b[n..]).value;
  }

  lemma EncodeCons(c: Code, s: seq<Code>)
    ensures Encode([c] + s) == EncodeOne(c) + Encode(s)
  {
    assert ([c] + s)[1..] == s;
  }

  /** A byte string has one spelling: what decodes is the encoding of what it decodes to. */
  lemma {:induction false} EncodeDecode(b: seq<Byte>)
    requires Decode(b).Some?
    ensures Encode(Decode(b).value) == b && |Decode(b).value| <= |b|
    decreases |b|
  {
    if b == [] {
    } else {
      var c, n, s := DecodeTurn(b);
      EncodeDecode(b[n..]);
      EncodeCons(c, s);
      assert b == b[..n] + b[n..];
    }
  }
}
