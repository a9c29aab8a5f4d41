/** Reversible escape of names, and the names a results file writes. */
module Names {
  import opened Utf8

  type Str = seq<Code>

  // ---------------------------------------------------------------- characters

  const UNDERSCORE: Code := 95
  const DOT: Code := 46
  const COLON: Code := 58
  const SLASH: Code := 47
  const COMMA: Code := 44

  predicate Digit(c: Code) { 48 <= c <= 57 }

  predicate Alnum(c: Code) { Digit(c) || 65 <= c <= 90 || 97 <= c <= 122 }

  predicate Word(c: Code) { Alnum(c) || c == UNDERSCORE }

  predicate Octal(c: Code) { 48 <= c <= 55 }

  /** The white space a Unicode pattern matches. */
  predicate Space(c: Code) {
    || 9 <= c <= 13 || 28 <= c <= 32 || c == 0x85 || c == 0xA0 || c == 0x1680 || 0x2000 <= c <= 0x200A
    || c == 0x2028 || c == 0x2029 || c == 0x202F || c == 0x205F || c == 0x3000
  }

  // ---------------------------------------------------------------- escape

  /** Plain names are left as they are: letters, digits and _, not starting with _ and not empty. */
  predicate IsPlain(n: Str) {
    n != [] && Alnum(n[0]) && forall i :: 0 <= i < |n| ==> Word(n[i])
  }

  function EscByte(b: Byte): (f: Str)
    ensures |f| == if Alnum(b) then 1 else 4
  {
    if Alnum(b) then [b] else [UNDERSCORE, 48 + b / 64, 48 + b / 8 % 8, 48 + b % 8]
  }

  function EscBytes(bs: seq<Byte>): (f: Str)
    decreases |bs|
  {
    if bs == [] then [] else EscByte(bs[0]) + EscBytes(bs[1..])
  }

  function Escape(n: Str): (f: Str) {
    if IsPlain(n) then n else [UNDERSCORE] + EscBytes(Encode(n))
  }

  // ---------------------------------------------------------------- the form, spelt out

  /** An ASCII letter or digit. */
  ghost predicate Kept(c: int) { 48 <= c <= 57 || 65 <= c <= 90 || 97 <= c <= 122 }

  ghost predicate PlainName(n: Str) {
    n != [] && Kept(n[0]) && forall i :: 0 <= i < |n| ==> Kept(n[i]) || n[i] == 95
  }

  /** Three octal digits after an underscore, the most significant first. */
  ghost predicate OctalForm(f: Str, b: int) {
    && |f| >= 4 && f[0] == 95 && 48 <= f[1] <= 55 && 48 <= f[2] <= 55 && 48 <= f[3] <= 55
    && 64 * (f[1] - 48) + 8 * (f[2] - 48) + (f[3] - 48) == b
  }

  /** `f` spells the bytes: a letter or digit stands for itself, any other byte is an underscore and three digits. */
  ghost predicate Spells(f: Str, bs: seq<Byte>)
    decreases |bs|
  {
    if bs == [] then f == []
    else if Kept(bs[0]) then f != [] && f[0] == bs[0] && Spells(f[1..], bs[1..])
    else OctalForm(f, bs[0]) && Spells(f[4..], bs[1..])
  }

  lemma OctalDigits(b: Byte)
    ensures b == b / 64 * 64 + b / 8 % 8 * 8 + b % 8 && b / 64 < 4
  {
  }

  lemma {:induction false} EscBytesSpell(bs: seq<Byte>)
    ensures Spells(EscBytes(bs), bs)
    decreases |bs|
  {
    if bs == [] {
    } else {
      EscBytesSpell(bs[1..]);
      OctalDigits(bs[0]);
      var e, f := EscByte(bs[0]), EscBytes(bs);
      assert f[|e|..] == EscBytes(bs[1..]);
      assert forall i :: 0 <= i < |e| ==> f[i] == e[i];
    }
  }

  /** Plain names stay; any other name becomes an underscore and the spelling of its encoding. */
  ghost predicate EscapeIs(n: Str, f: Str) {
    if PlainName(n) then f == n else f != [] && f[0] == 95 && Spells(f[1..], Encode(n))
  }

  lemma EscapeMeans(n: Str)
    ensures EscapeIs(n, Escape(n))
  {
    if !IsPlain(n) {
      EscBytesSpell(Encode(n));
      assert Escape(n)[1..] == EscBytes(Encode(n));
    }
  }

  lemma OctalSame(f: Str, g: Str, b: int)
    requires OctalForm(f, b) && OctalForm(g, b)
    ensures f[..4] == g[..4]
  {
  }

  /** Bytes have one spelling. */
  lemma {:induction false} SpellsUnique(f: Str, g: Str, bs: seq<Byte>)
    requires Spells(f, bs) && Spells(g, bs)
    ensures f == g
    decreases |bs|
  {
    if bs == [] {
    } else {
      var k := if Kept(bs[0]) then 1 else 4;
      if !Kept(bs[0]) { OctalSame(f, g, bs[0]); }
      assert f[..k] == g[..k];
      SpellsUnique(f[k..], g[k..], bs[1..]);
      assert f == f[..k] + f[k..] && g == g[..k] + g[k..];
    }
  }

  /** `f` is the form up to byte `i`. */
  ghost predicate WrittenTo(bs: seq<Byte>, i: nat, f: Str)
    requires i <= |bs|
  {
    f + EscBytes(bs[i..]) == [UNDERSCORE] + EscBytes(bs)
  }

  lemma EscNext(bs: seq<Byte>, i: nat, f: Str)
    requires i < |bs| && WrittenTo(bs, i, f)
    ensures WrittenTo(bs, i + 1, f + EscByte(bs[i]))
  {
    assert bs[i..][0] == bs[i] && bs[i..][1..] == bs[i + 1..];
    assert f + (EscByte(bs[i]) + EscBytes(bs[i + 1..])) == (f + EscByte(bs[i])) + EscBytes(bs[i + 1..]);
  }

  lemma EscStart(bs: seq<Byte>)
    ensures WrittenTo(bs, 0, [UNDERSCORE])
  {
    assert bs[0..] == bs;
  }

  lemma EscEnd(n: Str, f: Str)
    requires !IsPlain(n) && WrittenTo(Encode(n), |Encode(n)|, f)
    ensures f == Escape(n)
  {
    var bs := Encode(n);
    assert bs[|bs|..] == [];
    assert f + [] == f;
  }

  /** The loop of `escape_name`. */
  method EscapeName(n: Str) returns (f: Str)
    ensures f == Escape(n) && EscapeIs(n, f)
  {
    EscapeMeans(n);
    if IsPlain(n) { return n; }
    var bs := Encode(n);
    f := [UNDERSCORE];
    EscStart(bs);
    for i := 0 to |bs|
      invariant WrittenTo(bs, i, f)
    {
      EscNext(bs, i, f);
      f := f + EscByte(bs[i]);
    }
    EscEnd(n, f);
  }

  // ---------------------------------------------------------------- decode

  function Code3(f: Str): (v: nat)
    requires |f| >= 4 && Octal(f[1]) && Octal(f[2]) && Octal(f[3])
  {
    ((f[1] as int) - 48) * 64 + ((f[2] as int) - 48) * 8 + ((f[3] as int) - 48)
  }

  /** The bytes an escaped form's body spells; an error for anything that is not of the form. */
  function Parse(f: Str): (r: Option<seq<Byte>>)
    decreases |f|
  {
    if f == [] then Some([])
    else if f[0] == UNDERSCORE then
      if |f| >= 4 && Octal(f[1]) && Octal(f[2]) && Octal(f[3]) && Code3(f) <= 0xFF then
        Cons(Code3(f), Parse(f[4..]))
      else None
    else if Alnum(f[0]) then Cons(f[0], Parse(f[1..]))
    else None
  }

  function Cons(b: Byte, r: Option<seq<Byte>>): Option<seq<Byte>> {
    match r case None => None case Some(bs) => Some([b] + bs)
  }

  /** `_decode`: the name a form's bytes spell, canonical or not. */
  function DecodeForm(f: Str): (r: Option<Str>) {
    if f == [] || f[0] != UNDERSCORE then None
    else match Parse(f[1..]) case None => None case Some(bs) => Utf8.Decode(bs)
  }

  predicate IsEscaped(f: Str) {
    f != [] && f[0] == UNDERSCORE && DecodeForm(f).Some? && Escape(DecodeForm(f).value) == f
  }

  function Unescape(f: Str): (r: Option<Str>) {
    if IsPlain(f) then Some(f)
    else if f == [] || f[0] != UNDERSCORE then None
    else
      match DecodeForm(f)
      case None => None
      case Some(n) => if Escape(n) == f then Some(n) else None
  }

  /** `f` can be read as the bytes: a letter or digit is itself, an underscore takes three digits. */
  ghost predicate ReadsAs(f: Str, bs: seq<Byte>)
    decreases |f|
  {
    if f == [] then bs == []
    else if f[0] == 95 then bs != [] && OctalForm(f, bs[0]) && ReadsAs(f[4..], bs[1..])
    else bs != [] && Kept(f[0]) && bs[0] == f[0] && ReadsAs(f[1..], bs[1..])
  }

  lemma {:induction false} ParseExact(f: Str, bs: seq<Byte>)
    ensures Parse(f) == Some(bs) <==> ReadsAs(f, bs)
    decreases |f|
  {
    if f == [] {
    } else {
      var k := if f[0] == 95 then 4 else 1;
      if k <= |f| && bs != [] {
        ParseExact(f[k..], bs[1..]);
        assert bs == [bs[0]] + bs[1..];
        if Parse(f).Some? { assert Parse(f).value[1..] == Parse(f[k..]).value; }
      }
    }
  }

  /** A form decodes to the name whose encoding it can be read as, and to no other. */
  lemma DecodeMeans(f: Str, n: Str)
    ensures DecodeForm(f) == Some(n) <==> f != [] && f[0] == 95 && ReadsAs(f[1..], Encode(n))
  {
    if f != [] && f[0] == 95 {
      ParseExact(f[1..], Encode(n));
      DecodeEncode(n);
      if DecodeForm(f) == Some(n) { EncodeDecode(Parse(f[1..]).value); }
    }
  }

  ghost predicate DecodeIs(f: Str, r: Option<Str>) {
    forall n :: r == Some(n) <==> f != [] && f[0] == 95 && ReadsAs(f[1..], Encode(n))
  }

  lemma DecodeAll(f: Str)
    ensures DecodeIs(f, DecodeForm(f))
  {
    forall n ensures DecodeForm(f) == Some(n) <==> f != [] && f[0] == 95 && ReadsAs(f[1..], Encode(n)) {
      DecodeMeans(f, n);
    }
  }

  /** The form check and the loop of `_decode`, reading the bytes left to right. */
  method DecodeLoop(f: Str) returns (r: Option<Str>)
    ensures r == DecodeForm(f)
    ensures DecodeIs(f, r)
  {
    DecodeAll(f);
    if f == [] || f[0] != UNDERSCORE { return None; }
    var data: seq<Byte> := [];
    var i := 1;
    PrependNil(Parse(f[1..]));
    while i < |f|
      invariant 1 <= i <= |f|
      invariant Parse(f[1..]) == Prepend(data, Parse(f[i..]))
      decreases |f| - i
    {
      var g := f[i..];
      assert g[0] == f[i];
      if f[i] == UNDERSCORE {
        if |g| < 4 || !Octal(g[1]) || !Octal(g[2]) || !Octal(g[3]) || Code3(g) > 0xFF { return None; }
        assert g[4..] == f[i + 4..];
        PrependCons(data, Code3(g), Parse(f[i + 4..]));
        data, i := data + [Code3(g)], i + 4;
      } else {
        if !Alnum(f[i]) { return None; }
        assert g[1..] == f[i + 1..];
        PrependCons(data, f[i], Parse(f[i + 1..]));
        data, i := data + [f[i]], i + 1;
      }
    }
    assert f[|f|..] == [] && Prepend(data, Some([])) == Some(data + []) && data + [] == data;
    r := Utf8.Decode(data);
  }

  function Prepend(data: seq<Byte>, r: Option<seq<Byte>>): Option<seq<Byte>> {
    match r case None => None case Some(bs) => Some(data + bs)
  }

  lemma PrependNil(r: Option<seq<Byte>>)
    ensures Prepend([], r) == r
  {
    if r.Some? { assert [] + r.value == r.value; }
  }

  lemma PrependCons(data: seq<Byte>, b: Byte, r: Option<seq<Byte>>)
    ensures Prepend(data, Cons(b, r)) == Prepend(data + [b], r)
  {
    if r.Some? { assert data + ([b] + r.value) == (data + [b]) + r.value; }
  }

  // ---------------------------------------------------------------- round trip

  lemma ParseEscByte(b: Byte, rest: Str)
    ensures Parse(EscByte(b) + rest) == Cons(b, Parse(rest))
  {
    var e := EscByte(b);
    var f := e + rest;
    assert f[|e|..] == rest;
    OctalDigits(b);
    if !Alnum(b) { assert f[0] == e[0] && f[1] == e[1] && f[2] == e[2] && f[3] == e[3]; }
  }

  lemma {:induction false} ParseEscBytes(bs: seq<Byte>)
    ensures Parse(EscBytes(bs)) == Some(bs)
    decreases |bs|
  {
    if bs == [] {
    } else {
      ParseEscBytes(bs[1..]);
      ParseEscByte(bs[0], EscBytes(bs[1..]));
      assert [bs[0]] + bs[1..] == bs;
    }
  }

  lemma DecodeEscape(n: Str)
    requires !IsPlain(n)
    ensures DecodeForm(Escape(n)) == Some(n)
  {
    var body := EscBytes(Encode(n));
    assert ([UNDERSCORE] + body)[1..] == body;
    ParseEscBytes(Encode(n));
    DecodeEncode(n);
  }

  /** Unescaping an escaped name returns it, for every name. */
  lemma EscapeRoundTrip(n: Str)
    ensures Unescape(Escape(n)) == Some(n)
  {
    if !IsPlain(n) { DecodeEscape(n); }
  }

  lemma EscapeInjective(m: Str, n: Str)
    requires Escape(m) == Escape(n)
    ensures m == n
  {
    EscapeRoundTrip(m);
    EscapeRoundTrip(n);
  }

  /** Unescaping succeeds on the image of escaping and nowhere else. */
  lemma UnescapeExact(f: Str, n: Str)
    ensures Unescape(f) == Some(n) <==> Escape(n) == f
  {
    if Escape(n) == f { EscapeRoundTrip(n); }
  }

  /** The escaped forms are exactly what escaping writes for the names it changes. */
  lemma EscapedExact(f: Str)
    ensures IsEscaped(f) <==> exists n :: !IsPlain(n) && Escape(n) == f
  {
    if IsEscaped(f) {
      var n := DecodeForm(f).value;
      assert !IsPlain(n) && Escape(n) == f;
    }
    if exists n :: !IsPlain(n) && Escape(n) == f {
      var n :| !IsPlain(n) && Escape(n) == f;
      DecodeEscape(n);
    }
  }

  /** Only letters, digits and _. */
  predicate Safe(f: Str) { forall i :: 0 <= i < |f| ==> Word(f[i]) }

  lemma {:induction false} EscBytesSafe(bs: seq<Byte>)
    ensures Safe(EscBytes(bs))
    decreases |bs|
  {
    if bs == [] {
    } else {
      EscBytesSafe(bs[1..]);
      OctalDigits(bs[0]);
    }
  }

  lemma EscapeSafe(n: Str)
    ensures Safe(Escape(n)) && Escape(n) != []
    ensures forall i :: 0 <= i < |Escape(n)| ==> Kept(Escape(n)[i]) || Escape(n)[i] == 95
  {
    EscBytesSafe(Encode(n));
  }

  // ---------------------------------------------------------------- decoding shortens

  lemma {:induction false} ParseShort(f: Str)
    requires Parse(f).Some?
    ensures |Parse(f).value| <= |f|
    decreases |f|
  {
    if f == [] {
    } else {
      ParseShort(if f[0] == UNDERSCORE then f[4..] else f[1..]);
    }
  }

  lemma DecodeShort(f: Str)
    requires DecodeForm(f).Some?
    ensures |DecodeForm(f).value| < |f|
  {
    ParseShort(f[1..]);
    EncodeDecode(Parse(f[1..]).value);
  }

  // ---------------------------------------------------------------- written names

  datatype Use = Psf | Nutmeg | File

  /** A character the use's format cannot hold. */
  predicate Odd(u: Use, c: Code) {
    match u
    case Psf => false
    case Nutmeg => Space(c) || c == COMMA
    case File => c == SLASH
  }

  predicate HasOdd(u: Use, p: Str) { exists i :: 0 <= i < |p| && Odd(u, p[i]) }

  /** `_odd_escaped`: the component holds an odd character, or is the escaped form of one that is so written. */
  predicate OddEscaped(u: Use, p: Str)
    decreases |p|
  {
    if u.Psf? then false
    else if HasOdd(u, p) then true
    else if IsEscaped(p) then DecodeShort(p); OddEscaped(u, DecodeForm(p).value)
    else false
  }

  predicate Separator(c: Code) { c == DOT || c == COLON }

  /** Where the first component ends. */
  function ComponentEnd(n: Str): (k: nat)
    ensures k <= |n| && (forall i :: 0 <= i < k ==> !Separator(n[i])) && (k < |n| ==> Separator(n[k]))
    decreases |n|
  {
    if n == [] || Separator(n[0]) then 0 else 1 + ComponentEnd(n[1..])
  }

  function WriteComponent(u: Use, p: Str): (w: Str) { if OddEscaped(u, p) then Escape(p) else p }

  function UnwriteComponent(u: Use, w: Str): (p: Str) {
    if IsEscaped(w) && OddEscaped(u, DecodeForm(w).value) then DecodeForm(w).value else w
  }

  /** The components rewritten, the separators kept. */
  function MapParts(f: Str -> Str, n: Str): (w: Str)
    decreases |n|
  {
    var k := ComponentEnd(n);
    f(n[..k]) + if k < |n| then [n[k]] + MapParts(f, n[k + 1..]) else []
  }

  function WriteParts(u: Use, n: Str): Str { MapParts((p: Str) => WriteComponent(u, p), n) }

  function UnwriteParts(u: Use, w: Str): Str { MapParts((p: Str) => UnwriteComponent(u, p), w) }

  /** `written_name`, with its early return. */
  function WrittenName(n: Str, u: Use): (w: Str) {
    if u.Psf? || (UNDERSCORE !in n && !HasOdd(u, n)) then n else WriteParts(u, n)
  }

  /** `written_unname`, with its early return. */
  function WrittenUnname(w: Str, u: Use): (n: Str) {
    if UNDERSCORE !in w || u.Psf? then w else UnwriteParts(u, w)
  }

  /** A component that is written escaped is not plain. */
  lemma OddNotPlain(u: Use, p: Str)
    requires OddEscaped(u, p)
    ensures !IsPlain(p)
  {
  }

  /** One component there and back: an escaped one is recognised by what it decodes to, and a component
      that only looks escaped was escaped again. */
  lemma ComponentRoundTrip(u: Use, p: Str)
    ensures UnwriteComponent(u, WriteComponent(u, p)) == p
  {
    if OddEscaped(u, p) {
      OddNotPlain(u, p);
      DecodeEscape(p);
    }
  }

  /** A component: no separator in it. */
  predicate Clean(p: Str) { forall i :: 0 <= i < |p| ==> !Separator(p[i]) }

  lemma ComponentClean(u: Use, p: Str)
    requires Clean(p)
    ensures Clean(WriteComponent(u, p))
  {
    EscapeSafe(p);
  }

  lemma {:induction false} EndOfClean(p: Str, rest: Str)
    requires Clean(p) && (rest != [] ==> Separator(rest[0]))
    ensures ComponentEnd(p + rest) == |p|
    decreases |p|
  {
    if p == [] {
      assert p + rest == rest;
    } else {
      assert (p + rest)[1..] == p[1..] + rest;
      EndOfClean(p[1..], rest);
    }
  }

  /** A name is one component, or a component, a separator and the rest. */
  lemma Split(n: Str) returns (p: Str, more: bool, sep: Code, r: Str)
    ensures Clean(p) && (!more ==> n == p) && (more ==> n == p + ([sep] + r) && Separator(sep))
  {
    var k := ComponentEnd(n);
    p, more, sep, r := n[..k], k < |n|, DOT, [];
    if k < |n| { sep, r := n[k], n[k + 1..]; }
  }

  lemma MapLast(f: Str -> Str, p: Str)
    requires Clean(p)
    ensures MapParts(f, p) == f(p)
  {
    assert p + [] == p;
    EndOfClean(p, []);
    assert p[..|p|] == p;
  }

  lemma MapFirst(f: Str -> Str, p: Str, sep: Code, r: Str)
    requires Clean(p) && Separator(sep)
    ensures MapParts(f, p + ([sep] + r)) == f(p) + ([sep] + MapParts(f, r))
  {
    var n := p + ([sep] + r);
    EndOfClean(p, [sep] + r);
    assert n[..|p|] == p && n[|p|] == sep && n[|p| + 1..] == r;
  }

  /** Reading back one component and the separator after it. */
  lemma ReadStep(n: Str, p: Str, sep: Code, r: Str, u: Use)
    requires Clean(p) && Separator(sep)
    ensures n + UnwriteParts(u, p + ([sep] + r)) == (n + UnwriteComponent(u, p) + [sep]) + UnwriteParts(u, r)
  {
    var g := (x: Str) => UnwriteComponent(u, x);
    MapFirst(g, p, sep, r);
    Regroup(n, g(p), sep, MapParts(g, r));
  }

  lemma Regroup(n: Str, p: Str, sep: Code, t: Str)
    ensures n + (p + ([sep] + t)) == (n + p + [sep]) + t
  {
  }

  /** What remains of the name being read back. */
  ghost predicate Reading(n: Str, rest: Str, u: Use, goal: Str) { n + UnwriteParts(u, rest) == goal }

  lemma ReadMore(n: Str, rest: Str, k: nat, u: Use, goal: Str)
    requires Reading(n, rest, u, goal) && k < |rest| && Clean(rest[..k]) && Separator(rest[k])
    ensures Reading(n + UnwriteComponent(u, rest[..k]) + [rest[k]], rest[k + 1..], u, goal)
  {
    assert rest[..k] + ([rest[k]] + rest[k + 1..]) == rest;
    ReadStep(n, rest[..k], rest[k], rest[k + 1..], u);
  }

  lemma ReadLast(n: Str, rest: Str, u: Use, goal: Str)
    requires Reading(n, rest, u, goal) && Clean(rest)
    ensures n + UnwriteComponent(u, rest) == goal
  {
    MapLast((x: Str) => UnwriteComponent(u, x), rest);
  }

  /** One turn of the loop: `more` when a separator follows. */
  method ReadComponent(n: Str, rest: Str, u: Use, ghost goal: Str) returns (n': Str, rest': Str, more: bool)
    requires Reading(n, rest, u, goal)
    ensures more ==> Reading(n', rest', u, goal) && |rest'| < |rest|
    ensures !more ==> n' == goal
  {
    var k := ComponentEnd(rest);
    if k < |rest| {
      ReadMore(n, rest, k, u, goal);
      return n + UnwriteComponent(u, rest[..k]) + [rest[k]], rest[k + 1..], true;
    }
    assert rest[..k] == rest;
    ReadLast(n, rest, u, goal);
    return n + UnwriteComponent(u, rest), [], false;
  }

  /** The loop of `written_unname` over components and separators. */
  method ReadBack(w: Str, u: Use) returns (n: Str)
    ensures n == WrittenUnname(w, u)
  {
    if UNDERSCORE !in w || u.Psf? { return w; }
    ghost var goal := UnwriteParts(u, w);
    assert [] + goal == goal;
    n := [];
    var rest, more := w, true;
    while more
      invariant if more then Reading(n, rest, u, goal) else n == goal
      decreases more, |rest|
    {
      n, rest, more := ReadComponent(n, rest, u, goal);
    }
  }

  lemma {:induction false} PartsRoundTrip(u: Use, n: Str)
    ensures UnwriteParts(u, WriteParts(u, n)) == n
    decreases |n|
  {
    var p, more, sep, r := Split(n);
    var f, g := (x: Str) => WriteComponent(u, x), (x: Str) => UnwriteComponent(u, x);
    ComponentRoundTrip(u, p);
    ComponentClean(u, p);
    if more {
      PartsRoundTrip(u, r);
      MapFirst(f, p, sep, r);
      MapFirst(g, f(p), sep, MapParts(f, r));
    } else {
      MapLast(f, p);
      MapLast(g, f(p));
    }
  }

  /** A rewriting that leaves every component without underscore and odd character alone leaves such a name alone. */
  lemma {:induction false} MapNothing(u: Use, f: Str -> Str, n: Str, odd: bool)
    requires UNDERSCORE !in n && (odd || !HasOdd(u, n))
    requires forall p: Str :: UNDERSCORE !in p && (odd || !HasOdd(u, p)) ==> f(p) == p
    ensures MapParts(f, n) == n
    decreases |n|
  {
    var p, more, sep, r := Split(n);
    if more {
      assert p <= n && forall i :: 0 <= i < |r| ==> r[i] == n[|p| + 1 + i];
      PartsOdd(u, p, sep, r);
      MapNothing(u, f, r, odd);
      MapFirst(f, p, sep, r);
    } else {
      MapLast(f, p);
    }
  }

  lemma PartsOdd(u: Use, p: Str, sep: Code, r: Str)
    ensures HasOdd(u, p) || HasOdd(u, r) ==> HasOdd(u, p + ([sep] + r))
    ensures UNDERSCORE in p || UNDERSCORE in r ==> UNDERSCORE in p + ([sep] + r)
  {
    var n := p + ([sep] + r);
    assert forall i :: 0 <= i < |p| ==> n[i] == p[i];
    assert forall i :: 0 <= i < |r| ==> n[|p| + 1 + i] == r[i];
  }

  /** Without an underscore or an odd character nothing is rewritten. */
  lemma WriteNothing(u: Use, n: Str)
    requires UNDERSCORE !in n && !HasOdd(u, n)
    ensures WriteParts(u, n) == n
  {
    MapNothing(u, (p: Str) => WriteComponent(u, p), n, false);
  }

  lemma UnwriteNothing(u: Use, w: Str)
    requires UNDERSCORE !in w
    ensures UnwriteParts(u, w) == w
  {
    MapNothing(u, (p: Str) => UnwriteComponent(u, p), w, true);
  }

  /** Reading a written name back gives the name, for every name and use. */
  lemma WrittenRoundTrip(n: Str, u: Use)
    ensures WrittenUnname(WrittenName(n, u), u) == n
  {
    if !u.Psf? {
      if UNDERSCORE !in n && !HasOdd(u, n) { WriteNothing(u, n); }
      PartsRoundTrip(u, n);
      var w := WriteParts(u, n);
      if UNDERSCORE !in w { UnwriteNothing(u, w); }
    }
  }

  lemma WrittenInjective(m: Str, n: Str, u: Use)
    requires WrittenName(m, u) == WrittenName(n, u)
    ensures m == n
  {
    WrittenRoundTrip(m, u);
    WrittenRoundTrip(n, u);
  }

  /** A written component holds nothing the format cannot. */
  lemma ComponentHoldable(u: Use, p: Str)
    ensures !HasOdd(u, WriteComponent(u, p))
  {
    EscapeSafe(p);
  }

  lemma {:induction false} PartsHoldable(u: Use, n: Str)
    ensures !HasOdd(u, WriteParts(u, n))
    decreases |n|
  {
    var p, more, sep, r := Split(n);
    var f := (x: Str) => WriteComponent(u, x);
    ComponentHoldable(u, p);
    if more {
      PartsHoldable(u, r);
      MapFirst(f, p, sep, r);
      JoinHoldable(u, f(p), sep, MapParts(f, r));
    } else {
      MapLast(f, p);
    }
  }

  lemma JoinHoldable(u: Use, p: Str, sep: Code, r: Str)
    requires !HasOdd(u, p) && !HasOdd(u, r) && Separator(sep)
    ensures !HasOdd(u, p + ([sep] + r))
  {
    var w := p + ([sep] + r);
    forall i | 0 <= i < |w| ensures !Odd(u, w[i]) {
      if i < |p| { assert w[i] == p[i]; }
      else if i > |p| { assert w[i] == r[i - |p| - 1]; }
    }
  }

  /** A nutmeg name ends at white space or a comma, a file name cannot hold a slash; a PSF string holds everything. */
  ghost predicate Holds(u: Use, c: int) {
    && (u.Nutmeg? ==> c != 44 && !(9 <= c <= 13) && !(28 <= c <= 32) && c != 0x85 && c != 0xA0 && c != 0x1680
                      && !(0x2000 <= c <= 0x200A) && c != 0x2028 && c != 0x2029 && c != 0x202F && c != 0x205F && c != 0x3000)
    && (u.File? ==> c != 47)
  }

  /** No written name holds a character its format cannot. */
  lemma WrittenHoldable(n: Str, u: Use)
    ensures forall i :: 0 <= i < |WrittenName(n, u)| ==> Holds(u, WrittenName(n, u)[i])
  {
    PartsHoldable(u, n);
  }

  /** A component that the format cannot hold, or that is the escape of one written so, is written escaped, and no other;
      the dots and colons between components stay. */
  lemma WrittenMeans(p: Str, sep: Code, r: Str, u: Use)
    requires (forall i :: 0 <= i < |p| ==> p[i] != 46 && p[i] != 58) && (sep == 46 || sep == 58)
    ensures WrittenName(p + ([sep] + r), u) == WrittenName(p, u) + ([sep] + WrittenName(r, u))
    ensures (exists i :: 0 <= i < |p| && !Holds(u, p[i])) ==> WrittenName(p, u) == Escape(p)
    ensures (forall i :: 0 <= i < |p| ==> Holds(u, p[i])) && !IsEscaped(p) ==> WrittenName(p, u) == p
    ensures (forall i :: 0 <= i < |p| ==> Holds(u, p[i])) && IsEscaped(p) ==>
      WrittenName(p, u) == if OddEscaped(u, DecodeForm(p).value) then Escape(p) else p
    ensures WrittenName(r, Psf) == r
  {
    var f := (x: Str) => WriteComponent(u, x);
    var n := p + ([sep] + r);
    MapFirst(f, p, sep, r);
    MapLast(f, p);
    NoneWritten(u, n);
    NoneWritten(u, p);
    NoneWritten(u, r);
    PsfOrParts(u, n);
    PsfOrParts(u, p);
    PsfOrParts(u, r);
    forall i | 0 <= i < |p| ensures Odd(u, p[i]) <==> !Holds(u, p[i]) {}
    if IsEscaped(p) && !HasOdd(u, p) { DecodeShort(p); }
  }

  lemma NoneWritten(u: Use, n: Str)
    ensures UNDERSCORE !in n && !HasOdd(u, n) ==> WriteParts(u, n) == n
  {
    if UNDERSCORE !in n && !HasOdd(u, n) { WriteNothing(u, n); }
  }

  lemma PsfOrParts(u: Use, n: Str)
    requires UNDERSCORE !in n && !HasOdd(u, n) ==> WriteParts(u, n) == n
    ensures WrittenName(n, u) == if u.Psf? then n else WriteParts(u, n)
  {
  }

  /** The names `b.c` and `a/b`. */
  lemma Examples(bc: Str, ab: Str)
    requires bc == [98, 46, 99] && ab == [97, 47, 98]
    ensures Escape(bc) == [95, 98, 95, 48, 53, 54, 99]
    ensures WrittenName(ab, File) == [95, 97, 95, 48, 53, 55, 98]
  {
    ExampleForm(98, 46, 99);
    ExampleForm(97, 47, 98);
    assert !Holds(File, ab[1]);
    WrittenMeans(ab, 46, [], File);
  }

  /** A letter, a byte that is neither letter nor digit, and a letter. */
  lemma ExampleForm(a: Code, b: Code, c: Code)
    requires Alnum(a) && 32 <= b < 48 && Alnum(c)
    ensures Escape([a, b, c]) == [95, a, 95, 48 + b / 64, 48 + b / 8 % 8, 48 + b % 8, c]
  {
    var n: Str := [a, b, c];
    assert n[1] == b && !IsPlain(n);
    assert n[1..] == [b, c] && n[1..][1..] == [c] && n[1..][1..][1..] == [];
    assert Encode([c]) == [c] && Encode([b, c]) == [b, c] && Encode(n) == [a, b, c];
    var bs: seq<Byte> := [a, b, c];
    assert bs[1..] == [b, c] && bs[1..][1..] == [c] && bs[1..][1..][1..] == [];
    assert EscBytes([c]) == [c];
    assert EscBytes([b, c]) == EscByte(b) + [c];
  }

  // ---------------------------------------------------------------- texts that are not written names

  /** A component is the escape of one that is written so. */
  predicate SomeEscaped(u: Use, w: Str)
    decreases |w|
  {
    var k := ComponentEnd(w);
    (IsEscaped(w[..k]) && OddEscaped(u, DecodeForm(w[..k]).value)) || (k < |w| && SomeEscaped(u, w[k + 1..]))
  }

  lemma ShortComponent(u: Use, p: Str)
    ensures var q := UnwriteComponent(u, p);
      if IsEscaped(p) && OddEscaped(u, DecodeForm(p).value) then |q| < |p| else q == p
  {
    if IsEscaped(p) { DecodeShort(p); }
  }

  lemma JoinShort(p: Str, x: Str, c: Code, r: Str, y: Str, a: bool, b: bool)
    requires (if a then |x| < |p| else x == p) && (if b then |y| < |r| else y == r)
    ensures if a || b then |x + ([c] + y)| < |p + ([c] + r)| else x + ([c] + y) == p + ([c] + r)
  {
  }

  /** The component `p` is the escape of one that is written so. */
  predicate OddEscape(u: Use, p: Str) { IsEscaped(p) && OddEscaped(u, DecodeForm(p).value) }

  lemma SomeStep(u: Use, p: Str, sep: Code, r: Str)
    requires Clean(p) && Separator(sep)
    ensures SomeEscaped(u, p + ([sep] + r)) == (OddEscape(u, p) || SomeEscaped(u, r))
  {
    var w := p + ([sep] + r);
    EndOfClean(p, [sep] + r);
    assert w[..|p|] == p && w[|p| + 1..] == r;
  }

  lemma SomeLast(u: Use, p: Str)
    requires Clean(p)
    ensures SomeEscaped(u, p) == OddEscape(u, p)
  {
    assert p + [] == p;
    EndOfClean(p, []);
    assert p[..|p|] == p;
  }

  /** Reading back shortens exactly where it finds such a component. */
  lemma {:induction false} UnwriteShortens(u: Use, w: Str)
    ensures if SomeEscaped(u, w) then |UnwriteParts(u, w)| < |w| else UnwriteParts(u, w) == w
    decreases |w|
  {
    var p, more, sep, r := Split(w);
    var g := (x: Str) => UnwriteComponent(u, x);
    ShortComponent(u, p);
    if more {
      UnwriteShortens(u, r);
      MapFirst(g, p, sep, r);
      SomeStep(u, p, sep, r);
      JoinShort(p, g(p), sep, r, MapParts(g, r), OddEscape(u, p), SomeEscaped(u, r));
    } else {
      MapLast(g, p);
      SomeLast(u, p);
    }
  }

  lemma {:induction false} EscapedHasMark(u: Use, w: Str)
    requires UNDERSCORE !in w
    ensures !SomeEscaped(u, w)
    decreases |w|
  {
    var k := ComponentEnd(w);
    assert forall c :: c in w[..k] ==> c in w;
    if k < |w| {
      assert forall c :: c in w[k + 1..] ==> c in w;
      EscapedHasMark(u, w[k + 1..]);
    }
  }

  /** A text comes back as it is exactly when no component of it is the escape of one that is written so. */
  lemma UnnameExact(w: Str, u: Use)
    ensures WrittenUnname(w, u) == w <==> u.Psf? || !SomeEscaped(u, w)
  {
    UnwriteShortens(u, w);
    if UNDERSCORE !in w { EscapedHasMark(u, w); }
  }

  lemma BlankEscaped(w: Str)
    requires w == [95, 97, 95, 48, 52, 48, 98, 46, 32]
    ensures SomeEscaped(Nutmeg, w)
  {
    var p := [97, 32, 98];
    ExampleForm(97, 32, 98);
    DecodeEscape(p);
    assert p[1] == 32 && HasOdd(Nutmeg, p);
    assert w == Escape(p) + ([46] + [32]);
    EscapeClean(p);
    SomeStep(Nutmeg, Escape(p), 46, [32]);
  }

  lemma EscapeClean(p: Str)
    ensures Clean(Escape(p))
  {
    EscapeSafe(p);
  }

  /** `_a_040b. ` is never written, since a component of it is a blank, and does not come back as it is. */
  lemma NeverWritten(w: Str)
    requires w == [95, 97, 95, 48, 52, 48, 98, 46, 32]
    ensures (forall n :: WrittenName(n, Nutmeg) != w) && WrittenUnname(w, Nutmeg) != w
  {
    forall n ensures WrittenName(n, Nutmeg) != w {
      WrittenHoldable(n, Nutmeg);
      assert !Holds(Nutmeg, w[8]);
    }
    BlankEscaped(w);
    UnnameExact(w, Nutmeg);
  }
}
