/**
 UTF-16 strings kept in byte strings.

 Scalar values use UTF-8; an isolated surrogate uses the three-byte form that UTF-8 leaves out.
 A byte string is canonical when no encoded high surrogate is followed by an encoded low one.
 */
module Wtf8 {

  type Byte = b: int | 0 <= b < 0x100
  type Unit = u: int | 0 <= u < 0x1_0000
  type Code = c: int | 0 <= c < 0x11_0000

  predicate IsHigh(u: int) {
    0xD800 <= u <= 0xDBFF
  }

  predicate IsLow(u: int) {
    0xDC00 <= u <= 0xDFFF
  }

  predicate IsSurrogate(u: int) {
    0xD800 <= u <= 0xDFFF
  }

  function Combine(hi: int, lo: int): Code
    requires IsHigh(hi) && IsLow(lo)
  {
    0x1_0000 + (hi - 0xD800) * 0x400 + (lo - 0xDC00)
  }

  // ---------------------------------------------------------------------------
  // Encoding and decoding one code
  // ---------------------------------------------------------------------------

  /** Base-64 digits of a code, most significant first. */
  function D0(c: int): int { c % 0x40 }
  function D1(c: int): int { c / 0x40 % 0x40 }
  function D2(c: int): int { c / 0x1000 % 0x40 }
  function D3(c: int): int { c / 0x4_0000 }

  lemma Base64(c: int)
    requires 0 <= c < 0x11_0000
    ensures c == D3(c) * 0x4_0000 + D2(c) * 0x1000 + D1(c) * 0x40 + D0(c)
    ensures 0 <= D3(c) <= 4 && 0 <= D2(c) < 0x40 && 0 <= D1(c) < 0x40 && 0 <= D0(c) < 0x40
  {
    assert c / 0x1000 == c / 0x40 / 0x40;
    assert c / 0x4_0000 == c / 0x1000 / 0x40;
  }

  lemma Base64Digits(d3: int, d2: int, d1: int, d0: int)
    requires 0 <= d3 <= 4 && 0 <= d2 < 0x40 && 0 <= d1 < 0x40 && 0 <= d0 < 0x40
    ensures var c := d3 * 0x4_0000 + d2 * 0x1000 + d1 * 0x40 + d0;
            D3(c) == d3 && D2(c) == d2 && D1(c) == d1 && D0(c) == d0
  {
    var c := d3 * 0x4_0000 + d2 * 0x1000 + d1 * 0x40 + d0;
    assert c / 0x40 == d3 * 0x1000 + d2 * 0x40 + d1;
    assert c / 0x1000 == d3 * 0x40 + d2;
  }

  /** The bytes of a code, surrogates included. */
  function Encode(c: Code): (s: seq<Byte>)
    ensures 1 <= |s| <= 4
  {
    Base64(c);
    if c < 0x80 then [c]
    else if c < 0x800 then [0xC0 + D1(c), 0x80 + D0(c)]
    else if c < 0x1_0000 then [0xE0 + D2(c), 0x80 + D1(c), 0x80 + D0(c)]
    else [0xF0 + D3(c), 0x80 + D2(c), 0x80 + D1(c), 0x80 + D0(c)]
  }

  predicate Continues(b: int) {
    0x80 <= b <= 0xBF
  }

  const REPLACEMENT := 0xFFFD

  predicate LeadsThree(b: int, b1: int, b2: int) {
    0xE0 <= b <= 0xEF && (if b == 0xE0 then 0xA0 else 0x80) <= b1 <= (if b == 0xED then 0x9F else 0xBF) && Continues(b2)
  }

  predicate LeadsFour(b: int, b1: int, b2: int, b3: int) {
    && 0xF0 <= b <= 0xF4 && (if b == 0xF0 then 0x90 else 0x80) <= b1 <= (if b == 0xF4 then 0x8F else 0xBF)
    && Continues(b2) && Continues(b3)
  }

  /** The code of up to four bytes, from their payloads. */
  function Assemble(d3: int, d2: int, d1: int, d0: int): int {
    d3 * 0x4_0000 + d2 * 0x1000 + d1 * 0x40 + d0
  }

  /** The UTF-8 decoder of the host: the scalar and its width, or the replacement and 1. */
  function DecodeRune(s: seq<Byte>): (r: (Code, nat))
    requires s != []
    ensures 1 <= r.1 <= |s|
  {
    var b: int := s[0];
    if b < 0x80 then (b, 1)
    else if 0xC2 <= b <= 0xDF && |s| >= 2 && Continues(s[1]) then
      var b1: int := s[1];
      (Assemble(0, 0, b - 0xC0, b1 - 0x80), 2)
    else if |s| >= 3 && LeadsThree(b, s[1], s[2]) then
      var b1: int, b2: int := s[1], s[2];
      (Assemble(0, b - 0xE0, b1 - 0x80, b2 - 0x80), 3)
    else if |s| >= 4 && LeadsFour(b, s[1], s[2], s[3]) then
      var b1: int, b2: int, b3: int := s[1], s[2], s[3];
      (Assemble(b - 0xF0, b1 - 0x80, b2 - 0x80, b3 - 0x80), 4)
    else (REPLACEMENT, 1)
  }

  /** The surrogate that three bytes encode, or 0. */
  function Surrogate(s: seq<Byte>): (u: Unit)
    ensures u == 0 || IsSurrogate(u)
  {
    if |s| != 3 || s[0] != 0xED || s[1] < 0xA0 || s[1] > 0xBF || !Continues(s[2]) then 0
    else
      var b1: int, b2: int := s[1], s[2];
      Assemble(0, 0xD, b1 - 0x80, b2 - 0x80)
  }

  function SurrogateAt(s: seq<Byte>): Unit {
    if |s| >= 3 then Surrogate(s[..3]) else 0
  }

  /** One step of every scan over a string: the code at its front and the bytes it takes. */
  function Next(s: seq<Byte>): (r: (Code, nat))
    requires s != []
    ensures 1 <= r.1 <= |s|
  {
    if SurrogateAt(s) != 0 then (SurrogateAt(s), 3) else DecodeRune(s)
  }

  /** Bytes that decode to the replacement only because they are malformed. */
  predicate MalformedAt(s: seq<Byte>)
    requires s != []
  {
    SurrogateAt(s) == 0 && DecodeRune(s).1 == 1 && s[0] >= 0x80
  }

  lemma SurrogateOfEncoded(c: Code, rest: seq<Byte>)
    ensures SurrogateAt(Encode(c) + rest) == if IsSurrogate(c) then c else 0
  {
    Base64(c);
    var e, s := Encode(c), Encode(c) + rest;
    assert forall i :: 0 <= i < |e| ==> s[i] == e[i];
    if |s| >= 3 {
      assert s[..3] == [s[0], s[1], s[2]];
    }
  }

  lemma RuneOfEncoded(c: Code, rest: seq<Byte>)
    requires !IsSurrogate(c)
    ensures DecodeRune(Encode(c) + rest) == (c, |Encode(c)|)
    ensures |Encode(c)| == 1 ==> (Encode(c) + rest)[0] < 0x80
  {
    hide Encode, D0, D1, D2, D3;
    EncodingIsUtf8(c);
    var e, s := Encode(c), Encode(c) + rest;
    assert forall i :: 0 <= i < |e| ==> s[i] == e[i];
  }

  lemma NextOfEncoded(c: Code, rest: seq<Byte>)
    ensures Next(Encode(c) + rest) == (c, |Encode(c)|) && !MalformedAt(Encode(c) + rest)
    ensures SurrogateAt(Encode(c) + rest) == if IsSurrogate(c) then c else 0
  {
    SurrogateOfEncoded(c, rest);
    assert IsSurrogate(c) ==> |Encode(c)| == 3;
    hide Encode, SurrogateAt, DecodeRune;
    if !IsSurrogate(c) {
      RuneOfEncoded(c, rest);
    }
  }

  lemma DecodedWidth(s: seq<Byte>)
    requires s != []
    ensures 1 <= DecodeRune(s).1 <= 4
    ensures s[0] < 0x80 ==> DecodeRune(s) == (s[0], 1) && Encode(s[0]) == s[..1]
  {
    hide Assemble;
  }

  lemma EncodedTwo(b: Byte, b1: Byte)
    requires 0xC2 <= b <= 0xDF && Continues(b1)
    ensures Encode(Assemble(0, 0, b - 0xC0, b1 - 0x80)) == [b, b1]
  {
    Base64Digits(0, 0, b - 0xC0, b1 - 0x80);
  }

  lemma EncodedThree(b: Byte, b1: Byte, b2: Byte)
    requires LeadsThree(b, b1, b2) || (b == 0xED && 0xA0 <= b1 <= 0xBF && Continues(b2))
    ensures Encode(Assemble(0, b - 0xE0, b1 - 0x80, b2 - 0x80)) == [b, b1, b2]
  {
    Base64Digits(0, b - 0xE0, b1 - 0x80, b2 - 0x80);
  }

  lemma EncodedFour(b: Byte, b1: Byte, b2: Byte, b3: Byte)
    requires LeadsFour(b, b1, b2, b3)
    ensures Encode(Assemble(b - 0xF0, b1 - 0x80, b2 - 0x80, b3 - 0x80)) == [b, b1, b2, b3]
  {
    Base64Digits(b - 0xF0, b1 - 0x80, b2 - 0x80, b3 - 0x80);
  }

  lemma EncodedSurrogate(s: seq<Byte>)
    requires SurrogateAt(s) != 0
    ensures Encode(SurrogateAt(s)) == s[..3]
  {
    assert s[..3] == [s[0], s[1], s[2]];
    EncodedThree(s[0], s[1], s[2]);
  }

  lemma EncodedRuneTwo(s: seq<Byte>)
    requires s != [] && DecodeRune(s).1 == 2
    ensures Encode(DecodeRune(s).0) == s[..2]
  {
    hide Encode, Assemble;
    EncodedTwo(s[0], s[1]);
    assert s[..2] == [s[0], s[1]];
  }

  lemma EncodedRuneThree(s: seq<Byte>)
    requires s != [] && DecodeRune(s).1 == 3
    ensures Encode(DecodeRune(s).0) == s[..3]
  {
    hide Encode, Assemble, LeadsFour;
    EncodedThree(s[0], s[1], s[2]);
    assert s[..3] == [s[0], s[1], s[2]];
  }

  lemma EncodedRuneFour(s: seq<Byte>)
    requires s != [] && DecodeRune(s).1 == 4
    ensures Encode(DecodeRune(s).0) == s[..4]
  {
    hide Encode, Assemble, LeadsThree;
    EncodedFour(s[0], s[1], s[2], s[3]);
    assert s[..4] == [s[0], s[1], s[2], s[3]];
  }

  lemma EncodedRune(s: seq<Byte>)
    requires s != [] && (s[0] < 0x80 || DecodeRune(s).1 > 1)
    ensures Encode(DecodeRune(s).0) == s[..DecodeRune(s).1]
  {
    DecodedWidth(s);
    hide DecodeRune, Encode;
    if DecodeRune(s).1 == 2 {
      EncodedRuneTwo(s);
    } else if DecodeRune(s).1 == 3 {
      EncodedRuneThree(s);
    } else if DecodeRune(s).1 == 4 {
      EncodedRuneFour(s);
    }
  }

  lemma EncodedNext(s: seq<Byte>)
    requires s != [] && !MalformedAt(s)
    ensures Encode(Next(s).0) == s[..Next(s).1]
  {
    if SurrogateAt(s) != 0 {
      EncodedSurrogate(s);
    } else {
      EncodedRune(s);
    }
  }

  // ---------------------------------------------------------------------------
  // The formats
  // ---------------------------------------------------------------------------

  /** UTF-8, by what its bytes carry: the shortest form, six bits in each byte after the first (section 3 of RFC 3629). */
  lemma EncodingIsUtf8(c: Code)
    ensures var e: seq<int> := Encode(c);
            if c < 0x80 then e == [c]
            else if c < 0x800 then
              |e| == 2 && 0xC0 <= e[0] < 0xE0 && 0x80 <= e[1] < 0xC0 && c == (e[0] - 0xC0) * 0x40 + (e[1] - 0x80)
            else if c < 0x1_0000 then
              && |e| == 3 && 0xE0 <= e[0] < 0xF0 && 0x80 <= e[1] < 0xC0 && 0x80 <= e[2] < 0xC0
              && c == (e[0] - 0xE0) * 0x1000 + (e[1] - 0x80) * 0x40 + (e[2] - 0x80)
            else
              && |e| == 4 && 0xF0 <= e[0] < 0xF8 && 0x80 <= e[1] < 0xC0 && 0x80 <= e[2] < 0xC0 && 0x80 <= e[3] < 0xC0
              && c == (e[0] - 0xF0) * 0x4_0000 + (e[1] - 0x80) * 0x1000 + (e[2] - 0x80) * 0x40 + (e[3] - 0x80)
  {
    Base64(c);
  }

  /** UTF-16: a code above the basic plane is a high and a low half, ten bits each. */
  lemma HalvesAreUtf16(c: Code)
    ensures c < 0x1_0000 ==> Split(c) == [c]
    ensures c >= 0x1_0000 ==>
              Split(c) == [0xD7C0 + c / 0x400, 0xDC00 + c % 0x400] && IsHigh(Split(c)[0]) && IsLow(Split(c)[1])
  {
  }

  predicate StartsWith(s: seq<Byte>, e: seq<Byte>) {
    |e| <= |s| && s[..|e|] == e
  }

  /** The scans read the code whose encoding comes next; a byte that starts none is U+FFFD. */
  lemma ScansAreExact(s: seq<Byte>)
    requires s != []
    ensures forall c: Code :: StartsWith(s, Encode(c)) ==> Next(s) == (c, |Encode(c)|)
    ensures (forall c: Code :: !StartsWith(s, Encode(c))) ==> Next(s) == (0xFFFD, 1)
  {
    forall c: Code | StartsWith(s, Encode(c))
      ensures Next(s) == (c, |Encode(c)|)
    {
      NextOfEncoded(c, s[|Encode(c)|..]);
      assert s == Encode(c) + s[|Encode(c)|..];
    }
    if MalformedAt(s) {
      MalformedIsReplaced(s);
    } else {
      EncodedNext(s);
      assert StartsWith(s, Encode(Next(s).0));
    }
  }

  lemma MalformedIsReplaced(s: seq<Byte>)
    requires s != [] && MalformedAt(s)
    ensures Next(s) == (0xFFFD, 1)
  {
    hide Assemble;
  }

  // ---------------------------------------------------------------------------
  // Strings as codes
  // ---------------------------------------------------------------------------

  function FlatMap<A, B>(f: A -> seq<B>, s: seq<A>): seq<B> {
    if s == [] then [] else f(s[0]) + FlatMap(f, s[1..])
  }

  lemma {:induction false} FlatMapAppends<A, B>(f: A -> seq<B>, a: seq<A>, b: seq<A>)
    ensures FlatMap(f, a + b) == FlatMap(f, a) + FlatMap(f, b)
  {
    if a == [] {
      assert a + b == b;
    } else {
      assert (a + b)[1..] == a[1..] + b;
      FlatMapAppends(f, a[1..], b);
    }
  }

  lemma FlatMapAround<A, B>(f: A -> seq<B>, front: seq<A>, x: A, back: seq<A>)
    ensures FlatMap(f, front + [x]) == FlatMap(f, front) + f(x)
    ensures FlatMap(f, [x] + back) == f(x) + FlatMap(f, back)
    ensures FlatMap(f, front + [x] + back) == FlatMap(f, front) + f(x) + FlatMap(f, back)
  {
    FlatMapAppends(f, front, [x]);
    FlatMapAppends(f, [x], back);
    FlatMapAppends(f, front + [x], back);
    assert FlatMap(f, [x]) == f(x) + FlatMap(f, []);
  }

  function EncodeAll(cs: seq<Code>): seq<Byte> {
    FlatMap(Encode, cs)
  }

  /** The codes a scan finds, malformed bytes read as replacements. */
  function Codes(s: seq<Byte>): seq<Code>
    decreases |s|
  {
    if s == [] then [] else
    var (c, n) := Next(s);
    [c] + Codes(s[n..])
  }

  /** No high surrogate stands directly before a low one. */
  predicate Canonical(cs: seq<Code>) {
    forall i :: 0 < i < |cs| && IsHigh(cs[i - 1]) ==> !IsLow(cs[i])
  }

  /** The canonical encodings. */
  ghost predicate WellFormed(s: seq<Byte>) {
    exists cs :: Canonical(cs) && s == EncodeAll(cs)
  }

  function Split(c: Code): seq<Unit> {
    if c < 0x1_0000 then [c] else [0xD800 + (c - 0x1_0000) / 0x400, 0xDC00 + (c - 0x1_0000) % 0x400]
  }

  function SplitAll(cs: seq<Code>): seq<Unit> {
    FlatMap(Split, cs)
  }

  predicate PairAt(us: seq<Unit>, i: int) {
    0 <= i < |us| - 1 && IsHigh(us[i]) && IsLow(us[i + 1])
  }

  /** The codes of a unit sequence: surrogate pairs are joined, all else stands alone. */
  function Pair(us: seq<Unit>): seq<Code> {
    if us == [] then []
    else if PairAt(us, 0) then [Combine(us[0], us[1])] + Pair(us[2..])
    else [us[0]] + Pair(us[1..])
  }

  function UnitsOf(s: seq<Byte>): seq<Unit> {
    SplitAll(Codes(s))
  }

  function BytesOf(us: seq<Unit>): seq<Byte> {
    EncodeAll(Pair(us))
  }

  lemma {:induction false} CodesOfEncoded(cs: seq<Code>)
    ensures Codes(EncodeAll(cs)) == cs
  {
    if cs != [] {
      var e, rest := Encode(cs[0]), EncodeAll(cs[1..]);
      NextOfEncoded(cs[0], rest);
      assert (e + rest)[|e|..] == rest;
      CodesOfEncoded(cs[1..]);
    }
  }

  lemma SplitJoins(hi: int, lo: int)
    requires IsHigh(hi) && IsLow(lo)
    ensures Split(Combine(hi, lo)) == [hi, lo]
  {
  }

  lemma {:induction false} SplitOfPaired(us: seq<Unit>)
    ensures SplitAll(Pair(us)) == us
  {
    if us != [] {
      if PairAt(us, 0) {
        SplitJoins(us[0], us[1]);
        SplitOfPaired(us[2..]);
      } else {
        SplitOfPaired(us[1..]);
      }
    }
  }

  lemma {:induction false} PairedIsCanonical(us: seq<Unit>)
    ensures Canonical(Pair(us))
    ensures us != [] && IsLow(Pair(us)[0]) ==> us[0] == Pair(us)[0]
  {
    if us != [] {
      PairedIsCanonical(us[if PairAt(us, 0) then 2 else 1..]);
    }
  }

  lemma {:induction false} PairOfSplit(cs: seq<Code>)
    requires Canonical(cs)
    ensures Pair(SplitAll(cs)) == cs
  {
    if cs != [] {
      var us, rest := SplitAll(cs), SplitAll(cs[1..]);
      assert Canonical(cs[1..]) by {
        assert forall i :: 0 <= i < |cs[1..]| ==> cs[1..][i] == cs[i + 1];
      }
      PairOfSplit(cs[1..]);
      if cs[0] < 0x1_0000 {
        assert us[1..] == rest;
        assert rest != [] && IsLow(rest[0]) ==> rest[0] == cs[1];
        assert !PairAt(us, 0);
      } else {
        assert us[2..] == rest;
      }
    }
  }

  /** Every unit sequence survives the byte form, which is canonical. */
  lemma UnitsSurvive(us: seq<Unit>)
    ensures WellFormed(BytesOf(us)) && UnitsOf(BytesOf(us)) == us
  {
    PairedIsCanonical(us);
    CodesOfEncoded(Pair(us));
    SplitOfPaired(us);
  }

  /** Every canonical byte string survives the unit form. */
  lemma BytesSurvive(s: seq<Byte>)
    requires WellFormed(s)
    ensures BytesOf(UnitsOf(s)) == s && EncodeAll(Codes(s)) == s && Canonical(Codes(s))
  {
    var cs :| Canonical(cs) && s == EncodeAll(cs);
    CodesOfEncoded(cs);
    PairOfSplit(cs);
  }

  // ---------------------------------------------------------------------------
  // The scans
  // ---------------------------------------------------------------------------

  lemma Extend<T>(out: seq<T>, step: seq<T>, whole: seq<T>, rest: seq<T>)
    requires whole == step + rest
    ensures out + step + rest == out + whole
  {
  }

  lemma UnitsStep(s: seq<Byte>)
    requires s != []
    ensures UnitsOf(s) == Split(Next(s).0) + UnitsOf(s[Next(s).1..])
    ensures if |s| >= 3 && Surrogate(s[..3]) != 0 then Next(s) == (Surrogate(s[..3]), 3) && Split(Next(s).0) == [Next(s).0]
            else Next(s) == DecodeRune(s)
  {
  }

  lemma SplitOne(c: Code)
    ensures Split(c) == if c > 0xFFFF then [0xD800 + (c - 0x1_0000) / 0x400, 0xDC00 + (c - 0x1_0000) % 0x400] else [c]
  {
  }

  method Units(s: seq<Byte>) returns (out: seq<Unit>)
    ensures out == UnitsOf(s)
  {
    assert UnitsOf([]) == [];
    hide UnitsOf, Next, DecodeRune, SurrogateAt, Surrogate, Split;
    out := [];
    var s' := s;
    while |s'| > 0
      invariant out + UnitsOf(s') == UnitsOf(s)
    {
      UnitsStep(s');
      ghost var whole, step, rest := UnitsOf(s'), Split(Next(s').0), UnitsOf(s'[Next(s').1..]);
      Extend(out, step, whole, rest);
      if |s'| >= 3 {
        var u := Surrogate(s'[..3]);
        if u != 0 {
          out := out + [u];
          s' := s'[3..];
          continue;
        }
      }
      var (r, n) := DecodeRune(s');
      s' := s'[n..];
      SplitOne(r);
      if r > 0xFFFF {
        out := out + [0xD800 + (r - 0x1_0000) / 0x400, 0xDC00 + (r - 0x1_0000) % 0x400];
      } else {
        out := out + [r];
      }
    }
  }

  /** The host's codePointAt. */
  function CodePointAt(us: seq<Unit>, i: nat): Code
    requires i < |us|
  {
    if PairAt(us, i) then Combine(us[i], us[i + 1]) else us[i]
  }

  lemma PairStep(us: seq<Unit>, i: nat)
    requires i < |us|
    ensures var c := CodePointAt(us, i);
            var n := if c > 0xFFFF then 2 else 1;
            i + n <= |us| && Pair(us[i..]) == [c] + Pair(us[i + n..]) && Split(c) == us[i..i + n]
  {
    var rest := us[i..];
    if PairAt(us, i) {
      assert PairAt(rest, 0) && rest[2..] == us[i + 2..];
      SplitJoins(us[i], us[i + 1]);
    } else {
      assert rest[1..] == us[i + 1..];
    }
  }

  lemma BytesStep(us: seq<Unit>, i: nat, c: Code, n: nat)
    requires i + n <= |us| && Pair(us[i..]) == [c] + Pair(us[i + n..])
    ensures BytesOf(us[i..]) == Encode(c) + BytesOf(us[i + n..])
  {
    FlatMapAround(Encode, [], c, Pair(us[i + n..]));
  }

  method FromUnits(us: seq<Unit>) returns (out: seq<Byte>)
    ensures out == BytesOf(us)
  {
    out := [];
    var i := 0;
    while i < |us|
      invariant 0 <= i <= |us|
      invariant out + BytesOf(us[i..]) == BytesOf(us)
    {
      PairStep(us, i);
      if IsHigh(us[i]) && i + 1 < |us| && IsLow(us[i + 1]) {
        BytesStep(us, i, Combine(us[i], us[i + 1]), 2);
        Extend(out, Encode(Combine(us[i], us[i + 1])), BytesOf(us[i..]), BytesOf(us[i + 2..]));
        out := out + Encode(Combine(us[i], us[i + 1]));
        i := i + 1;
      } else {
        BytesStep(us, i, us[i], 1);
        Extend(out, Encode(us[i]), BytesOf(us[i..]), BytesOf(us[i + 1..]));
        out := out + Encode(us[i]);
      }
      i := i + 1;
    }
  }

  lemma CanonicalGrows(cs: seq<Code>, c: Code)
    ensures Canonical(cs + [c]) <==> Canonical(cs) && !(cs != [] && IsHigh(cs[|cs| - 1]) && IsLow(c))
  {
    var grown := cs + [c];
    assert forall i :: 0 <= i < |cs| ==> grown[i] == cs[i];
    assert grown[|cs|] == c;
  }

  lemma CanonicalPrefix(a: seq<Code>, b: seq<Code>)
    requires Canonical(a + b)
    ensures Canonical(a)
  {
    assert forall i :: 0 <= i < |a| ==> (a + b)[i] == a[i];
  }

  lemma Accepted(cs: seq<Code>, s: seq<Byte>)
    requires s != [] && WellFormed(EncodeAll(cs) + s)
    ensures !MalformedAt(s) && Canonical(cs + [Next(s).0])
  {
    hide Next, MalformedAt, Canonical, Encode;
    var ds :| Canonical(ds) && EncodeAll(cs) + s == EncodeAll(ds);
    SharedFront(cs, s, ds);
    var rest := ds[|cs|..];
    assert EncodeAll(rest) == Encode(rest[0]) + EncodeAll(rest[1..]);
    hide EncodeAll, FlatMap;
    NextOfEncoded(rest[0], EncodeAll(rest[1..]));
    assert ds == (cs + [rest[0]]) + rest[1..];
    CanonicalPrefix(cs + [rest[0]], rest[1..]);
  }

  /** Malformed bytes, or a low half right after a high one, are rightly refused. */
  lemma Refused(cs: seq<Code>, s: seq<Byte>)
    requires s != [] && (MalformedAt(s) || !Canonical(cs + [Next(s).0]))
    ensures !WellFormed(EncodeAll(cs) + s)
  {
    if WellFormed(EncodeAll(cs) + s) {
      Accepted(cs, s);
    }
  }

  lemma {:induction false} SharedFront(cs: seq<Code>, s: seq<Byte>, ds: seq<Code>)
    requires EncodeAll(cs) + s == EncodeAll(ds)
    ensures |cs| <= |ds| && cs == ds[..|cs|] && EncodeAll(ds[|cs|..]) == s
  {
    hide Next, MalformedAt, Encode;
    if cs != [] {
      var e, f := Encode(cs[0]), Encode(ds[0]);
      var x, y := EncodeAll(cs[1..]) + s, EncodeAll(ds[1..]);
      assert e + x == f + y;
      NextOfEncoded(cs[0], x);
      NextOfEncoded(ds[0], y);
      assert x == (e + x)[|e|..] && y == (f + y)[|f|..];
      SharedFront(cs[1..], s, ds[1..]);
      assert ds[1..][|cs[1..]|..] == ds[|cs|..];
    }
  }

  method Valid(s: seq<Byte>) returns (ok: bool)
    ensures ok <==> WellFormed(s)
  {
    var s', previous := s, 0;
    ghost var cs: seq<Code> := [];
    while |s'| > 0
      invariant Canonical(cs) && s == EncodeAll(cs) + s'
      invariant IsHigh(previous) <==> cs != [] && IsHigh(cs[|cs| - 1])
    {
      ghost var c := Next(s').0;
      CanonicalGrows(cs, c);
      if |s'| >= 3 {
        var unit := Surrogate(s'[..3]);
        if unit != 0 {
          if IsHigh(previous) && unit >= 0xDC00 {
            Refused(cs, s');
            return false;
          }
          Advance(cs, s');
          cs := cs + [c];
          previous := unit;
          s' := s'[3..];
          continue;
        }
      }
      var (_, size) := DecodeRune(s');
      if size == 1 && s'[0] >= 0x80 {
        Refused(cs, s');
        return false;
      }
      DecodedIsScalar(s');
      Advance(cs, s');
      cs := cs + [c];
      previous := 0;
      s' := s'[size..];
    }
    return true;
  }

  lemma DecodedIsScalar(s: seq<Byte>)
    requires s != []
    ensures !IsSurrogate(DecodeRune(s).0)
  {
  }

  lemma Advances<A, B>(f: A -> seq<B>, xs: seq<A>, x: A, s: seq<B>, n: nat)
    requires n <= |s| && f(x) == s[..n]
    ensures FlatMap(f, xs) + s == FlatMap(f, xs + [x]) + s[n..]
  {
    FlatMapAround(f, xs, x, []);
    assert s == s[..n] + s[n..];
  }

  lemma Advance(cs: seq<Code>, s: seq<Byte>)
    requires s != [] && !MalformedAt(s)
    ensures EncodeAll(cs) + s == EncodeAll(cs + [Next(s).0]) + s[Next(s).1..]
  {
    EncodedNext(s);
    Advances(Encode, cs, Next(s).0, s, Next(s).1);
  }

  // ---------------------------------------------------------------------------
  // Concatenation
  // ---------------------------------------------------------------------------

  function SurrogateBefore(s: seq<Byte>): Unit {
    if |s| >= 3 then Surrogate(s[|s| - 3..]) else 0
  }

  function Concat(a: seq<Byte>, b: seq<Byte>): seq<Byte> {
    var hi, lo := SurrogateBefore(a), SurrogateAt(b);
    if |a| >= 3 && |b| >= 3 && IsHigh(hi) && IsLow(lo) then
      a[..|a| - 3] + Encode(Combine(hi, lo)) + b[3..]
    else a + b
  }

  lemma LastSurrogate(x: seq<Byte>, c: Code)
    ensures SurrogateBefore(x + Encode(c)) == if IsSurrogate(c) then c else 0
  {
    Base64(c);
    var s, e := x + Encode(c), Encode(c);
    assert forall i :: 0 <= i < |e| ==> s[|x| + i] == e[i];
    if |s| >= 3 {
      var t := s[|s| - 3..];
      assert t == [s[|s| - 3], s[|s| - 2], s[|s| - 1]];
    }
  }

  /** What the three bytes beside a seam tell about the codes beside it. */
  lemma SeamAfter(cs: seq<Code>)
    ensures SurrogateAt(EncodeAll(cs)) == if cs != [] && IsSurrogate(cs[0]) then cs[0] else 0
  {
    if cs != [] {
      NextOfEncoded(cs[0], EncodeAll(cs[1..]));
    }
  }

  lemma SeamBefore(cs: seq<Code>)
    ensures SurrogateBefore(EncodeAll(cs)) == if cs != [] && IsSurrogate(cs[|cs| - 1]) then cs[|cs| - 1] else 0
  {
    if cs != [] {
      var front, c := cs[..|cs| - 1], cs[|cs| - 1];
      assert cs == front + [c];
      FlatMapAround(Encode, front, c, []);
      LastSurrogate(EncodeAll(front), c);
    }
  }

  /** Joining canonical strings joins their units, and the seam stays canonical. */
  lemma ConcatJoinsUnits(a: seq<Byte>, b: seq<Byte>)
    requires WellFormed(a) && WellFormed(b)
    ensures WellFormed(Concat(a, b)) && UnitsOf(Concat(a, b)) == UnitsOf(a) + UnitsOf(b)
    ensures Concat(a, b) == BytesOf(UnitsOf(a) + UnitsOf(b))
  {
    BytesSurvive(a);
    BytesSurvive(b);
    var joined := JoinCodes(Codes(a), Codes(b));
    CodesOfEncoded(joined);
    PairOfSplit(joined);
  }

  lemma PairStaysCanonical(front: seq<Code>, hi: Code, lo: Code, c: Code, back: seq<Code>)
    requires Canonical(front + [hi]) && Canonical([lo] + back) && !IsSurrogate(c)
    ensures Canonical(front + [c] + back)
  {
    var joined := front + [c] + back;
    assert forall i :: 0 <= i < |front| ==> joined[i] == (front + [hi])[i];
    assert forall i :: |front| < i < |joined| ==> joined[i] == ([lo] + back)[i - |front|];
  }

  lemma PlainConcat(a: seq<Byte>, b: seq<Byte>)
    requires !(IsHigh(SurrogateBefore(a)) && IsLow(SurrogateAt(b)))
    ensures Concat(a, b) == a + b
  {
  }

  lemma JoinCodes(cs: seq<Code>, ds: seq<Code>) returns (joined: seq<Code>)
    requires Canonical(cs) && Canonical(ds)
    ensures Canonical(joined) && EncodeAll(joined) == Concat(EncodeAll(cs), EncodeAll(ds))
    ensures SplitAll(joined) == SplitAll(cs) + SplitAll(ds)
  {
    hide Canonical, Concat, EncodeAll, SplitAll;
    if cs != [] && ds != [] && IsHigh(cs[|cs| - 1]) && IsLow(ds[0]) {
      joined := JoinAtSeam(cs, ds);
    } else {
      JoinApart(cs, ds);
      joined := cs + ds;
    }
  }

  lemma CanonicalJoins(cs: seq<Code>, ds: seq<Code>)
    requires Canonical(cs) && Canonical(ds)
    requires !(cs != [] && ds != [] && IsHigh(cs[|cs| - 1]) && IsLow(ds[0]))
    ensures Canonical(cs + ds)
  {
    var joined := cs + ds;
    forall i | 0 < i < |joined| && IsHigh(joined[i - 1])
      ensures !IsLow(joined[i])
    {
      if i < |cs| {
        assert joined[i - 1] == cs[i - 1] && joined[i] == cs[i];
      } else if i > |cs| {
        assert joined[i - 1] == ds[i - 1 - |cs|] && joined[i] == ds[i - |cs|];
      }
    }
  }

  lemma JoinApart(cs: seq<Code>, ds: seq<Code>)
    requires Canonical(cs) && Canonical(ds)
    requires !(cs != [] && ds != [] && IsHigh(cs[|cs| - 1]) && IsLow(ds[0]))
    ensures Canonical(cs + ds) && EncodeAll(cs + ds) == Concat(EncodeAll(cs), EncodeAll(ds))
    ensures SplitAll(cs + ds) == SplitAll(cs) + SplitAll(ds)
  {
    hide Canonical, Concat, Encode, Split, FlatMap, SurrogateBefore, SurrogateAt;
    CanonicalJoins(cs, ds);
    SeamBefore(cs);
    SeamAfter(ds);
    PlainConcat(EncodeAll(cs), EncodeAll(ds));
    FlatMapAppends(Encode, cs, ds);
    FlatMapAppends(Split, cs, ds);
  }

  lemma JoinAtSeam(cs: seq<Code>, ds: seq<Code>) returns (joined: seq<Code>)
    requires Canonical(cs) && Canonical(ds)
    requires cs != [] && ds != [] && IsHigh(cs[|cs| - 1]) && IsLow(ds[0])
    ensures Canonical(joined) && EncodeAll(joined) == Concat(EncodeAll(cs), EncodeAll(ds))
    ensures SplitAll(joined) == SplitAll(cs) + SplitAll(ds)
  {
    var front, hi, lo, back := cs[..|cs| - 1], cs[|cs| - 1], ds[0], ds[1..];
    var c := Combine(hi, lo);
    joined := front + [c] + back;
    assert cs == front + [hi] && ds == [lo] + back;
    PairStaysCanonical(front, hi, lo, c, back);
    SplitJoins(hi, lo);
    Rejoined(Split, front, hi, lo, c, back);
    FlatMapAround(Encode, front, c, back);
    FlatMapAround(Encode, front, hi, []);
    FlatMapAround(Encode, [], lo, back);
    ConcatAtSeam(EncodeAll(front), hi, lo, EncodeAll(back));
  }

  lemma Rejoined<A, B>(f: A -> seq<B>, front: seq<A>, x: A, y: A, joined: A, back: seq<A>)
    requires f(joined) == f(x) + f(y)
    ensures FlatMap(f, front + [joined] + back) == FlatMap(f, front + [x]) + FlatMap(f, [y] + back)
  {
    FlatMapAround(f, front, joined, back);
    FlatMapAround(f, front, x, []);
    FlatMapAround(f, [], y, back);
  }

  lemma ConcatAtSeam(x: seq<Byte>, hi: Code, lo: Code, y: seq<Byte>)
    requires IsHigh(hi) && IsLow(lo)
    ensures Concat(x + Encode(hi), Encode(lo) + y) == x + Encode(Combine(hi, lo)) + y
  {
    LastSurrogate(x, hi);
    NextOfEncoded(lo, y);
    var a, b := x + Encode(hi), Encode(lo) + y;
    assert a[..|a| - 3] == x && b[3..] == y;
  }

  function JoinUnits(parts: seq<seq<Byte>>, separator: seq<Byte>): seq<Unit> {
    if parts == [] then []
    else if |parts| == 1 then UnitsOf(parts[0])
    else
      JoinUnits(parts[..|parts| - 1], separator) + UnitsOf(separator) + UnitsOf(parts[|parts| - 1])
  }

  /** The separator stands between any two parts, and nowhere else. */
  lemma {:induction false} SeparatorsStandBetween(a: seq<seq<Byte>>, b: seq<seq<Byte>>, separator: seq<Byte>)
    ensures JoinUnits([], separator) == [] && forall p :: JoinUnits([p], separator) == UnitsOf(p)
    ensures a != [] && b != [] ==>
              JoinUnits(a + b, separator) == JoinUnits(a, separator) + UnitsOf(separator) + JoinUnits(b, separator)
    decreases |b|
  {
    hide UnitsOf;
    if a != [] && b != [] {
      var front, last := b[..|b| - 1], b[|b| - 1];
      assert (a + b)[..|a + b| - 1] == a + front;
      if front == [] {
        assert a + front == a;
      } else {
        SeparatorsStandBetween(a, front, separator);
      }
    }
  }

  /** Joining canonical parts joins their units with the separator's between them. */
  method Join(parts: seq<seq<Byte>>, separator: seq<Byte>) returns (out: seq<Byte>)
    requires WellFormed(separator) && forall p :: p in parts ==> WellFormed(p)
    ensures WellFormed(out) && UnitsOf(out) == JoinUnits(parts, separator)
    ensures out == BytesOf(JoinUnits(parts, separator))
  {
    out := [];
    assert WellFormed([]) by {
      assert EncodeAll([]) == [];
    }
    for i := 0 to |parts|
      invariant WellFormed(out) && UnitsOf(out) == JoinUnits(parts[..i], separator)
    {
      assert parts[..i + 1][..i] == parts[..i];
      if i > 0 {
        ConcatJoinsUnits(out, separator);
        out := Concat(out, separator);
      }
      ConcatJoinsUnits(out, parts[i]);
      out := Concat(out, parts[i]);
    }
    assert parts[..|parts|] == parts;
    BytesSurvive(out);
  }
}
