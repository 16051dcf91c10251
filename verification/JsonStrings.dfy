/**
 JSON string literals over canonical strings (section 7 of RFC 8259).

 A literal means a sequence of UTF-16 units, one for each escape. Reading must pair adjacent
 halves and writing must not make halves adjacent that were apart; canonical form is what lets it.

 The host's escaper for scalars is a parameter: any spelling the grammar allows will do.
 */
module JsonStrings {
  import opened Wtf8

  const QUOTE: Byte := 0x22
  const BACKSLASH: Byte := 0x5C
  const LETTER_U: Byte := 0x75

  // ---------------------------------------------------------------------------
  // The grammar and its meaning
  // ---------------------------------------------------------------------------

  predicate IsHex(b: int) {
    0x30 <= b <= 0x39 || 0x41 <= b <= 0x46 || 0x61 <= b <= 0x66
  }

  function HexValue(b: int): (v: int)
    requires IsHex(b)
    ensures 0 <= v < 0x10
  {
    if b <= 0x39 then b - 0x30 else if b <= 0x46 then b - 0x37 else b - 0x57
  }

  /** A backslash, the letter u and four hexadecimal digits. */
  predicate EscapeAt(s: seq<Byte>, i: int) {
    && 0 <= i && i + 6 <= |s| && s[i] == BACKSLASH && s[i + 1] == LETTER_U
    && IsHex(s[i + 2]) && IsHex(s[i + 3]) && IsHex(s[i + 4]) && IsHex(s[i + 5])
  }

  function UnitAt(s: seq<Byte>, i: int): Unit
    requires EscapeAt(s, i)
  {
    HexValue(s[i + 2]) * 0x1000 + HexValue(s[i + 3]) * 0x100 + HexValue(s[i + 4]) * 0x10 + HexValue(s[i + 5])
  }

  /** What a letter after a backslash stands for; -1 when it stands for nothing. */
  function Short(b: int): int {
    match b
    case 0x22 => 0x22
    case 0x5C => 0x5C
    case 0x2F => 0x2F
    case 0x62 => 0x08
    case 0x66 => 0x0C
    case 0x6E => 0x0A
    case 0x72 => 0x0D
    case 0x74 => 0x09
    case _ => -1
  }

  predicate ShortAt(s: seq<Byte>, i: int) {
    0 <= i && i + 2 <= |s| && s[i] == BACKSLASH && Short(s[i + 1]) >= 0
  }

  predicate PlainAt(s: seq<Byte>, i: int) {
    0 <= i < |s| && s[i] >= 0x20 && s[i] != QUOTE && s[i] != BACKSLASH
  }

  /** The bytes between the quotes of a JSON string; bytes outside ASCII are not looked at. */
  predicate ValidBody(b: seq<Byte>)
    decreases |b|
  {
    || b == []
    || (EscapeAt(b, 0) && ValidBody(b[6..]))
    || (ShortAt(b, 0) && ValidBody(b[2..]))
    || (PlainAt(b, 0) && ValidBody(b[1..]))
  }

  lemma PlainRun(b: seq<Byte>, n: nat)
    requires n <= |b| && forall k :: 0 <= k < n ==> PlainAt(b, k)
    ensures ValidBody(b) <==> ValidBody(b[n..])
  {
    if n > 0 {
      forall k | 0 <= k < n - 1 ensures PlainAt(b[1..], k) {
        assert PlainAt(b, k + 1);
      }
      PlainRun(b[1..], n - 1);
      assert PlainAt(b, 0);
      assert b[1..][n - 1..] == b[n..];
    }
  }

  lemma RuneStep(b: seq<Byte>)
    requires PlainAt(b, 0) && ValidBody(b)
    ensures ValidBody(b[DecodeRune(b).1..])
  {
    PlainRun(b, DecodeRune(b).1);
  }

  /** The UTF-16 text of a body: one unit an escape, and the units of each literal scalar. */
  function JsonUnits(b: seq<Byte>): seq<Unit>
    requires ValidBody(b)
    decreases |b|
  {
    if b == [] then []
    else if EscapeAt(b, 0) then [UnitAt(b, 0)] + JsonUnits(b[6..])
    else if ShortAt(b, 0) then [Short(b[1])] + JsonUnits(b[2..])
    else
      RuneStep(b);
      var (c, n) := DecodeRune(b);
      Split(c) + JsonUnits(b[n..])
  }

  // ---------------------------------------------------------------------------
  // Reading
  // ---------------------------------------------------------------------------

  predicate ValidLiteral(raw: seq<Byte>) {
    |raw| >= 2 && raw[0] == QUOTE && raw[|raw| - 1] == QUOTE && ValidBody(raw[1..|raw| - 1])
  }

  function Body(raw: seq<Byte>): seq<Byte>
    requires |raw| >= 2
  {
    raw[1..|raw| - 1]
  }

  lemma LowComesEscaped(b: seq<Byte>)
    requires ValidBody(b) && JsonUnits(b) != [] && IsLow(JsonUnits(b)[0])
    ensures EscapeAt(b, 0) && UnitAt(b, 0) == JsonUnits(b)[0]
  {
    if !EscapeAt(b, 0) && !ShortAt(b, 0) {
      DecodedIsScalar(b);
    }
  }

  lemma ScalarPairs(c: Code, us: seq<Unit>)
    requires !IsSurrogate(c)
    ensures Pair(Split(c) + us) == [c] + Pair(us)
  {
    var all := Split(c) + us;
    if c < 0x1_0000 {
      assert all[1..] == us;
    } else {
      assert PairAt(all, 0) && all[2..] == us;
    }
  }

  lemma UnitPairs(u: Unit, us: seq<Unit>)
    requires !(IsHigh(u) && us != [] && IsLow(us[0]))
    ensures Pair([u] + us) == [u] + Pair(us)
  {
    assert ([u] + us)[1..] == us;
  }

  lemma HalvesPair(hi: Unit, lo: Unit, us: seq<Unit>)
    requires IsHigh(hi) && IsLow(lo)
    ensures Pair([hi] + ([lo] + us)) == [Combine(hi, lo)] + Pair(us)
  {
    var all := [hi] + ([lo] + us);
    assert PairAt(all, 0) && all[2..] == us;
  }

  lemma BytesPrepend(c: Code, us: seq<Unit>, rest: seq<Unit>)
    requires Pair(us) == [c] + Pair(rest)
    ensures BytesOf(us) == Encode(c) + BytesOf(rest)
  {
    FlatMapAround(Encode, [], c, Pair(rest));
  }

  function Text(b: seq<Byte>): seq<Byte>
    requires ValidBody(b)
  {
    BytesOf(JsonUnits(b))
  }

  lemma TwoUnits(b: seq<Byte>)
    requires ValidBody(b) && EscapeAt(b, 0) && EscapeAt(b, 6)
    ensures ValidBody(b[12..]) && JsonUnits(b) == [UnitAt(b, 0)] + ([UnitAt(b, 6)] + JsonUnits(b[12..]))
  {
    var tail := b[6..];
    assert EscapeAt(tail, 0) && UnitAt(tail, 0) == UnitAt(b, 6) && tail[6..] == b[12..];
  }

  /** One turn of the reading loop, by the kind of item at the front. */
  lemma ReadPair(b: seq<Byte>)
    requires ValidBody(b) && EscapeAt(b, 0) && EscapeAt(b, 6) && IsHigh(UnitAt(b, 0)) && IsLow(UnitAt(b, 6))
    ensures ValidBody(b[12..]) && Text(b) == Encode(Combine(UnitAt(b, 0), UnitAt(b, 6))) + Text(b[12..])
  {
    TwoUnits(b);
    var hi, lo := UnitAt(b, 0), UnitAt(b, 6);
    HalvesPair(hi, lo, JsonUnits(b[12..]));
    BytesPrepend(Combine(hi, lo), JsonUnits(b), JsonUnits(b[12..]));
  }

  lemma ReadUnit(b: seq<Byte>)
    requires ValidBody(b) && EscapeAt(b, 0)
    requires !(EscapeAt(b, 6) && IsHigh(UnitAt(b, 0)) && IsLow(UnitAt(b, 6)))
    ensures ValidBody(b[6..]) && Text(b) == Encode(UnitAt(b, 0)) + Text(b[6..])
  {
    var tail := b[6..];
    if JsonUnits(tail) != [] && IsLow(JsonUnits(tail)[0]) {
      LowComesEscaped(tail);
      assert EscapeAt(b, 6) && UnitAt(b, 6) == UnitAt(tail, 0);
    }
    UnitPairs(UnitAt(b, 0), JsonUnits(tail));
    BytesPrepend(UnitAt(b, 0), JsonUnits(b), JsonUnits(tail));
  }

  lemma ReadShort(b: seq<Byte>)
    requires ValidBody(b) && ShortAt(b, 0)
    ensures ValidBody(b[2..]) && Text(b) == [Short(b[1])] + Text(b[2..])
  {
    UnitPairs(Short(b[1]), JsonUnits(b[2..]));
    BytesPrepend(Short(b[1]), JsonUnits(b), JsonUnits(b[2..]));
  }

  lemma ReadRune(b: seq<Byte>)
    requires ValidBody(b) && PlainAt(b, 0)
    ensures var (c, n) := DecodeRune(b);
            ValidBody(b[n..]) && Text(b) == Encode(c) + Text(b[n..])
  {
    RuneStep(b);
    DecodedIsScalar(b);
    var (c, n) := DecodeRune(b);
    ScalarPairs(c, JsonUnits(b[n..]));
    BytesPrepend(c, JsonUnits(b), JsonUnits(b[n..]));
  }

  /** The closing quote does not change what is decoded before it. */
  lemma RuneBeforeQuote(b: seq<Byte>)
    requires b != []
    ensures DecodeRune(b + [QUOTE]) == DecodeRune(b)
  {
    var all := b + [QUOTE];
    assert forall k :: 0 <= k < |b| ==> all[k] == b[k];
    assert all[|b|] == QUOTE;
  }

  /** The item at i is `n` bytes long and reads as `step`. */
  ghost predicate Reads(raw: seq<Byte>, i: nat, last: nat, step: seq<Byte>, n: nat) {
    && i + n <= last <= |raw| && ValidBody(raw[i..last]) && ValidBody(raw[i + n..last])
    && Text(raw[i..last]) == step + Text(raw[i + n..last])
  }

  lemma TurnPair(raw: seq<Byte>, i: nat, last: nat)
    requires i + 12 <= last <= |raw| && ValidBody(raw[i..last])
    requires EscapeAt(raw, i) && EscapeAt(raw, i + 6) && IsHigh(UnitAt(raw, i)) && IsLow(UnitAt(raw, i + 6))
    ensures Reads(raw, i, last, Encode(Combine(UnitAt(raw, i), UnitAt(raw, i + 6))), 12)
  {
    var b := raw[i..last];
    assert EscapeAt(b, 0) && EscapeAt(b, 6) && UnitAt(b, 0) == UnitAt(raw, i) && UnitAt(b, 6) == UnitAt(raw, i + 6);
    ReadPair(b);
    assert b[12..] == raw[i + 12..last];
  }

  lemma TurnUnit(raw: seq<Byte>, i: nat, last: nat)
    requires i + 6 <= last <= |raw| && ValidBody(raw[i..last]) && EscapeAt(raw, i)
    requires !(i + 12 <= last && EscapeAt(raw, i + 6) && IsHigh(UnitAt(raw, i)) && IsLow(UnitAt(raw, i + 6)))
    ensures Reads(raw, i, last, Encode(UnitAt(raw, i)), 6)
  {
    var b := raw[i..last];
    assert EscapeAt(b, 0) && UnitAt(b, 0) == UnitAt(raw, i);
    assert EscapeAt(b, 6) ==> EscapeAt(raw, i + 6) && UnitAt(b, 6) == UnitAt(raw, i + 6);
    ReadUnit(b);
    assert b[6..] == raw[i + 6..last];
  }

  lemma TurnShort(raw: seq<Byte>, i: nat, last: nat)
    requires i < last <= |raw| && ValidBody(raw[i..last]) && raw[i] == BACKSLASH && (i + 1 == last || raw[i + 1] != LETTER_U)
    ensures i + 2 <= last && Short(raw[i + 1]) >= 0 && Reads(raw, i, last, [Short(raw[i + 1])], 2)
  {
    var b := raw[i..last];
    assert ShortAt(b, 0);
    ReadShort(b);
    assert b[2..] == raw[i + 2..last];
  }

  lemma TurnRune(raw: seq<Byte>, i: nat, last: nat)
    requires i < last == |raw| - 1 && ValidBody(raw[i..last]) && raw[i] != BACKSLASH && raw[last] == QUOTE
    ensures var (c, n) := DecodeRune(raw[i..]);
            Reads(raw, i, last, Encode(c), n)
  {
    var b := raw[i..last];
    assert raw[i..] == b + [QUOTE];
    RuneBeforeQuote(b);
    assert PlainAt(b, 0);
    ReadRune(b);
    var n := DecodeRune(b).1;
    assert b[n..] == raw[i + n..last];
  }

  lemma EscapeStarts(raw: seq<Byte>, i: nat, last: nat)
    requires i + 2 <= last <= |raw| && ValidBody(raw[i..last]) && raw[i] == BACKSLASH && raw[i + 1] == LETTER_U
    ensures i + 6 <= last && EscapeAt(raw, i) && ValidBody(raw[i + 6..last])
  {
    var b := raw[i..last];
    assert EscapeAt(b, 0);
    assert b[6..] == raw[i + 6..last];
  }

  lemma BackslashIsFollowed(raw: seq<Byte>, i: nat, last: nat)
    requires i < last <= |raw| && ValidBody(raw[i..last]) && raw[i] == BACKSLASH
    ensures i + 2 <= last
  {
  }

  /** Reading a literal yields the canonical bytes of exactly the units it spells. */
  method Unquote(raw: seq<Byte>) returns (ok: bool, out: seq<Byte>)
    ensures ok <==> ValidLiteral(raw)
    ensures ok ==> out == Text(Body(raw)) && WellFormed(out) && UnitsOf(out) == JsonUnits(Body(raw))
  {
    if |raw| < 2 || raw[0] != QUOTE || raw[|raw| - 1] != QUOTE || !ValidBody(raw[1..|raw| - 1]) {
      return false, [];
    }
    out := UnquoteBody(raw);
    ok := true;
    UnitsSurvive(JsonUnits(Body(raw)));
  }

  /** A six-byte escape, with the one after it when the two are a pair. */
  method UnquoteUnit(raw: seq<Byte>, at: nat, last: nat) returns (step: seq<Byte>, n: nat)
    requires at + 2 <= last < |raw| && ValidBody(raw[at..last]) && raw[at] == BACKSLASH && raw[at + 1] == LETTER_U
    ensures n > 0 && Reads(raw, at, last, step, n)
  {
    EscapeStarts(raw, at, last);
    var unit := UnitAt(raw, at);
    var i := at + 6;
    if IsHigh(unit) && i + 6 <= last && raw[i] == BACKSLASH && raw[i + 1] == LETTER_U {
      EscapeStarts(raw, i, last);
      var low := UnitAt(raw, i);
      if IsLow(low) {
        TurnPair(raw, at, last);
        return Encode(Combine(unit, low)), 12;
      }
    }
    TurnUnit(raw, at, last);
    return Encode(unit), 6;
  }

  /** One turn of the reading loop: what the item at i reads as, and its length. */
  method UnquoteItem(raw: seq<Byte>, i: nat) returns (step: seq<Byte>, n: nat)
    requires i < |raw| - 1 && ValidBody(raw[i..|raw| - 1]) && raw[|raw| - 1] == QUOTE
    ensures n > 0 && Reads(raw, i, |raw| - 1, step, n)
  {
    hide ValidBody, DecodeRune, Reads, Encode;
    var last := |raw| - 1;
    if raw[i] == BACKSLASH {
      BackslashIsFollowed(raw, i, last);
      if raw[i + 1] == LETTER_U {
        step, n := UnquoteUnit(raw, i, last);
      } else {
        TurnShort(raw, i, last);
        return [Short(raw[i + 1])], 2;
      }
    } else {
      var (r, size) := DecodeRune(raw[i..]);
      TurnRune(raw, i, last);
      return Encode(r), size;
    }
  }

  lemma NothingRead()
    ensures ValidBody([]) && Text([]) == []
  {
  }

  method UnquoteBody(raw: seq<Byte>) returns (out: seq<Byte>)
    requires ValidLiteral(raw)
    ensures out == Text(Body(raw))
  {
    hide ValidBody, Text;
    NothingRead();
    out := [];
    var i, last := 1, |raw| - 1;
    while i < last
      invariant 1 <= i <= last && ValidBody(raw[i..last])
      invariant out + Text(raw[i..last]) == Text(Body(raw))
    {
      var step, n := UnquoteItem(raw, i);
      Extend(out, step, Text(raw[i..last]), Text(raw[i + n..last]));
      out := out + step;
      i := i + n;
    }
    assert raw[i..last] == [];
  }

  // ---------------------------------------------------------------------------
  // Writing
  // ---------------------------------------------------------------------------

  /** The grammar's ways to spell a scalar. */
  predicate Spells(e: seq<Byte>, c: Code) {
    || (c >= 0x20 && c != QUOTE && c != BACKSLASH && e == Encode(c))
    || (|e| == 2 && ShortAt(e, 0) && Short(e[1]) == c)
    || (|e| == 6 && EscapeAt(e, 0) && UnitAt(e, 0) == c)
    || (|e| == 12 && EscapeAt(e, 0) && EscapeAt(e, 6) && [UnitAt(e, 0), UnitAt(e, 6)] == Split(c))
  }

  ghost predicate Escaper(esc: Code -> seq<Byte>) {
    forall c: Code :: !IsSurrogate(c) ==> Spells(esc(c), c)
  }

  function HexDigit(v: int): (b: Byte)
    requires 0 <= v < 0x10
    ensures IsHex(b) && HexValue(b) == v
  {
    if v < 10 then 0x30 + v else 0x57 + v
  }

  lemma HexDigits(u: Unit)
    ensures u == u / 0x1000 * 0x1000 + u / 0x100 % 0x10 * 0x100 + u / 0x10 % 0x10 * 0x10 + u % 0x10
    ensures u / 0x1000 < 0x10
  {
    assert u / 0x100 == u / 0x10 / 0x10;
    assert u / 0x1000 == u / 0x100 / 0x10;
  }

  /** A six-byte escape, digits in lower case. */
  function EscapeUnit(u: Unit): (e: seq<Byte>)
    ensures |e| == 6 && EscapeAt(e, 0) && UnitAt(e, 0) == u
  {
    HexDigits(u);
    [BACKSLASH, LETTER_U, HexDigit(u / 0x1000), HexDigit(u / 0x100 % 0x10), HexDigit(u / 0x10 % 0x10), HexDigit(u % 0x10)]
  }

  function Escape(esc: Code -> seq<Byte>, c: Code): seq<Byte> {
    if IsSurrogate(c) then EscapeUnit(c) else esc(c)
  }

  function Escaping(esc: Code -> seq<Byte>): Code -> seq<Byte> {
    c => Escape(esc, c)
  }

  function EscapeAll(esc: Code -> seq<Byte>, cs: seq<Code>): seq<Byte> {
    FlatMap(Escaping(esc), cs)
  }

  lemma LiteralIsPlain(c: Code, rest: seq<Byte>)
    requires c >= 0x20 && c != QUOTE && c != BACKSLASH
    ensures forall k :: 0 <= k < |Encode(c)| ==> PlainAt(Encode(c) + rest, k)
  {
    Base64(c);
    var e, all := Encode(c), Encode(c) + rest;
    assert forall k :: 0 <= k < |e| ==> all[k] == e[k];
  }

  lemma SpellingOfLiteral(c: Code, rest: seq<Byte>)
    requires c >= 0x20 && c != QUOTE && c != BACKSLASH && !IsSurrogate(c) && ValidBody(rest)
    ensures ValidBody(Encode(c) + rest) && JsonUnits(Encode(c) + rest) == Split(c) + JsonUnits(rest)
  {
    var n, all := |Encode(c)|, Encode(c) + rest;
    LiteralIsPlain(c, rest);
    PlainRun(all, n);
    NextOfEncoded(c, rest);
    assert PlainAt(all, 0);
    assert all[n..] == rest;
  }

  lemma SpellingOfUnit(e: seq<Byte>, rest: seq<Byte>)
    requires |e| == 6 && EscapeAt(e, 0) && ValidBody(rest)
    ensures ValidBody(e + rest) && JsonUnits(e + rest) == [UnitAt(e, 0)] + JsonUnits(rest)
  {
    var all := e + rest;
    assert EscapeAt(all, 0) && UnitAt(all, 0) == UnitAt(e, 0) && all[6..] == rest;
  }

  lemma Beside(first: Unit, second: Unit, rest: seq<Unit>)
    ensures [first, second] + rest == [first] + ([second] + rest)
  {
  }

  lemma SpellingOfPair(e: seq<Byte>, rest: seq<Byte>)
    requires |e| == 12 && EscapeAt(e, 0) && EscapeAt(e, 6) && ValidBody(rest)
    ensures ValidBody(e + rest) && JsonUnits(e + rest) == [UnitAt(e, 0), UnitAt(e, 6)] + JsonUnits(rest)
  {
    hide ValidBody, JsonUnits, IsHex, HexValue;
    var first, second := e[..6], e[6..];
    assert EscapeAt(first, 0) && UnitAt(first, 0) == UnitAt(e, 0);
    assert EscapeAt(second, 0) && UnitAt(second, 0) == UnitAt(e, 6);
    SpellingOfUnit(second, rest);
    SpellingOfUnit(first, second + rest);
    assert e + rest == first + (second + rest);
    Beside(UnitAt(e, 0), UnitAt(e, 6), JsonUnits(rest));
  }

  lemma SpellingReads(esc: Code -> seq<Byte>, c: Code, rest: seq<Byte>)
    requires Escaper(esc) && ValidBody(rest)
    ensures var b := Escape(esc, c) + rest; ValidBody(b) && JsonUnits(b) == Split(c) + JsonUnits(rest)
  {
    var e := Escape(esc, c);
    if IsSurrogate(c) {
      SpellingOfUnit(e, rest);
    } else {
      assert Spells(e, c);
      if c >= 0x20 && c != QUOTE && c != BACKSLASH && e == Encode(c) {
        SpellingOfLiteral(c, rest);
      } else if |e| == 2 {
        assert ShortAt(e + rest, 0) && (e + rest)[2..] == rest;
      } else if |e| == 6 {
        SpellingOfUnit(e, rest);
      } else {
        SpellingOfPair(e, rest);
      }
    }
  }

  /** Escaping code by code spells out the units of the string. */
  lemma {:induction false} EscapesReadBack(esc: Code -> seq<Byte>, cs: seq<Code>)
    requires Escaper(esc)
    ensures ValidBody(EscapeAll(esc, cs)) && JsonUnits(EscapeAll(esc, cs)) == SplitAll(cs)
  {
    if cs != [] {
      EscapesReadBack(esc, cs[1..]);
      SpellingReads(esc, cs[0], EscapeAll(esc, cs[1..]));
    }
  }

  /** The host's encoder on a run of scalars, without the quotes. */
  function Marshal(esc: Code -> seq<Byte>, s: seq<Byte>): seq<Byte> {
    FlatMap(esc, Codes(s))
  }

  lemma {:induction false} ScalarsMarshal(esc: Code -> seq<Byte>, cs: seq<Code>)
    requires forall i :: 0 <= i < |cs| ==> !IsSurrogate(cs[i])
    ensures FlatMap(esc, cs) == EscapeAll(esc, cs)
  {
    if cs != [] {
      ScalarsMarshal(esc, cs[1..]);
    }
  }

  /** The codes written, those of the pending run, and those ahead. */
  datatype Progress = Progress(done: seq<Code>, run: seq<Code>, rest: seq<Code>)

  /** The writer's state: everything before `start` is out, and a run of scalars is pending up to i. */
  ghost predicate Written(esc: Code -> seq<Byte>, s: seq<Byte>, out: seq<Byte>, start: nat, i: nat, p: Progress) {
    && start <= i <= |s| && p.done + p.run + p.rest == Codes(s)
    && out == [QUOTE] + EscapeAll(esc, p.done)
    && s[start..i] == EncodeAll(p.run) && s[i..] == EncodeAll(p.rest)
    && forall k :: 0 <= k < |p.run| ==> !IsSurrogate(p.run[k])
  }

  /** Runs of scalars go to the host's encoder; isolated surrogates are escaped between them. */
  method Quote(esc: Code -> seq<Byte>, s: seq<Byte>) returns (ok: bool, out: seq<Byte>)
    ensures ok <==> WellFormed(s)
    ensures ok ==> out == [QUOTE] + EscapeAll(esc, Codes(s)) + [QUOTE]
  {
    hide WellFormed, EncodeAll, EscapeAll, Marshal, EscapeUnit, Codes, DecodeRune, Surrogate;
    ok := Valid(s);
    if !ok {
      return false, [];
    }
    out := [QUOTE];
    var start, i := 0, 0;
    ghost var p := WriteStart(esc, s);
    while i < |s|
      invariant Written(esc, s, out, start, i, p)
    {
      if |s| - i >= 3 {
        var unit := Surrogate(s[i..i + 3]);
        if unit != 0 {
          p := WriteUnit(esc, s, out, start, i, p);
          out := out + Marshal(esc, s[start..i]);
          out := out + EscapeUnit(unit);
          i := i + 3;
          start := i;
          continue;
        }
      }
      var (_, size) := DecodeRune(s[i..]);
      p := SkipScalar(esc, s, out, start, i, p);
      i := i + size;
    }
    WriteEnd(esc, s, out, start, i, p);
    out := out + Marshal(esc, s[start..]);
    out := out + [QUOTE];
  }

  lemma WriteStart(esc: Code -> seq<Byte>, s: seq<Byte>) returns (p: Progress)
    requires WellFormed(s)
    ensures Written(esc, s, [QUOTE], 0, 0, p)
  {
    BytesSurvive(s);
    p := Progress([], [], Codes(s));
  }

  /** The next code moves from the codes ahead to the pending run. */
  function Skipped(p: Progress): Progress
    requires p.rest != []
  {
    Progress(p.done, p.run + [p.rest[0]], p.rest[1..])
  }

  /** The pending run and the next code are written. */
  function Flushed(p: Progress): Progress
    requires p.rest != []
  {
    Progress(p.done + p.run + [p.rest[0]], [], p.rest[1..])
  }

  predicate Moves(s: seq<Byte>, start: nat, i: nat, n: nat, p: Progress)
    requires p.rest != []
  {
    start <= i && i + n <= |s| && s[start..i + n] == EncodeAll(p.run + [p.rest[0]]) && s[i + n..] == EncodeAll(p.rest[1..])
  }

  lemma Skip(esc: Code -> seq<Byte>, s: seq<Byte>, out: seq<Byte>, start: nat, i: nat, n: nat, p: Progress)
    requires Written(esc, s, out, start, i, p) && p.rest != [] && Moves(s, start, i, n, p) && !IsSurrogate(p.rest[0])
    ensures Written(esc, s, out, start, i + n, Skipped(p))
  {
    hide EscapeAll, EncodeAll, Codes;
    assert p.run + p.rest == Skipped(p).run + Skipped(p).rest;
    assert p.done + (p.run + p.rest) == p.done + p.run + p.rest;
  }

  lemma NothingEncoded()
    ensures EncodeAll([]) == []
  {
  }

  lemma Flush(esc: Code -> seq<Byte>, s: seq<Byte>, out: seq<Byte>, start: nat, i: nat, n: nat, p: Progress)
    requires Written(esc, s, out, start, i, p) && p.rest != [] && Moves(s, start, i, n, p) && IsSurrogate(p.rest[0])
    ensures Written(esc, s, out + Marshal(esc, s[start..i]) + EscapeUnit(p.rest[0]), i + n, i + n, Flushed(p))
  {
    hide EscapeAll, EncodeAll, Marshal, EscapeUnit, Codes;
    NothingEncoded();
    FlushUnit(esc, s[start..i], p.done, p.run, p.rest[0]);
    assert p.rest == [p.rest[0]] + p.rest[1..];
    assert p.done + p.run + p.rest == p.done + p.run + [p.rest[0]] + [] + p.rest[1..];
    assert s[i + n..i + n] == [];
  }

  lemma WriteUnit(esc: Code -> seq<Byte>, s: seq<Byte>, out: seq<Byte>, start: nat, i: nat, p: Progress) returns (q: Progress)
    requires Written(esc, s, out, start, i, p) && i + 3 <= |s| && Surrogate(s[i..i + 3]) != 0
    ensures Written(esc, s, out + Marshal(esc, s[start..i]) + EscapeUnit(Surrogate(s[i..i + 3])), i + 3, i + 3, q)
  {
    assert s[i..][..3] == s[i..i + 3];
    WriterMoves(s, start, i, p);
    Flush(esc, s, out, start, i, 3, p);
    q := Flushed(p);
  }

  lemma SkipScalar(esc: Code -> seq<Byte>, s: seq<Byte>, out: seq<Byte>, start: nat, i: nat, p: Progress) returns (q: Progress)
    requires Written(esc, s, out, start, i, p) && i < |s| && (i + 3 <= |s| ==> Surrogate(s[i..i + 3]) == 0)
    ensures Written(esc, s, out, start, i + DecodeRune(s[i..]).1, q)
  {
    assert i + 3 <= |s| ==> s[i..][..3] == s[i..i + 3];
    WriterMoves(s, start, i, p);
    Skip(esc, s, out, start, i, DecodeRune(s[i..]).1, p);
    q := Skipped(p);
  }

  lemma WriteEnd(esc: Code -> seq<Byte>, s: seq<Byte>, out: seq<Byte>, start: nat, i: nat, p: Progress)
    requires Written(esc, s, out, start, i, p) && i == |s|
    ensures out + Marshal(esc, s[start..]) + [QUOTE] == [QUOTE] + EscapeAll(esc, Codes(s)) + [QUOTE]
  {
    assert p.rest == [] && s[start..] == s[start..i];
    FlushEnd(esc, s[start..i], p.done, p.run);
    assert p.done + p.run + p.rest == p.done + p.run;
  }

  lemma SliceMoves<T>(s: seq<T>, start: nat, i: nat, step: seq<T>, tail: seq<T>)
    requires start <= i <= |s| && s[i..] == step + tail
    ensures var n := |step|;
            i + n <= |s| && s[start..i + n] == s[start..i] + step && s[i + n..] == tail
  {
    var n := |step|;
    assert s == s[..i] + (step + tail);
  }

  lemma FrontMoves<A, B>(f: A -> seq<B>, s: seq<B>, start: nat, i: nat, run: seq<A>, rest: seq<A>)
    requires start <= i <= |s| && s[start..i] == FlatMap(f, run) && s[i..] == FlatMap(f, rest) && rest != []
    ensures var n := |f(rest[0])|;
            && i + n <= |s|
            && s[start..i + n] == FlatMap(f, run + [rest[0]]) && s[i + n..] == FlatMap(f, rest[1..])
  {
    FlatMapAround(f, run, rest[0], []);
    SliceMoves(s, start, i, f(rest[0]), FlatMap(f, rest[1..]));
  }

  /** The scan of the writer stands at the front code. */
  lemma FrontCode(t: seq<Byte>, rest: seq<Code>)
    requires t != [] && t == EncodeAll(rest)
    ensures rest != [] && Next(t) == (rest[0], |Encode(rest[0])|)
    ensures SurrogateAt(t) == if IsSurrogate(rest[0]) then rest[0] else 0
  {
    NextOfEncoded(rest[0], EncodeAll(rest[1..]));
  }

  lemma WriterMoves(s: seq<Byte>, start: nat, i: nat, p: Progress)
    requires start <= i < |s| && s[start..i] == EncodeAll(p.run) && s[i..] == EncodeAll(p.rest)
    ensures p.rest != [] && Moves(s, start, i, Next(s[i..]).1, p)
    ensures SurrogateAt(s[i..]) == if IsSurrogate(p.rest[0]) then p.rest[0] else 0
    ensures Next(s[i..]) == if IsSurrogate(p.rest[0]) then (p.rest[0], 3) else DecodeRune(s[i..])
  {
    FrontCode(s[i..], p.rest);
    FrontMoves(Encode, s, start, i, p.run, p.rest);
  }

  lemma FlushUnit(esc: Code -> seq<Byte>, t: seq<Byte>, done: seq<Code>, run: seq<Code>, unit: Unit)
    requires t == EncodeAll(run) && IsSurrogate(unit)
    requires forall k :: 0 <= k < |run| ==> !IsSurrogate(run[k])
    ensures [QUOTE] + EscapeAll(esc, done) + Marshal(esc, t) + EscapeUnit(unit) == [QUOTE] + EscapeAll(esc, done + run + [unit])
  {
    FlushRun(esc, t, done, run);
    FlatMapAround<Code, Byte>(Escaping(esc), done + run, unit, []);
    Regroup(EscapeAll(esc, done), Marshal(esc, t), EscapeUnit(unit));
  }

  lemma Regroup(a: seq<Byte>, b: seq<Byte>, c: seq<Byte>)
    ensures [QUOTE] + a + b + c == [QUOTE] + (a + b + c)
  {
  }

  lemma FlushEnd(esc: Code -> seq<Byte>, t: seq<Byte>, done: seq<Code>, run: seq<Code>)
    requires t == EncodeAll(run) && forall k :: 0 <= k < |run| ==> !IsSurrogate(run[k])
    ensures [QUOTE] + EscapeAll(esc, done) + Marshal(esc, t) + [QUOTE] == [QUOTE] + EscapeAll(esc, done + run) + [QUOTE]
  {
    FlushRun(esc, t, done, run);
  }

  lemma FlushRun(esc: Code -> seq<Byte>, t: seq<Byte>, done: seq<Code>, run: seq<Code>)
    requires t == EncodeAll(run) && forall k :: 0 <= k < |run| ==> !IsSurrogate(run[k])
    ensures EscapeAll(esc, done) + Marshal(esc, t) == EscapeAll(esc, done + run)
  {
    CodesOfEncoded(run);
    ScalarsMarshal(esc, run);
    FlatMapAppends<Code, Byte>(Escaping(esc), done, run);
  }

  /**
   What is quoted reads back unchanged.
   Canonical form is what this rests on: two escapes written apart are never read as one pair.
   */
  lemma QuoteRoundTrip(esc: Code -> seq<Byte>, s: seq<Byte>)
    requires Escaper(esc) && WellFormed(s)
    ensures var raw := [QUOTE] + EscapeAll(esc, Codes(s)) + [QUOTE];
            ValidLiteral(raw) && Text(Body(raw)) == s && JsonUnits(Body(raw)) == UnitsOf(s)
  {
    var e := EscapeAll(esc, Codes(s));
    var raw := [QUOTE] + e + [QUOTE];
    assert Body(raw) == e;
    EscapesReadBack(esc, Codes(s));
    BytesSurvive(s);
  }

  /** The host's own escaper: short forms, HTML-sensitive characters and line separators escaped. */
  function HostEscape(c: Code): seq<Byte> {
    if c == QUOTE || c == BACKSLASH then [BACKSLASH, c]
    else if c == 0x08 then [BACKSLASH, 0x62]
    else if c == 0x0C then [BACKSLASH, 0x66]
    else if c == 0x0A then [BACKSLASH, 0x6E]
    else if c == 0x0D then [BACKSLASH, 0x72]
    else if c == 0x09 then [BACKSLASH, 0x74]
    else if c < 0x20 || c in [0x26, 0x3C, 0x3E, 0x2028, 0x2029] then EscapeUnit(c)
    else Encode(c)
  }

  lemma HostEscapes()
    ensures Escaper(HostEscape)
  {
    forall c: Code | !IsSurrogate(c)
      ensures Spells(HostEscape(c), c)
    {
    }
  }

  // ---------------------------------------------------------------------------
  // The grammar by its own tables
  // ---------------------------------------------------------------------------

  /** What a letter after a backslash stands for, in section 7 of RFC 8259. */
  lemma ShortEscapesMean()
    ensures forall b: Byte :: b in {0x22, 0x5C, 0x2F, 0x62, 0x66, 0x6E, 0x72, 0x74} <==> ValidBody([BACKSLASH, b])
    ensures JsonUnits([BACKSLASH, 0x22]) == [0x22] && JsonUnits([BACKSLASH, 0x5C]) == [0x5C]
    ensures JsonUnits([BACKSLASH, 0x2F]) == [0x2F] && JsonUnits([BACKSLASH, 0x62]) == [0x08]
    ensures JsonUnits([BACKSLASH, 0x66]) == [0x0C] && JsonUnits([BACKSLASH, 0x6E]) == [0x0A]
    ensures JsonUnits([BACKSLASH, 0x72]) == [0x0D] && JsonUnits([BACKSLASH, 0x74]) == [0x09]
  {
    hide DecodeRune, Split;
    forall b: Byte
      ensures b in {0x22, 0x5C, 0x2F, 0x62, 0x66, 0x6E, 0x72, 0x74} <==> ValidBody([BACKSLASH, b])
      ensures ValidBody([BACKSLASH, b]) ==> JsonUnits([BACKSLASH, b]) == [Short(b)]
    {
      ShortEscape(b);
    }
  }

  lemma ShortEscape(b: Byte)
    ensures ValidBody([BACKSLASH, b]) <==> Short(b) >= 0
    ensures ValidBody([BACKSLASH, b]) ==> JsonUnits([BACKSLASH, b]) == [Short(b)]
  {
    hide DecodeRune, Split;
    assert [BACKSLASH, b][2..] == [];
  }

  /** The hexadecimal digits in their order, in either case. */
  const LOWER_DIGITS: seq<Byte> := [0x30, 0x31, 0x32, 0x33, 0x34, 0x35, 0x36, 0x37, 0x38, 0x39, 0x61, 0x62, 0x63, 0x64, 0x65, 0x66]
  const UPPER_DIGITS: seq<Byte> := [0x30, 0x31, 0x32, 0x33, 0x34, 0x35, 0x36, 0x37, 0x38, 0x39, 0x41, 0x42, 0x43, 0x44, 0x45, 0x46]

  lemma DigitsMean(v: nat)
    requires v < 0x10
    ensures IsHex(LOWER_DIGITS[v]) && HexValue(LOWER_DIGITS[v]) == v && HexDigit(v) == LOWER_DIGITS[v]
    ensures IsHex(UPPER_DIGITS[v]) && HexValue(UPPER_DIGITS[v]) == v
  {
  }

  predicate DigitOf(b: Byte, v: nat)
    requires v < 0x10
  {
    b == LOWER_DIGITS[v] || b == UPPER_DIGITS[v]
  }

  /** Four digits in any case, after a backslash and a u, read as the unit they write; it is written in lower case. */
  lemma UnicodeEscapesMean(a: Byte, b: Byte, c: Byte, d: Byte, u: nat, v: nat, w: nat, x: nat)
    requires u < 0x10 && v < 0x10 && w < 0x10 && x < 0x10
    requires DigitOf(a, u) && DigitOf(b, v) && DigitOf(c, w) && DigitOf(d, x)
    ensures var e := [0x5C, 0x75, a, b, c, d];
            && ValidBody(e) && JsonUnits(e) == [((u * 0x10 + v) * 0x10 + w) * 0x10 + x]
            && EscapeUnit(((u * 0x10 + v) * 0x10 + w) * 0x10 + x)
               == [0x5C, 0x75, LOWER_DIGITS[u], LOWER_DIGITS[v], LOWER_DIGITS[w], LOWER_DIGITS[x]]
  {
    hide DecodeRune, Split, HexValue, IsHex;
    DigitsMean(u);
    DigitsMean(v);
    DigitsMean(w);
    DigitsMean(x);
    SpellingOfUnit([BACKSLASH, LETTER_U, a, b, c, d], []);
    assert [BACKSLASH, LETTER_U, a, b, c, d] + [] == [BACKSLASH, LETTER_U, a, b, c, d];
    EscapedDigits(u, v, w, x);
  }

  /** With anything else among the four there is no escape. */
  lemma UnicodeEscapesNeedDigits(a: Byte, b: Byte, c: Byte, d: Byte)
    ensures ValidBody([0x5C, 0x75, a, b, c, d]) <==>
              a in LOWER_DIGITS + UPPER_DIGITS && b in LOWER_DIGITS + UPPER_DIGITS
              && c in LOWER_DIGITS + UPPER_DIGITS && d in LOWER_DIGITS + UPPER_DIGITS
  {
    var e := [BACKSLASH, LETTER_U, a, b, c, d];
    NoOtherDigits(a);
    NoOtherDigits(b);
    NoOtherDigits(c);
    NoOtherDigits(d);
    hide IsHex;
    assert e[6..] == [];
  }

  lemma NoOtherDigits(b: Byte)
    ensures IsHex(b) <==> b in LOWER_DIGITS + UPPER_DIGITS
  {
    if IsHex(b) {
      if b <= 0x39 {
        assert b == (LOWER_DIGITS + UPPER_DIGITS)[b - 0x30];
      } else if b <= 0x46 {
        assert b == (LOWER_DIGITS + UPPER_DIGITS)[b - 0x41 + 26];
      } else {
        assert b == (LOWER_DIGITS + UPPER_DIGITS)[b - 0x61 + 10];
      }
    }
  }

  lemma EscapedDigits(u: nat, v: nat, w: nat, x: nat)
    requires u < 0x10 && v < 0x10 && w < 0x10 && x < 0x10
    ensures EscapeUnit(((u * 0x10 + v) * 0x10 + w) * 0x10 + x)
            == [BACKSLASH, LETTER_U, HexDigit(u), HexDigit(v), HexDigit(w), HexDigit(x)]
  {
    hide HexDigit;
    HexParts(u, v, w, x);
  }

  lemma HexParts(u: nat, v: nat, w: nat, x: nat)
    requires u < 0x10 && v < 0x10 && w < 0x10 && x < 0x10
    ensures var n := ((u * 0x10 + v) * 0x10 + w) * 0x10 + x;
            n / 0x1000 == u && n / 0x100 % 0x10 == v && n / 0x10 % 0x10 == w && n % 0x10 == x
  {
    var n := ((u * 0x10 + v) * 0x10 + w) * 0x10 + x;
    assert n / 0x10 == (u * 0x10 + v) * 0x10 + w;
    assert n / 0x100 == u * 0x10 + v;
  }

  /** A byte alone is a body unless it is a control character, a quote or a backslash; a scalar alone reads as itself. */
  lemma ScalarsStandForThemselves(c: Code)
    requires !IsSurrogate(c)
    ensures ValidBody(Encode(c)) <==> c >= 0x20 && c != QUOTE && c != BACKSLASH
    ensures ValidBody(Encode(c)) ==> JsonUnits(Encode(c)) == Split(c)
  {
    if c >= 0x20 && c != QUOTE && c != BACKSLASH {
      SpellingOfLiteral(c, []);
      assert Encode(c) + [] == Encode(c);
    }
  }

  lemma {:induction false} ControlsAreRefused(b: seq<Byte>)
    requires ValidBody(b)
    ensures forall i :: 0 <= i < |b| ==> b[i] >= 0x20
    decreases |b|
  {
    if b != [] {
      var n := if EscapeAt(b, 0) && ValidBody(b[6..]) then 6 else if ShortAt(b, 0) && ValidBody(b[2..]) then 2 else 1;
      ControlsAreRefused(b[n..]);
      assert forall i :: n <= i < |b| ==> b[i] == b[n..][i - n];
    }
  }

  /** The host spells quotes, backslashes and five controls short, and lets no HTML-sensitive character or line separator through. */
  lemma HostEscapesMean()
    ensures HostEscape(0x22) == [BACKSLASH, 0x22] && HostEscape(0x5C) == [BACKSLASH, 0x5C]
    ensures HostEscape(0x08) == [BACKSLASH, 0x62] && HostEscape(0x0C) == [BACKSLASH, 0x66] && HostEscape(0x0A) == [BACKSLASH, 0x6E]
    ensures HostEscape(0x0D) == [BACKSLASH, 0x72] && HostEscape(0x09) == [BACKSLASH, 0x74]
    ensures forall c: Code :: c in {0x26, 0x3C, 0x3E, 0x2028, 0x2029} ==> HostEscape(c) == EscapeUnit(c)
    ensures forall c: Code :: c < 0x20 && c !in {0x08, 0x0C, 0x0A, 0x0D, 0x09} ==> HostEscape(c) == EscapeUnit(c)
    ensures forall c: Code :: c >= 0x20 && c !in {0x22, 0x5C, 0x26, 0x3C, 0x3E, 0x2028, 0x2029} ==> HostEscape(c) == Encode(c)
  {
    hide EscapeUnit, Encode;
  }
}
