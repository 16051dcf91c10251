/**
 Letter numerals (bijective base 26) and Roman numerals: printers and the parsers that invert them.
 */
module Numerals {
  import opened Options
  import opened Powers


  // ---------------------------------------------------------------------------
  // Letters
  // ---------------------------------------------------------------------------

  predicate IsLetter(c: char) {
    'a' <= c <= 'z'
  }

  predicate AllLetters(s: string) {
    forall i :: 0 <= i < |s| ==> IsLetter(s[i])
  }

  /** One letter counts from 1. */
  function LetterValue(c: char): nat
    requires IsLetter(c)
  {
    c as int - 'a' as int + 1
  }

  function Letter(d: nat): char
    requires d < 26
  {
    'a' + d as char
  }

  function LettersValue(s: string): nat
    requires AllLetters(s)
  {
    if s == "" then 0 else LettersValue(s[..|s| - 1]) * 26 + LetterValue(s[|s| - 1])
  }

  function Letters(n: nat): string {
    if n == 0 then "" else Letters((n - 1) / 26) + [Letter((n - 1) % 26)]
  }

  /** Every natural number has a spelling that reads back. */
  lemma {:induction false} LettersReadBack(n: nat)
    ensures AllLetters(Letters(n)) && LettersValue(Letters(n)) == n
  {
    if n > 0 {
      LettersReadBack((n - 1) / 26);
      assert Letters(n)[..|Letters(n)| - 1] == Letters((n - 1) / 26);
    }
  }

  /** And every string of letters is the spelling of its value, so the coding is a bijection. */
  lemma {:induction false} LettersSpellBack(s: string)
    requires AllLetters(s)
    ensures Letters(LettersValue(s)) == s
  {
    if s != "" {
      var front := s[..|s| - 1];
      LettersSpellBack(front);
      assert s == front + [s[|s| - 1]];
    }
  }

  /** Shorter spellings come first, and spellings of one length are in the order of the alphabet. */
  ghost predicate SpelledBefore(a: string, b: string) {
    || |a| < |b|
    || (|a| == |b| && exists k :: 0 <= k < |a| && a[..k] == b[..k] && a[k] < b[k])
  }

  /** The letters of the numbers are in order, as columns of a sheet are: a, b, and so on to z, aa, ab. */
  lemma {:induction false} LettersAscend(m: nat, n: nat)
    requires m < n
    ensures SpelledBefore(Letters(m), Letters(n))
    decreases n
  {
    hide Letters, Letter, SpelledBefore;
    if m == 0 {
      NothingFirst(n);
    } else {
      var i, j := (m - 1) / 26, (n - 1) / 26;
      LettersUnfold(m);
      LettersUnfold(n);
      if i < j {
        LettersAscend(i, j);
        StaysBefore(Letters(i), Letters(j), Letter((m - 1) % 26), Letter((n - 1) % 26));
      } else {
        LastLetterDecides(Letters(i), (m - 1) % 26, (n - 1) % 26);
      }
    }
  }

  lemma LettersUnfold(n: nat)
    requires n > 0
    ensures Letters(n) == Letters((n - 1) / 26) + [Letter((n - 1) % 26)]
  {
  }

  lemma NothingFirst(n: nat)
    requires n > 0
    ensures SpelledBefore(Letters(0), Letters(n))
  {
  }

  lemma StaysBefore(a: string, b: string, x: char, y: char)
    requires SpelledBefore(a, b)
    ensures SpelledBefore(a + [x], b + [y])
  {
    if |a| == |b| {
      var k :| 0 <= k < |a| && a[..k] == b[..k] && a[k] < b[k];
      assert (a + [x])[..k] == a[..k] && (b + [y])[..k] == b[..k];
      assert (a + [x])[k] < (b + [y])[k];
    }
  }

  lemma LastLetterDecides(a: string, p: nat, q: nat)
    requires p < q < 26
    ensures SpelledBefore(a + [Letter(p)], a + [Letter(q)])
  {
    assert (a + [Letter(p)])[..|a|] == a && (a + [Letter(q)])[..|a|] == a;
    assert (a + [Letter(p)])[|a|] < (a + [Letter(q)])[|a|];
  }

  /** The alphabet is all used. */
  lemma LettersBegin()
    ensures Letters(0) == "" && Letters(1) == "a" && Letters(26) == "z" && Letters(27) == "aa"
  {
    assert Letters(1) == Letters(0) + [Letter(0)];
    assert Letters(26) == Letters(0) + [Letter(25)];
    assert Letters(27) == Letters(1) + [Letter(0)];
  }

  lemma {:induction false} LettersGrow(s: string, k: nat)
    requires AllLetters(s) && k <= |s|
    ensures LettersValue(s[..k]) <= LettersValue(s)
    decreases |s|
  {
    if k < |s| {
      var front := s[..|s| - 1];
      LettersGrow(front, k);
      assert front[..k] == s[..k];
    } else {
      assert s[..k] == s;
    }
  }

  method BigIntToAlphabetic(value: nat) returns (s: string)
    ensures s == Letters(value)
  {
    var n, chars := value, [];
    while n > 0
      invariant Letters(value) == Letters(n) + Reversed(chars)
    {
      LettersTurn(n, chars);
      n := n - 1;
      chars := chars + [Letter(n % 26)];
      n := n / 26;
    }
    s := Reversed(chars);
  }

  lemma LettersTurn(n: nat, chars: string)
    requires n > 0
    ensures Letters(n) + Reversed(chars) == Letters((n - 1) / 26) + Reversed(chars + [Letter((n - 1) % 26)])
  {
    ReversedGrows(Letters((n - 1) / 26), chars, Letter((n - 1) % 26));
  }

  lemma ReversedGrows(front: string, chars: string, c: char)
    ensures front + [c] + Reversed(chars) == front + Reversed(chars + [c])
  {
    var grown := chars + [c];
    ReversedLast(grown);
    assert grown[..|grown| - 1] == chars;
    Regroup(front, [c], Reversed(chars));
  }

  function Reversed(s: string): (r: string)
    ensures |r| == |s|
  {
    if s == "" then "" else Reversed(s[1..]) + [s[0]]
  }

  lemma {:induction false} ReversedLast(s: string)
    requires s != ""
    ensures Reversed(s) == [s[|s| - 1]] + Reversed(s[..|s| - 1])
  {
    if |s| > 1 {
      ReversedLast(s[1..]);
      assert s[1..][..|s| - 2] == s[..|s| - 1][1..];
    }
  }

  datatype Parsed = Value(n: nat) | Invalid | OverBudget

  /** A text with the host's mapping applied to each character. */
  function Mapped(f: char -> char, s: string): (r: string)
    ensures |r| == |s|
  {
    seq(|s|, i requires 0 <= i < |s| => f(s[i]))
  }

  /** The picture parser, on the text in lower case: a budget on the digits of the value, checked letter by letter. */
  method ParseLetters(lower: char -> char, text: string, maxDigits: nat) returns (r: Parsed)
    ensures var s := Mapped(lower, text);
            && (r.Value? ==> AllLetters(s) && r.n == LettersValue(s))
            && (AllLetters(s) ==> r == if s == "" || Digits(LettersValue(s)) <= maxDigits then Value(LettersValue(s)) else OverBudget)
            && (r.Invalid? ==> !AllLetters(s))
  {
    var s := Mapped(lower, text);
    var n := 0;
    for i := 0 to |s|
      invariant AllLetters(s[..i]) && n == LettersValue(s[..i])
      invariant i == 0 || Digits(n) <= maxDigits
    {
      if !IsLetter(s[i]) {
        return Invalid;
      }
      ValueStep(s, i);
      n := n * 26 + LetterValue(s[i]);
      if Digits(n) > maxDigits {
        if AllLetters(s) {
          LettersGrow(s, i + 1);
          DigitsMonotone(n, LettersValue(s));
        }
        return OverBudget;
      }
    }
    assert s[..|s|] == s;
    return Value(n);
  }

  const MAX_INT := 0x7FFF_FFFF_FFFF_FFFF

  function LetterRun(s: string): (k: nat)
    ensures k <= |s| && AllLetters(s[..k]) && (k < |s| ==> !IsLetter(s[k]))
  {
    if s == "" || !IsLetter(s[0]) then 0 else
    var k := 1 + LetterRun(s[1..]);
    assert s[..k] == [s[0]] + s[1..][..k - 1];
    k
  }

  datatype DateField = Field(value: nat, consumed: nat) | NoField | FieldOverflow

  /** The date parser takes the longest run of letters, of either case, and never exceeds the machine's integers. */
  method ParseAlphabetic(lower: char -> char, s: string) returns (r: DateField)
    ensures var t := Mapped(lower, s);
            var k := LetterRun(t);
            r == if k == 0 then NoField
                 else if LettersValue(t[..k]) > 0x7FFF_FFFF_FFFF_FFFF then FieldOverflow
                 else Field(LettersValue(t[..k]), k)
  {
    ghost var t := Mapped(lower, s);
    assert |t| == |s| && forall i :: 0 <= i < |s| ==> t[i] == lower(s[i]);
    assert AllLetters(t[..0]) && LettersValue(t[..0]) == 0 && t[0..] == t;
    hide LettersValue, LetterRun, Mapped, AllLetters;
    var i, result := 0, 0;
    while i < |s| && IsLetter(lower(s[i]))
      invariant i <= |s| && LetterRun(t) == i + LetterRun(t[i..])
      invariant AllLetters(t[..i]) && result == LettersValue(t[..i]) <= MAX_INT
    {
      RunStep(t, i);
      ValueStep(t, i);
      var digit := LetterValue(lower(s[i]));
      if result > (MAX_INT - digit) / 26 {
        ValueInRun(t, i + 1);
        return FieldOverflow;
      }
      result := result * 26 + digit;
      i := i + 1;
    }
    RunStep(t, i);
    return if i == 0 then NoField else Field(result, i);
  }

  lemma RunStep(t: string, i: nat)
    requires i <= |t|
    ensures LetterRun(t[i..]) == if i < |t| && IsLetter(t[i]) then 1 + LetterRun(t[i + 1..]) else 0
  {
    if i < |t| {
      assert t[i..][1..] == t[i + 1..];
    }
  }

  lemma ValueStep(t: string, i: nat)
    requires i < |t| && AllLetters(t[..i]) && IsLetter(t[i])
    ensures AllLetters(t[..i + 1]) && LettersValue(t[..i + 1]) == LettersValue(t[..i]) * 26 + LetterValue(t[i])
  {
    assert t[..i + 1][..i] == t[..i];
    assert t[..i + 1][i] == t[i];
  }

  lemma ValueInRun(t: string, i: nat)
    requires i <= LetterRun(t) && AllLetters(t[..i])
    ensures LettersValue(t[..i]) <= LettersValue(t[..LetterRun(t)])
  {
    LettersGrow(t[..LetterRun(t)], i);
    assert t[..LetterRun(t)][..i] == t[..i];
  }

  // ---------------------------------------------------------------------------
  // Roman numerals
  // ---------------------------------------------------------------------------

  /** The value of a Roman digit; 0 for other characters. */
  function Roman(c: char): nat {
    match c
    case 'I' => 1
    case 'V' => 5
    case 'X' => 10
    case 'L' => 50
    case 'C' => 100
    case 'D' => 500
    case 'M' => 1000
    case _ => 0
  }

  predicate IsRoman(s: string) {
    forall i :: 0 <= i < |s| ==> Roman(s[i]) > 0
  }

  function Highest(s: string): nat {
    if s == "" then 0 else if Roman(s[0]) > Highest(s[1..]) then Roman(s[0]) else Highest(s[1..])
  }

  /** Left to right: a digit is subtracted when the next one is greater. */
  function ByNext(s: string): int {
    if s == "" then 0
    else if |s| > 1 && Roman(s[1]) > Roman(s[0]) then ByNext(s[1..]) - Roman(s[0])
    else ByNext(s[1..]) + Roman(s[0])
  }

  /** Right to left: a digit is subtracted when any later one is greater. */
  function ByHighest(s: string): int {
    if s == "" then 0
    else if Highest(s[1..]) > Roman(s[0]) then ByHighest(s[1..]) - Roman(s[0])
    else ByHighest(s[1..]) + Roman(s[0])
  }

  method FromRoman(s: string) returns (r: Option<int>)
    ensures r == if IsRoman(s) then Some(ByNext(s)) else None
  {
    var total := 0;
    for i := 0 to |s|
      invariant forall k :: 0 <= k < i ==> Roman(s[k]) > 0
      invariant total + ByNext(s[i..]) == ByNext(s)
    {
      var v := Roman(s[i]);
      if v == 0 {
        return None;
      }
      assert s[i..][1..] == s[i + 1..];
      if i + 1 < |s| {
        var next := Roman(s[i + 1]);
        if next > v {
          total := total - v;
          continue;
        }
      }
      total := total + v;
    }
    return Some(total);
  }

  /** A host number of which one may be lost: `None` is NaN, which is what adding undefined gives. */
  type HostNumber = Option<int>

  function Plus(a: HostNumber, b: HostNumber): HostNumber {
    if a.Some? && b.Some? then Some(a.value + b.value) else None
  }

  /** Comparison with undefined or NaN is false. */
  predicate Below(a: HostNumber, b: HostNumber) {
    a.Some? && b.Some? && a.value < b.value
  }

  function HostRoman(c: char): HostNumber {
    if Roman(c) > 0 then Some(Roman(c)) else None
  }

  /** Right to left; letters that are no digits make the result NaN. */
  method RomanToDecimal(roman: string) returns (decimal: HostNumber)
    ensures decimal == if IsRoman(roman) then Some(ByHighest(roman)) else None
  {
    decimal := Some(0);
    var max: HostNumber := Some(1);
    for i := |roman| downto 0
      invariant decimal == if IsRoman(roman[i..]) then Some(ByHighest(roman[i..])) else None
      invariant IsRoman(roman[i..]) ==> max == Some(if i == |roman| then 1 else Highest(roman[i..]))
    {
      assert roman[i..][1..] == roman[i + 1..];
      RomanTail(roman[i..]);
      var value := HostRoman(roman[i]);
      if Below(value, max) {
        decimal := if decimal.Some? then Some(decimal.value - value.value) else None;
      } else {
        max := value;
        decimal := Plus(decimal, value);
      }
    }
    assert roman[0..] == roman;
  }

  lemma RomanTail(s: string)
    requires s != ""
    ensures IsRoman(s) <==> Roman(s[0]) > 0 && IsRoman(s[1..])
  {
    if Roman(s[0]) > 0 && IsRoman(s[1..]) {
      assert forall i :: 1 <= i < |s| ==> s[i] == s[1..][i - 1];
    }
  }

  function RomanRun(s: string): (k: nat)
    ensures k <= |s| && IsRoman(s[..k]) && (k < |s| ==> Roman(s[k]) == 0)
  {
    if s == "" || Roman(s[0]) == 0 then 0 else
    var k := 1 + RomanRun(s[1..]);
    assert s[..k] == [s[0]] + s[1..][..k - 1];
    k
  }

  function Upper(c: char): char {
    if 'a' <= c <= 'z' then 'A' + (c - 'a') else c
  }

  /** The date parser takes the longest run of Roman digits, of either case. */
  method ParseRoman(s: string) returns (r: Option<(int, nat)>)
    ensures var t := Mapped(Upper, s);
            var k := RomanRun(t);
            r == if k == 0 then None else Some((ByHighest(t[..k]), k))
  {
    ghost var t := Mapped(Upper, s);
    var i := 0;
    while i < |s| && Roman(Upper(s[i])) > 0
      invariant i <= |s| && RomanRun(t) == i + RomanRun(t[i..])
    {
      assert t[i] == Upper(s[i]) && t[i..][1..] == t[i + 1..];
      i := i + 1;
    }
    assert i < |s| ==> t[i] == Upper(s[i]);
    if i == 0 {
      return None;
    }
    var total: int, prev: nat := 0, 0;
    ghost var run := t[..i];
    for j := i downto 0
      invariant total == ByHighest(run[j..]) && prev == Highest(run[j..])
    {
      assert run[j..][1..] == run[j + 1..] && run[j] == Upper(s[j]);
      var v := Roman(Upper(s[j]));
      if v < prev {
        total := total - v;
      } else {
        total := total + v;
        prev := v;
      }
    }
    assert run[0..] == run;
    return Some((total, i));
  }

  /** A digit that only the right-to-left reading subtracts. */
  predicate Shadowed(s: string, i: nat)
    requires i + 1 < |s|
  {
    Roman(s[i + 1]) <= Roman(s[i]) < Highest(s[i + 1..])
  }

  ghost predicate Agreeable(s: string) {
    forall i :: 0 <= i < |s| - 1 ==> !Shadowed(s, i)
  }

  lemma {:induction false} HighestCovers(s: string, i: nat)
    requires i < |s|
    ensures Roman(s[i]) <= Highest(s)
  {
    if i > 0 {
      HighestCovers(s[1..], i - 1);
    }
  }

  lemma AgreeableTail(s: string)
    requires s != ""
    ensures Agreeable(s) <==> Agreeable(s[1..]) && (|s| > 1 ==> !Shadowed(s, 0))
  {
    var tail := s[1..];
    forall i | 0 <= i < |tail| - 1
      ensures Shadowed(tail, i) <==> Shadowed(s, i + 1)
    {
      assert tail[i + 1..] == s[i + 2..];
    }
    if Agreeable(tail) && (|s| > 1 ==> !Shadowed(s, 0)) {
      forall i | 0 <= i < |s| - 1
        ensures !Shadowed(s, i)
      {
        assert i > 0 ==> !Shadowed(tail, i - 1);
      }
    }
  }

  /** The two readings agree exactly when no digit is shadowed; otherwise left to right reads more. */
  lemma {:induction false} ReadingsAgree(s: string)
    requires IsRoman(s)
    ensures ByNext(s) >= ByHighest(s)
    ensures ByNext(s) == ByHighest(s) <==> Agreeable(s)
  {
    if s != "" {
      ReadingsAgree(s[1..]);
      AgreeableTail(s);
      if |s| > 1 {
        HighestCovers(s[1..], 0);
      }
    }
  }

  /** The engines part ways on numerals no printer writes. */
  lemma ReadingsDiffer()
    ensures ByNext("IIX") == 10 && ByHighest("IIX") == 8 && Shadowed("IIX", 0)
  {
    var s := "IIX";
    assert s[1..] == "IX" && s[1..][1..] == "X" && s[1..][1..][1..] == "";
  }

  const AMOUNTS: seq<nat> := [1000, 900, 500, 400, 100, 90, 50, 40, 10, 9, 5, 4, 1]
  const SYMBOLS: seq<string> := ["M", "CM", "D", "CD", "C", "XC", "L", "XL", "X", "IX", "V", "IV", "I"]

  function Amount(k: nat): (a: nat)
    requires k < 13
    ensures a > 0
  {
    AMOUNTS[k]
  }

  function Symbol(k: nat): string
    requires k < 13
  {
    SYMBOLS[k]
  }

  /** Greedy numerals over the entries of the table from k on. */
  function Numeral(n: nat, k: nat): string
    requires k <= 13
    decreases 13 - k, n
  {
    if k == 13 then ""
    else if n >= Amount(k) then Symbol(k) + Numeral(n - Amount(k), k)
    else Numeral(n, k + 1)
  }

  method ToRoman(n: int) returns (s: string)
    ensures s == if n <= 0 then "" else Numeral(n, 0)
  {
    if n <= 0 {
      return "";
    }
    s := "";
    var rest: nat := n;
    for k := 0 to 13
      invariant s + Numeral(rest, k) == Numeral(n, 0)
    {
      var v := AMOUNTS[k];
      while rest >= v
        invariant s + Numeral(rest, k) == Numeral(n, 0)
      {
        assert Numeral(rest, k) == Symbol(k) + Numeral(rest - v, k);
        s := s + SYMBOLS[k];
        rest := rest - v;
      }
    }
  }

  function Repeat(s: string, count: nat): string {
    if count == 0 then "" else s + Repeat(s, count - 1)
  }

  lemma OneTurn(count: nat, a: nat)
    requires count > 0
    ensures (count - 1) * a == count * a - a && a <= count * a
  {
  }

  lemma NumeralTakes(n: nat, k: nat, a: nat, symbol: string)
    requires k < 13 && a == Amount(k) && symbol == Symbol(k) && a <= n
    ensures Numeral(n, k) == symbol + Numeral(n - a, k)
  {
  }

  lemma {:induction false} NumeralRepeats(n: nat, k: nat, a: nat, symbol: string, count: nat)
    requires k < 13 && a == Amount(k) && symbol == Symbol(k) && count * a <= n
    ensures Numeral(n, k) == Repeat(symbol, count) + Numeral(n - count * a, k)
    decreases count
  {
    if count > 0 {
      OneTurn(count, a);
      NumeralTakes(n, k, a, symbol);
      NumeralRepeats(n - a, k, a, symbol, count - 1);
      Regroup(symbol, Repeat(symbol, count - 1), Numeral(n - count * a, k));
    }
  }

  lemma DivLaw(n: nat, a: nat)
    requires a > 0
    ensures n / a * a <= n && n - n / a * a < a
  {
  }

  lemma NumeralSkips(n: nat, k: nat)
    requires k < 13 && n < Amount(k)
    ensures Numeral(n, k) == Numeral(n, k + 1)
  {
  }

  lemma NumeralTakesAll(n: nat, k: nat, a: nat, symbol: string, count: nat, left: nat)
    requires k < 13 && a == Amount(k) && symbol == Symbol(k) && left == n - count * a < a
    ensures Numeral(n, k) == Repeat(symbol, count) + Numeral(left, k + 1)
  {
    NumeralRepeats(n, k, a, symbol, count);
    NumeralSkips(left, k);
  }

  lemma NumeralTurn(done: string, n: nat, k: nat)
    requires k < 13
    ensures var count := n / Amount(k);
            var left := n - count * Amount(k);
            left >= 0 && done + Repeat(Symbol(k), count) + Numeral(left, k + 1) == done + Numeral(n, k)
  {
    hide Numeral, Repeat, Symbol, Amount;
    var count := n / Amount(k);
    DivLaw(n, Amount(k));
    var left: nat := n - count * Amount(k);
    NumeralTakesAll(n, k, Amount(k), Symbol(k), count, left);
    Regroup(done, Repeat(Symbol(k), count), Numeral(left, k + 1));
  }

  lemma Regroup(a: string, b: string, c: string)
    ensures a + b + c == a + (b + c)
  {
  }

  lemma NumeralEnds(n: nat)
    ensures Numeral(n, 13) == ""
  {
  }

  method DecimalToRoman(value: nat) returns (result: string)
    ensures result == Numeral(value, 0)
  {
    hide *;
    result := "";
    var remaining := value;
    for k := 0 to 13
      invariant result + Numeral(remaining, k) == Numeral(value, 0)
    {
      var amount, symbol := Amount(k), Symbol(k);
      NumeralTurn(result, remaining, k);
      var count := remaining / amount;
      result := result + Repeat(symbol, count);
      remaining := remaining - count * amount;
    }
    NumeralEnds(remaining);
  }

  /** The greatest digit of an entry's symbol: the only one that later entries may follow. */
  function Top(k: nat): nat
    requires k <= 13
  {
    if k == 13 then 0 else Highest(Symbol(k))
  }

  lemma SymbolShape(k: nat)
    requires k < 13
    ensures |Symbol(k)| == 1 || |Symbol(k)| == 2
    ensures |Symbol(k)| == 1 ==> Roman(Symbol(k)[0]) == Amount(k) == Top(k) > 0
    ensures |Symbol(k)| == 2 ==> 0 < Roman(Symbol(k)[0]) < Roman(Symbol(k)[1]) == Top(k) && Amount(k) == Top(k) - Roman(Symbol(k)[0])
    ensures Top(k + 1) <= Top(k)
  {
    assert Highest("") == 0;
    var s := Symbol(k);
    assert s == [s[0]] || s == [s[0], s[1]];
    assert s[1..] == [] || (s[1..] == [s[1]] && s[1..][1..] == []);
    if k < 12 {
      var t := Symbol(k + 1);
      assert t == [t[0]] || t == [t[0], t[1]];
      assert t[1..] == [] || (t[1..] == [t[1]] && t[1..][1..] == []);
    }
  }

  lemma SymbolReads(k: nat, rest: string)
    requires k < 13 && IsRoman(rest) && Highest(rest) <= Top(k)
    ensures var s := Symbol(k) + rest;
            IsRoman(s) && Highest(s) == Top(k) && ByNext(s) == Amount(k) + ByNext(rest) && ByHighest(s) == Amount(k) + ByHighest(rest)
  {
    SymbolShape(k);
    var sym, s := Symbol(k), Symbol(k) + rest;
    if rest != "" {
      HighestCovers(rest, 0);
    }
    if |sym| == 1 {
      assert s[1..] == rest;
    } else {
      var tail := s[1..];
      assert tail == [sym[1]] + rest && tail[1..] == rest;
    }
  }

  /** A numeral reads back as its number in both directions, so no printed digit is shadowed. */
  lemma {:induction false} NumeralReadsBack(n: nat, k: nat)
    requires k <= 13 && (k > 0 ==> n < Amount(k - 1))
    ensures var s := Numeral(n, k);
            IsRoman(s) && Highest(s) <= Top(k) && ByNext(s) == n && ByHighest(s) == n
    decreases 13 - k, n
  {
    hide Numeral, Symbol, Amount, Highest, ByNext, ByHighest, Roman, IsRoman, Top;
    if k == 13 {
      NothingReads(n);
    } else if n >= Amount(k) {
      NumeralReadsBack(n - Amount(k), k);
      SymbolReads(k, Numeral(n - Amount(k), k));
      NumeralTakes(n, k, Amount(k), Symbol(k));
    } else {
      NumeralReadsBack(n, k + 1);
      SymbolShape(k);
      NumeralSkips(n, k);
    }
  }

  lemma NothingReads(n: nat)
    requires n < Amount(12)
    ensures n == 0 && Numeral(n, 13) == "" && IsRoman("") && Highest("") == Top(13) == 0 && ByNext("") == 0 && ByHighest("") == 0
  {
  }

  // ---------------------------------------------------------------------------
  // Numerals digit by digit
  // ---------------------------------------------------------------------------

  /** What the seven letters are worth, and nothing else. */
  lemma RomanDigits(c: char)
    ensures Roman('I') == 1 && Roman('V') == 5 && Roman('X') == 10 && Roman('L') == 50
    ensures Roman('C') == 100 && Roman('D') == 500 && Roman('M') == 1000
    ensures Roman(c) > 0 <==> c in "IVXLCDM"
  {
  }

  /** Two letters: the first is taken from the second if it is worth less, in either reading. */
  lemma PairsOfLetters(c: char, d: char)
    ensures var n := if Roman(c) < Roman(d) then Roman(d) - Roman(c) else Roman(c) + Roman(d);
            ByNext([c, d]) == n && ByHighest([c, d]) == n
  {
    hide Roman;
    assert [c, d][1..] == [d] && [d][1..] == [];
    assert Highest([]) == 0 && Highest([d]) == Roman(d);
    assert ByNext([]) == 0 && ByNext([d]) == Roman(d) && ByHighest([]) == 0 && ByHighest([d]) == Roman(d);
  }

  /** A numeral in any mixture of cases is read as the numeral. */
  lemma NumeralsInAnyCase(s: string, t: string)
    requires IsRoman(s) && |t| == |s|
    requires forall i :: 0 <= i < |s| ==> t[i] == s[i] || t[i] as int == s[i] as int + 32
    ensures Mapped(Upper, t) == s && RomanRun(Mapped(Upper, t)) == |s|
  {
    forall i | 0 <= i < |s|
      ensures Upper(t[i]) == s[i]
    {
      RomanDigits(s[i]);
    }
    assert Mapped(Upper, t) == s;
    RunOfRoman(s);
  }

  lemma {:induction false} RunOfRoman(s: string)
    requires IsRoman(s)
    ensures RomanRun(s) == |s|
  {
    if s != "" {
      RunOfRoman(s[1..]);
    }
  }

  /** One decimal digit in Roman letters for one, five and ten. */
  function DigitNumeral(one: string, five: string, ten: string, d: nat): string
    requires d < 10
  {
    if d < 4 then Repeat(one, d) else if d == 4 then one + five else if d < 9 then five + Repeat(one, d - 5) else one + ten
  }

  /** From the entry for nine units on, a number below ten units spells its digit and goes on below one. */
  lemma DigitIsSpelled(n: nat, k: nat, unit: nat, one: string, five: string, ten: string)
    requires k + 4 <= 13 && unit > 0 && n < 10 * unit
    requires Amount(k) == 9 * unit && Amount(k + 1) == 5 * unit && Amount(k + 2) == 4 * unit && Amount(k + 3) == unit
    requires Symbol(k) == one + ten && Symbol(k + 1) == five && Symbol(k + 2) == one + five && Symbol(k + 3) == one
    ensures n / unit < 10 && Numeral(n, k) == DigitNumeral(one, five, ten, n / unit) + Numeral(n % unit, k + 4)
  {
    hide Numeral, Repeat, Symbol, Amount, Top;
    var d, left := DigitOf(n, unit);
    if d == 9 {
      NumeralTakes(n, k, 9 * unit, one + ten);
      SkipThree(left, k, unit);
      NumeralSkips(left, k + 3);
    } else if d >= 5 {
      NumeralSkips(n, k);
      NumeralTakes(n, k + 1, 5 * unit, five);
      NumeralSkips(n - 5 * unit, k + 1);
      NumeralSkips(n - 5 * unit, k + 2);
      NumeralTakesAll(n - 5 * unit, k + 3, unit, one, d - 5, left);
      Regroup(five, Repeat(one, d - 5), Numeral(left, k + 4));
    } else if d == 4 {
      NumeralSkips(n, k);
      NumeralSkips(n, k + 1);
      NumeralTakes(n, k + 2, 4 * unit, one + five);
      NumeralSkips(left, k + 2);
      NumeralSkips(left, k + 3);
    } else {
      SkipThree(n, k, unit);
      NumeralTakesAll(n, k + 3, unit, one, d, left);
    }
  }

  lemma DigitOf(n: nat, unit: nat) returns (d: nat, left: nat)
    requires unit > 0 && n < 10 * unit
    ensures d == n / unit < 10 && left == n % unit < unit && n == d * unit + left
    ensures d == 9 ==> left == n - 9 * unit
    ensures 5 <= d < 9 ==> n < 9 * unit && n >= 5 * unit && left == n - 5 * unit - (d - 5) * unit && n - 5 * unit < 4 * unit
    ensures d == 4 ==> n < 5 * unit && left == n - 4 * unit
    ensures d < 4 ==> n < 4 * unit
  {
    d, left := n / unit, n % unit;
    DigitFits(n, unit, d, left);
    if d >= 9 {
      Times(9, d, unit);
    } else if d >= 5 {
      Times(5, d, unit);
      Times(d + 1, 9, unit);
    } else {
      Times(d + 1, 5, unit);
      if d < 4 {
        Times(d + 1, 4, unit);
      }
    }
  }

  lemma DigitFits(n: nat, unit: nat, d: nat, left: nat)
    requires unit > 0 && n < 10 * unit && d == n / unit && left == n % unit
    ensures n == d * unit + left && left < unit && d < 10
  {
    DivLaw(n, unit);
    if d >= 10 {
      Times(10, d, unit);
    }
  }

  lemma Times(a: int, b: int, unit: nat)
    requires a <= b
    ensures a * unit <= b * unit && (a - 5) * unit == a * unit - 5 * unit && (b - 5) * unit == b * unit - 5 * unit
    ensures (a - 1) * unit == a * unit - unit
  {
  }

  lemma SkipThree(n: nat, k: nat, unit: nat)
    requires k + 3 < 13 && n < 4 * unit && Amount(k) == 9 * unit && Amount(k + 1) == 5 * unit && Amount(k + 2) == 4 * unit
    ensures Numeral(n, k) == Numeral(n, k + 3)
  {
    hide Numeral, Amount;
    NumeralSkips(n, k);
    NumeralSkips(n, k + 1);
    NumeralSkips(n, k + 2);
  }

  /** A numeral is its thousands and then its decimal digits, each in its own letters. */
  lemma NumeralByDigits(n: nat)
    ensures Numeral(n, 0) == Repeat("M", n / 1000) + (DigitNumeral("C", "D", "M", n / 100 % 10)
            + (DigitNumeral("X", "L", "C", n / 10 % 10) + DigitNumeral("I", "V", "X", n % 10)))
  {
    hide Numeral, Repeat, DigitNumeral, Amount, Symbol;
    AllDigitEntries();
    DecimalDigits(n);
    NumeralTakesAll(n, 0, 1000, "M", n / 1000, n % 1000);
    DigitIsSpelled(n % 1000, 1, 100, "C", "D", "M");
    DigitIsSpelled(n % 100, 5, 10, "X", "L", "C");
    DigitIsSpelled(n % 10, 9, 1, "I", "V", "X");
    NumeralEnds(0);
    assert DigitNumeral("I", "V", "X", n % 10) + "" == DigitNumeral("I", "V", "X", n % 10);
  }

  lemma DecimalDigits(n: nat)
    ensures n % 1000 == n - n / 1000 * 1000 < 1000
    ensures n % 1000 % 100 == n % 100 && n % 1000 / 100 == n / 100 % 10
    ensures n % 100 % 10 == n % 10 && n % 100 / 10 == n / 10 % 10
    ensures n % 10 / 1 == n % 10 && n % 10 % 1 == 0
  {
    DigitWithin(n, 1000, 100);
    DigitWithin(n, 100, 10);
    assert n == 1000 * (n / 1000) + n % 1000;
  }

  lemma DigitWithin(n: nat, high: nat, low: nat)
    requires low > 0 && high == 10 * low
    ensures n % high / low == n / low % 10 && n % high % low == n % low
  {
    var q, h := Divided(n, high);
    var u, t := Divided(h, low);
    Tenfold(q, u, low);
    if u >= 10 {
      Times(10, u, low);
    }
    OneQuotient(n, low, 10 * q + u, t);
    OneQuotient(10 * q + u, 10, q, u);
  }

  lemma Divided(n: nat, d: nat) returns (q: nat, r: nat)
    requires d > 0
    ensures q == n / d && r == n % d && n == q * d + r && r < d
  {
    q, r := n / d, n % d;
  }

  lemma Tenfold(q: nat, u: nat, low: nat)
    ensures q * (10 * low) + u * low == (10 * q + u) * low
  {
  }

  /** A quotient and remainder that fit are the quotient and the remainder. */
  lemma OneQuotient(n: nat, d: nat, q: nat, r: nat)
    requires d > 0 && n == q * d + r && r < d
    ensures n / d == q && n % d == r
  {
    DivLaw(n, d);
    var p := n / d;
    Apart(p, q, d);
    Apart(q, p, d);
  }

  lemma Apart(a: nat, b: nat, d: nat)
    ensures a < b ==> a * d + d <= b * d
    ensures a == b ==> a * d == b * d
  {
    if a < b {
      assert (a + 1) * d <= b * d;
    }
  }

  lemma AllDigitEntries()
    ensures Amount(0) == 1000 && Symbol(0) == "M"
    ensures Amount(1) == 900 && Amount(2) == 500 && Amount(3) == 400 && Amount(4) == 100
    ensures Symbol(1) == "C" + "M" && Symbol(2) == "D" && Symbol(3) == "C" + "D" && Symbol(4) == "C"
    ensures Amount(5) == 90 && Amount(6) == 50 && Amount(7) == 40 && Amount(8) == 10
    ensures Symbol(5) == "X" + "C" && Symbol(6) == "L" && Symbol(7) == "X" + "L" && Symbol(8) == "X"
    ensures Amount(9) == 9 && Amount(10) == 5 && Amount(11) == 4 && Amount(12) == 1
    ensures Symbol(9) == "I" + "X" && Symbol(10) == "V" && Symbol(11) == "I" + "V" && Symbol(12) == "I"
  {
  }

  lemma PrintedNumeralsAgree(n: nat)
    ensures var s := Numeral(n, 0);
            IsRoman(s) && ByNext(s) == n && ByHighest(s) == n && Agreeable(s) && RomanRun(s) == |s|
  {
    NumeralReadsBack(n, 0);
    ReadingsAgree(Numeral(n, 0));
  }
}
