/** Assigned decimals: JSON number tokens as exact values. */
module Decimals {
  import opened Options
  import opened Powers

  // A token denotes the rational m * 10^e.  Comparison and formatting work on the sign, the
  // significant digits and a logarithmic exponent, and never expand a power of ten; here they are
  // proved to say what the values say.

  // ---------------------------------------------------------------------------
  // Values
  // ---------------------------------------------------------------------------

  /** The rational m * 10^e. */
  datatype Decimal = Decimal(m: int, e: int)

  function Min(a: int, b: int): int {
    if a < b then a else b
  }

  /** x in units of 10^k. */
  function Scaled(x: Decimal, k: int): int
    requires k <= x.e
  {
    Shift(x.m, x.e - k)
  }

  /** The sign of x - y. */
  function Order(x: Decimal, y: Decimal): int {
    var k := Min(x.e, y.e);
    Sign(Scaled(x, k) - Scaled(y, k))
  }

  predicate SameValue(x: Decimal, y: Decimal) {
    Order(x, y) == 0
  }

  lemma OrderAt(x: Decimal, y: Decimal, k: int)
    requires k <= x.e && k <= y.e
    ensures Order(x, y) == Sign(Scaled(x, k) - Scaled(y, k))
  {
    var j := Min(x.e, y.e);
    ShiftAdd(x.m, x.e - j, j - k);
    ShiftAdd(y.m, y.e - j, j - k);
    ShiftOrder(Scaled(x, j), Scaled(y, j), j - k);
    ShiftOrder(Scaled(y, j), Scaled(x, j), j - k);
  }

  lemma OrderCongruent(x: Decimal, y: Decimal, u: Decimal, v: Decimal)
    requires SameValue(x, u) && SameValue(y, v)
    ensures Order(x, y) == Order(u, v)
  {
    var k := Min(Min(x.e, u.e), Min(y.e, v.e));
    OrderAt(x, u, k);
    OrderAt(y, v, k);
    OrderAt(x, y, k);
    OrderAt(u, v, k);
  }

  // ---------------------------------------------------------------------------
  // Tokens
  // ---------------------------------------------------------------------------

  datatype Exponent = Exponent(mark: char, sign: string, digits: string)

  datatype Token = Token(negative: bool, whole: string, fraction: Option<string>, exponent: Option<Exponent>)

  /** The castable spellings: leading zeros are allowed. */
  predicate Lexical(t: Token) {
    && t.whole != "" && AllDigits(t.whole)
    && (t.fraction.Some? ==> t.fraction.value != "" && AllDigits(t.fraction.value))
    && (t.exponent.Some? ==>
          var x := t.exponent.value;
          (x.mark == 'e' || x.mark == 'E') && (x.sign == "" || x.sign == "+" || x.sign == "-")
          && x.digits != "" && AllDigits(x.digits))
  }

  /** A JSON number: no leading zero before another digit. */
  predicate Strict(t: Token) {
    Lexical(t) && (t.whole == "0" || t.whole[0] != '0')
  }

  function FractionText(t: Token): string {
    if t.fraction.Some? then "." + t.fraction.value else ""
  }

  function ExponentText(t: Token): string {
    if t.exponent.Some? then [t.exponent.value.mark] + t.exponent.value.sign + t.exponent.value.digits else ""
  }

  function Spell(t: Token): string {
    (if t.negative then "-" else "") + t.whole + FractionText(t) + ExponentText(t)
  }

  /** The grammar of a JSON number, as a language. */
  ghost predicate Valid(s: string) {
    exists t :: Strict(t) && Spell(t) == s
  }

  function FractionOf(t: Token): string {
    if t.fraction.Some? then t.fraction.value else ""
  }

  function ExponentOf(t: Token): int
    requires Lexical(t)
  {
    if t.exponent.None? then 0
    else if t.exponent.value.sign == "-" then 0 - Val(t.exponent.value.digits)
    else Val(t.exponent.value.digits)
  }

  function Signed(negative: bool, n: nat): int {
    if negative then 0 - n else n
  }

  /** What a token means. */
  function Denote(t: Token): Decimal
    requires Lexical(t)
  {
    Decimal(Signed(t.negative, Val(t.whole + FractionOf(t))), ExponentOf(t) - |FractionOf(t)|)
  }

  // ---------------------------------------------------------------------------
  // `parts`
  // ---------------------------------------------------------------------------

  datatype Parts = Parts(negative: bool, coefficient: string, adjusted: int)

  function IndexOf(s: string, c: char): (i: nat)
    ensures i <= |s|
  {
    if s == "" || s[0] == c then 0 else 1 + IndexOf(s[1..], c)
  }

  function LowerChar(c: char): char {
    if 'A' <= c <= 'Z' then (c as int + 32) as char else c
  }

  function ToLower(s: string): (r: string)
    ensures |r| == |s| && forall i :: 0 <= i < |s| ==> r[i] == LowerChar(s[i])
  {
    if s == "" then "" else [LowerChar(s[0])] + ToLower(s[1..])
  }

  function TrimLeftZeros(s: string): string {
    if s != "" && s[0] == '0' then TrimLeftZeros(s[1..]) else s
  }

  function TrimRightZeros(s: string): string {
    if s != "" && s[|s| - 1] == '0' then TrimRightZeros(s[..|s| - 1]) else s
  }

  function TrimPrefix(s: string, c: char): string {
    if s != "" && s[0] == c then s[1..] else s
  }

  /** Decimal integers with an optional minus sign; zero for anything else. */
  function ParseInt(s: string): int {
    if s != "" && s[0] == '-' && AllDigits(s[1..]) then 0 - Val(s[1..])
    else if AllDigits(s) then Val(s)
    else 0
  }

  /** Digits around a decimal point: the digits without it, and how many follow it. */
  function SplitPoint(mantissa: string): (string, nat) {
    var point := IndexOf(mantissa, '.');
    if point < |mantissa| then (mantissa[..point] + mantissa[point + 1..], |mantissa| - point - 1) else (mantissa, 0)
  }

  /** The text before the exponent mark, and the exponent's value. */
  function SplitExponent(body: string): (string, int) {
    var e := IndexOf(body, 'e');
    (body[..e], if e < |body| then ParseInt(TrimPrefix(body[e + 1..], '+')) else 0)
  }

  function PartsOf(s: string): Parts {
    var negative := s != "" && s[0] == '-';
    var (mantissa, exponent) := SplitExponent(ToLower(TrimPrefix(s, '-')));
    var (head, fraction) := SplitPoint(mantissa);
    var digits := TrimLeftZeros(head);
    if digits == "" then Parts(false, "0", 0)
    else Parts(negative, TrimRightZeros(digits), exponent + |digits| - fraction - 1)
  }

  /** The same, read off the token. */
  function PartsOfToken(t: Token): Parts
    requires Lexical(t)
  {
    var digits := TrimLeftZeros(t.whole + FractionOf(t));
    if digits == "" then Parts(false, "0", 0)
    else Parts(t.negative, TrimRightZeros(digits), ExponentOf(t) + |digits| - |FractionOf(t)| - 1)
  }

  lemma {:induction false} IndexOfFirst(a: string, c: char, b: string)
    requires c !in a
    ensures IndexOf(a + [c] + b, c) == |a|
    ensures IndexOf(a, c) == |a|
  {
    if a != "" {
      assert (a + [c] + b)[1..] == a[1..] + [c] + b;
      IndexOfFirst(a[1..], c, b);
    }
  }

  /** Capitals from A to Z become small, and nothing else changes. */
  lemma LowerCase(c: char)
    ensures LowerChar('A') == 'a' && LowerChar('E') == 'e' && LowerChar('Z') == 'z'
    ensures LowerChar(c) != c ==> 'A' <= c <= 'Z' && LowerChar(c) as int - 'a' as int == c as int - 'A' as int
  {
  }

  lemma ToLowerConcat(a: string, b: string)
    ensures ToLower(a + b) == ToLower(a) + ToLower(b)
  {
  }

  lemma DigitsHold(s: string, c: char)
    requires AllDigits(s) && !IsDigit(c)
    ensures c !in s
  {
  }

  /** Sign and digits of the exponent. */
  function ExponentTail(t: Token): string
    requires t.exponent.Some?
  {
    t.exponent.value.sign + t.exponent.value.digits
  }

  lemma ExponentLower(t: Token)
    requires Lexical(t) && t.exponent.Some?
    ensures ToLower(ExponentText(t)) == ['e'] + ExponentTail(t)
  {
    assert ExponentText(t) == [t.exponent.value.mark] + ExponentTail(t);
  }

  lemma ExponentRead(t: Token)
    requires Lexical(t) && t.exponent.Some?
    ensures ParseInt(TrimPrefix(ExponentTail(t), '+')) == ExponentOf(t)
  {
    var x := t.exponent.value;
    if x.sign == "" {
      assert ExponentTail(t) == x.digits;
    } else {
      assert ExponentTail(t)[1..] == x.digits;
      assert !IsDigit(ExponentTail(t)[0]);
    }
  }

  lemma PointRead(t: Token)
    requires Lexical(t)
    ensures SplitPoint(t.whole + FractionText(t)) == (t.whole + FractionOf(t), |FractionOf(t)|)
  {
    DigitsHold(t.whole, '.');
    if t.fraction.Some? {
      IndexOfFirst(t.whole, '.', t.fraction.value);
      assert t.whole + FractionText(t) == t.whole + ['.'] + t.fraction.value;
    } else {
      assert t.whole + FractionText(t) == t.whole;
      IndexOfFirst(t.whole, '.', "");
    }
  }

  lemma HeadIsLower(t: Token)
    requires Lexical(t)
    ensures var head := t.whole + FractionText(t); ToLower(head) == head && 'e' !in head
  {
    var head := t.whole + FractionText(t);
    forall i | 0 <= i < |head|
      ensures IsDigit(head[i]) || head[i] == '.'
    {
    }
  }

  lemma SplitAtMark(head: string, rest: string)
    requires 'e' !in head
    ensures SplitExponent(head + (['e'] + rest)) == (head, ParseInt(TrimPrefix(rest, '+')))
    ensures SplitExponent(head) == (head, 0)
  {
    IndexOfFirst(head, 'e', rest);
    var body := head + (['e'] + rest);
    assert body == head + ['e'] + rest;
    assert body[|head| + 1..] == rest && body[..|head|] == head;
    assert head[..|head|] == head;
  }

  lemma BodyRead(t: Token)
    requires Lexical(t)
    ensures SplitExponent(ToLower(t.whole + FractionText(t) + ExponentText(t))) == (t.whole + FractionText(t), ExponentOf(t))
  {
    var head := t.whole + FractionText(t);
    HeadIsLower(t);
    ToLowerConcat(head, ExponentText(t));
    if t.exponent.Some? {
      ExponentLower(t);
      ExponentRead(t);
      SplitAtMark(head, ExponentTail(t));
    } else {
      SplitAtMark(head, "");
      assert head + "" == head;
    }
  }

  lemma SignRead(t: Token)
    requires Lexical(t)
    ensures Spell(t) != "" && (Spell(t)[0] == '-' <==> t.negative)
    ensures TrimPrefix(Spell(t), '-') == t.whole + FractionText(t) + ExponentText(t)
  {
    hide FractionText, ExponentText;
    var s, body := Spell(t), t.whole + FractionText(t) + ExponentText(t);
    assert s == (if t.negative then "-" + body else body);
    assert body[0] == t.whole[0];
    assert t.negative ==> s[1..] == body;
  }

  /** `parts` on a token's spelling finds the token's fields. */
  lemma PartsOfSpelling(t: Token)
    requires Lexical(t)
    ensures PartsOf(Spell(t)) == PartsOfToken(t)
  {
    hide Lexical, Spell, TrimPrefix, FractionText, ExponentText, FractionOf, ExponentOf;
    hide SplitExponent, SplitPoint, ToLower, TrimLeftZeros, TrimRightZeros;
    SignRead(t);
    BodyRead(t);
    PointRead(t);
  }

  // ---------------------------------------------------------------------------
  // What the parts mean
  // ---------------------------------------------------------------------------

  /** Significant digits only; zero has one spelling. */
  predicate Normal(p: Parts) {
    && p.coefficient != "" && AllDigits(p.coefficient)
    && if p.coefficient == "0" then !p.negative && p.adjusted == 0
       else p.coefficient[0] != '0' && p.coefficient[|p.coefficient| - 1] != '0'
  }

  /** d1.d2d3... * 10^adjusted */
  function ValueOf(p: Parts): Decimal
    requires Normal(p)
  {
    Decimal(Signed(p.negative, Val(p.coefficient)), p.adjusted - (|p.coefficient| - 1))
  }

  lemma {:induction false} TrimLeftKeeps(s: string)
    requires AllDigits(s)
    ensures var r := TrimLeftZeros(s); AllDigits(r) && Val(r) == Val(s) && |r| <= |s| && (r == "" || r[0] != '0')
  {
    if s != "" && s[0] == '0' {
      TrimLeftKeeps(s[1..]);
      assert s == "0" + s[1..];
      ValAppend("0", s[1..]);
      ShiftLinear(0, 0, |s| - 1);
      assert Val("0") == 0 by {
        assert "0"[..0] == "";
      }
    }
  }

  lemma {:induction false} TrimRightKeeps(s: string)
    requires AllDigits(s) && s != "" && s[0] != '0'
    ensures var r := TrimRightZeros(s);
            && r != "" && |r| <= |s| && AllDigits(r) && r[0] == s[0] && r[|r| - 1] != '0'
            && Val(s) == Shift(Val(r), |s| - |r|)
  {
    if s[|s| - 1] == '0' {
      var c := s[..|s| - 1];
      TrimRightKeeps(c);
    }
  }

  lemma SameScaled(m: int, n: int, e: int, z: nat)
    requires m == Shift(n, z)
    ensures SameValue(Decimal(m, e), Decimal(n, e + z))
  {
    assert Scaled(Decimal(m, e), e) == Shift(m, 0) == m;
    assert Scaled(Decimal(n, e + z), e) == Shift(n, z);
  }

  lemma ZeroValue(x: Decimal)
    requires x.m == 0
    ensures SameValue(x, Decimal(0, 0))
  {
    ShiftLinear(0, 0, x.e - Min(x.e, 0));
    ShiftLinear(0, 0, 0 - Min(x.e, 0));
  }

  lemma ZeroDigit()
    ensures Val("0") == 0
  {
    assert "0"[..0] == "";
  }

  lemma SignificantDigits(head: string)
    requires AllDigits(head) && TrimLeftZeros(head) != ""
    ensures var digits := TrimLeftZeros(head);
            var c := TrimRightZeros(digits);
            && c != "" && AllDigits(c) && |c| <= |digits| && c != "0" && c[0] != '0' && c[|c| - 1] != '0'
            && Val(head) == Shift(Val(c), |digits| - |c|)
  {
    TrimLeftKeeps(head);
    TrimRightKeeps(TrimLeftZeros(head));
    assert "0"[0] == '0';
  }

  lemma NothingIsZero()
    ensures Val("") == 0
  {
  }

  /** `parts` keeps the value, and is a normal form of it. */
  lemma PartsKeepValue(t: Token)
    requires Lexical(t)
    ensures Normal(PartsOfToken(t)) && SameValue(Denote(t), ValueOf(PartsOfToken(t)))
  {
    hide Val, Shift, TrimLeftZeros, TrimRightZeros;
    var head := t.whole + FractionOf(t);
    TrimLeftKeeps(head);
    var digits := TrimLeftZeros(head);
    if digits == "" {
      ZeroDigit();
      NothingIsZero();
      ZeroValue(Denote(t));
    } else {
      SignificantDigits(head);
      var c := TrimRightZeros(digits);
      ShiftLinear(Val(c), 0, |digits| - |c|);
      SameScaled(Denote(t).m, Signed(t.negative, Val(c)), Denote(t).e, |digits| - |c|);
    }
  }

  // ---------------------------------------------------------------------------
  // Comparison
  // ---------------------------------------------------------------------------

  function DigitAt(c: string, i: nat): char {
    if i < |c| then c[i] else '0'
  }

  function Longest(a: string, b: string): nat {
    if |a| < |b| then |b| else |a|
  }

  /** The first difference from digit `i` on, the shorter string padded with zeros. */
  function CompareDigits(a: string, b: string, i: nat): int
    requires i <= Longest(a, b)
    decreases Longest(a, b) - i
  {
    if i == Longest(a, b) then 0
    else if DigitAt(a, i) < DigitAt(b, i) then -1
    else if DigitAt(a, i) > DigitAt(b, i) then 1
    else CompareDigits(a, b, i + 1)
  }

  function CompareParts(x: Parts, y: Parts): int {
    if x.coefficient == "0" && y.coefficient == "0" then 0
    else if x.negative != y.negative then (if x.negative then -1 else 1)
    else
      var order :=
        if x.coefficient == "0" then -1
        else if y.coefficient == "0" then 1
        else if x.adjusted != y.adjusted then Sign(x.adjusted - y.adjusted)
        else CompareDigits(x.coefficient, y.coefficient, 0);
      if x.negative then -order else order
  }

  /** The comparison as it runs. */
  method CompareText(a: string, b: string) returns (order: int)
    ensures order == CompareParts(PartsOf(a), PartsOf(b))
  {
    var x, y := PartsOf(a), PartsOf(b);
    if x.coefficient == "0" && y.coefficient == "0" {
      return 0;
    }
    if x.negative != y.negative {
      return if x.negative then -1 else 1;
    }
    if x.coefficient == "0" {
      order := -1;
    } else if y.coefficient == "0" {
      order := 1;
    } else {
      order := Sign(x.adjusted - y.adjusted);
      if order == 0 {
        var n := Longest(x.coefficient, y.coefficient);
        var i := 0;
        while i < n
          invariant 0 <= i <= n && order == 0
          invariant CompareDigits(x.coefficient, y.coefficient, 0) == CompareDigits(x.coefficient, y.coefficient, i)
        {
          var p, q := DigitAt(x.coefficient, i), DigitAt(y.coefficient, i);
          if p < q {
            order := -1;
            break;
          }
          if p > q {
            order := 1;
            break;
          }
          i := i + 1;
        }
      }
    }
    if x.negative {
      order := -order;
    }
  }

  function Padded(s: string, n: nat): (r: string)
    requires AllDigits(s) && |s| <= n
    ensures AllDigits(r) && |r| == n && forall i :: 0 <= i < n ==> r[i] == DigitAt(s, i)
  {
    s + Zeros(n - |s|)
  }

  /** Digits padded to a common length compare as the numbers they spell. */
  lemma {:induction false} DigitsCompare(a: string, b: string, i: nat, p: string, q: string)
    requires AllDigits(a) && AllDigits(b) && i <= Longest(a, b)
    requires p == Padded(a, Longest(a, b)) && q == Padded(b, Longest(a, b)) && p[..i] == q[..i]
    ensures CompareDigits(a, b, i) == Sign(Val(p) - Val(q))
    decreases Longest(a, b) - i
  {
    if i == Longest(a, b) {
      assert p == p[..i] && q == q[..i];
    } else if p[i] < q[i] {
      ValLexicographic(p, q, i);
    } else if p[i] > q[i] {
      ValLexicographic(q, p, i);
    } else {
      assert p[..i + 1] == p[..i] + [p[i]] && q[..i + 1] == q[..i] + [q[i]];
      DigitsCompare(a, b, i + 1, p, q);
    }
  }

  /** The magnitude of a non-zero number lies between consecutive powers of ten. */
  lemma MagnitudeBounds(c: string, adjusted: int, k: int)
    requires c != "" && AllDigits(c) && c[0] != '0' && k <= adjusted - (|c| - 1)
    ensures Shift(1, adjusted - k) <= Shift(Val(c), adjusted - (|c| - 1) - k) < Shift(1, adjusted - k + 1)
  {
    ValLower(c);
    var z: nat := adjusted - (|c| - 1) - k;
    ShiftAdd(1, |c| - 1, z);
    ShiftAdd(1, |c|, z);
    ShiftOrder(Val(c), Shift(1, |c| - 1), z);
    ShiftOrder(Val(c), Shift(1, |c|), z);
  }

  lemma MagnitudesByExponent(c: string, ca: int, d: string, da: int, k: int)
    requires c != "" && AllDigits(c) && c[0] != '0' && d != "" && AllDigits(d) && d[0] != '0'
    requires k <= ca - (|c| - 1) && k <= da - (|d| - 1) && ca < da
    ensures Shift(Val(c), ca - (|c| - 1) - k) < Shift(Val(d), da - (|d| - 1) - k)
  {
    MagnitudeBounds(c, ca, k);
    MagnitudeBounds(d, da, k);
    ShiftGrows(1, ca - k + 1, da - k);
  }

  lemma MagnitudesByDigits(c: string, d: string, r: nat)
    requires c != "" && AllDigits(c) && d != "" && AllDigits(d)
    ensures var n := Longest(c, d);
            Sign(Shift(Val(c), n - |c| + r) - Shift(Val(d), n - |d| + r)) == CompareDigits(c, d, 0)
  {
    var n := Longest(c, d);
    ShiftAdd(Val(c), n - |c|, r);
    ShiftAdd(Val(d), n - |d|, r);
    ValPadRight(c, n - |c|);
    ValPadRight(d, n - |d|);
    ShiftOrder(Val(Padded(c, n)), Val(Padded(d, n)), r);
    DigitsCompare(c, d, 0, Padded(c, n), Padded(d, n));
  }

  /** Two non-zero magnitudes, compared by exponent first and digits second. */
  lemma MagnitudesCompare(c: string, ca: int, d: string, da: int, k: int)
    requires c != "" && AllDigits(c) && c[0] != '0' && d != "" && AllDigits(d) && d[0] != '0'
    requires k <= ca - (|c| - 1) && k <= da - (|d| - 1)
    ensures Sign(Shift(Val(c), ca - (|c| - 1) - k) - Shift(Val(d), da - (|d| - 1) - k))
            == if ca != da then Sign(ca - da) else CompareDigits(c, d, 0)
  {
    if ca < da {
      MagnitudesByExponent(c, ca, d, da, k);
    } else if da < ca {
      MagnitudesByExponent(d, da, c, ca, k);
    } else {
      var n := Longest(c, d);
      var r: nat := ca - (n - 1) - k;
      MagnitudesByDigits(c, d, r);
      assert ca - (|c| - 1) - k == n - |c| + r && da - (|d| - 1) - k == n - |d| + r;
    }
  }

  /** On normal forms the comparison is the sign of the difference. */
  lemma ComparePartsIsOrder(x: Parts, y: Parts)
    requires Normal(x) && Normal(y)
    ensures CompareParts(x, y) == Order(ValueOf(x), ValueOf(y))
  {
    hide Val, Shift;
    var u, v := ValueOf(x), ValueOf(y);
    var k := Min(u.e, v.e);
    var p, q := Shift(Val(x.coefficient), u.e - k), Shift(Val(y.coefficient), v.e - k);
    ShiftLinear(Val(x.coefficient), 0, u.e - k);
    ShiftLinear(Val(y.coefficient), 0, v.e - k);
    MagnitudeSign(x, u.e - k);
    MagnitudeSign(y, v.e - k);
    assert Scaled(u, k) == Signed(x.negative, p) && Scaled(v, k) == Signed(y.negative, q);
    if x.coefficient != "0" && y.coefficient != "0" {
      MagnitudesCompare(x.coefficient, x.adjusted, y.coefficient, y.adjusted, k);
    }
  }

  lemma MagnitudeSign(x: Parts, k: nat)
    requires Normal(x)
    ensures Shift(Val(x.coefficient), k) >= 0
    ensures Shift(Val(x.coefficient), k) == 0 <==> x.coefficient == "0"
  {
    ZeroDigit();
    ShiftLinear(0, 0, k);
    ShiftOrder(0, Val(x.coefficient), k);
    if x.coefficient != "0" {
      ValLower(x.coefficient);
      ShiftGrows(1, 0, |x.coefficient| - 1);
    }
  }

  /** Comparing two tokens gives the sign of the difference of their values, whatever their exponents. */
  lemma CompareTextIsExact(a: Token, b: Token)
    requires Lexical(a) && Lexical(b)
    ensures CompareParts(PartsOf(Spell(a)), PartsOf(Spell(b))) == Order(Denote(a), Denote(b))
  {
    PartsOfSpelling(a);
    PartsOfSpelling(b);
    PartsKeepValue(a);
    PartsKeepValue(b);
    var x, y := PartsOfToken(a), PartsOfToken(b);
    ComparePartsIsOrder(x, y);
    OrderCongruent(Denote(a), Denote(b), ValueOf(x), ValueOf(y));
  }

  /** A value has one normal form. */
  lemma NormalFormIsUnique(x: Parts, y: Parts)
    requires Normal(x) && Normal(y)
    ensures SameValue(ValueOf(x), ValueOf(y)) <==> x == y
  {
    ComparePartsIsOrder(x, y);
    ComparePartsIsOrder(x, x);
    if CompareParts(x, y) == 0 && x.coefficient != "0" && y.coefficient != "0" {
      EqualDigits(x.coefficient, y.coefficient, 0);
    }
    if x == y && x.coefficient != "0" {
      SelfCompare(x.coefficient, 0);
    }
  }

  lemma {:induction false} SelfCompare(a: string, i: nat)
    requires i <= |a|
    ensures CompareDigits(a, a, i) == 0
    decreases |a| - i
  {
    if i < |a| {
      SelfCompare(a, i + 1);
    }
  }

  lemma {:induction false} EqualDigits(a: string, b: string, i: nat)
    requires a != "" && b != "" && a[|a| - 1] != '0' && b[|b| - 1] != '0' && AllDigits(a) && AllDigits(b)
    requires i <= Longest(a, b) && CompareDigits(a, b, i) == 0
    requires forall j :: 0 <= j < i ==> DigitAt(a, j) == DigitAt(b, j)
    ensures a == b
    decreases Longest(a, b) - i
  {
    if i == Longest(a, b) {
      assert DigitAt(a, |a| - 1) == DigitAt(b, |a| - 1);
      assert DigitAt(b, |b| - 1) == DigitAt(a, |b| - 1);
      assert |a| == |b|;
      assert forall j :: 0 <= j < |a| ==> a[j] == DigitAt(a, j) == DigitAt(b, j) == b[j];
    } else {
      EqualDigits(a, b, i + 1);
    }
  }

  // ---------------------------------------------------------------------------
  // Formatting
  // ---------------------------------------------------------------------------

  function IntText(e: int): string {
    if e < 0 then "-" + Spelling(-e) else Spelling(e)
  }

  /** Decimal notation, the point after `point` digits. */
  function Positional(c: string, point: int): string {
    if point <= 0 then "0." + Zeros(-point) + c
    else if point >= |c| then c + Zeros(point - |c|)
    else c[..point] + "." + c[point..]
  }

  function ExponentPart(e: int): string {
    "e" + (if e >= 0 then "+" else "") + IntText(e)
  }

  function Scientific(c: string, e: int): string
    requires c != ""
  {
    c[..1] + (if |c| > 1 then "." + c[1..] else "") + ExponentPart(e)
  }

  function FormatParts(p: Parts): string {
    if p.coefficient == "0" || p.coefficient == "" then "0"
    else (if p.negative then "-" else "")
         + if -6 <= p.adjusted < 21 then Positional(p.coefficient, p.adjusted + 1) else Scientific(p.coefficient, p.adjusted)
  }

  function Format(s: string): string {
    FormatParts(PartsOf(s))
  }

  function PositionalToken(negative: bool, c: string, point: int): Token {
    if point <= 0 then Token(negative, "0", Some(Zeros(-point) + c), None)
    else if point >= |c| then Token(negative, c + Zeros(point - |c|), None, None)
    else Token(negative, c[..point], Some(c[point..]), None)
  }

  function ScientificToken(negative: bool, c: string, e: int): Token
    requires c != ""
  {
    Token(negative, c[..1], if |c| > 1 then Some(c[1..]) else None,
          Some(if e < 0 then Exponent('e', "-", Spelling(-e)) else Exponent('e', "+", Spelling(e))))
  }

  /** The token that `Format` spells. */
  function FormatToken(p: Parts): Token
    requires p.coefficient != ""
  {
    if p.coefficient == "0" then Token(false, "0", None, None)
    else if -6 <= p.adjusted < 21 then PositionalToken(p.negative, p.coefficient, p.adjusted + 1)
    else ScientificToken(p.negative, p.coefficient, p.adjusted)
  }

  lemma {:induction false} TrimLeftPadded(n: nat, c: string)
    requires c != "" && c[0] != '0'
    ensures TrimLeftZeros(Zeros(n) + c) == c
    ensures TrimLeftZeros("0" + (Zeros(n) + c)) == c
  {
    assert ("0" + (Zeros(n) + c))[1..] == Zeros(n) + c;
    if n > 0 {
      TrimLeftPadded(n - 1, c);
      assert Zeros(n) == "0" + Zeros(n - 1);
      assert (Zeros(n) + c)[1..] == Zeros(n - 1) + c;
    } else {
      assert Zeros(0) + c == c;
    }
  }

  lemma {:induction false} TrimRightPadded(c: string, n: nat)
    requires c != "" && c[|c| - 1] != '0'
    ensures TrimRightZeros(c + Zeros(n)) == c
  {
    if n > 0 {
      TrimRightPadded(c, n - 1);
      assert (c + Zeros(n))[..|c| + n - 1] == c + Zeros(n - 1);
    } else {
      assert c + Zeros(0) == c;
    }
  }

  lemma SignApart(t: Token)
    ensures Spell(t) == (if t.negative then "-" else "") + (t.whole + FractionText(t) + ExponentText(t))
  {
  }

  lemma PositionalIsSpelled(negative: bool, c: string, point: int)
    ensures Spell(PositionalToken(negative, c, point)) == (if negative then "-" else "") + Positional(c, point)
  {
    hide Spell, Zeros;
    var t := PositionalToken(negative, c, point);
    SignApart(t);
    if point <= 0 {
      assert "0" + ("." + (Zeros(-point) + c)) + "" == "0." + Zeros(-point) + c;
    } else if point >= |c| {
      assert c + Zeros(point - |c|) + "" + "" == c + Zeros(point - |c|);
    } else {
      assert c[..point] + ("." + c[point..]) + "" == c[..point] + "." + c[point..];
    }
  }

  lemma ExponentIsSpelled(t: Token, e: int)
    requires t.exponent == Some(if e < 0 then Exponent('e', "-", Spelling(-e)) else Exponent('e', "+", Spelling(e)))
    ensures ExponentText(t) == ExponentPart(e)
  {
  }

  lemma ScientificIsSpelled(negative: bool, c: string, e: int)
    requires c != ""
    ensures Spell(ScientificToken(negative, c, e)) == (if negative then "-" else "") + Scientific(c, e)
  {
    var t := ScientificToken(negative, c, e);
    SignApart(t);
    ExponentIsSpelled(t, e);
  }

  lemma ZeroIsSpelled()
    ensures Spell(Token(false, "0", None, None)) == "0"
  {
  }

  /** The two notations, given that each is spelled. */
  lemma FormatByNotation(p: Parts)
    requires Normal(p) && p.coefficient != "0"
    ensures -6 <= p.adjusted < 21 ==>
      && FormatToken(p) == PositionalToken(p.negative, p.coefficient, p.adjusted + 1)
      && FormatParts(p) == (if p.negative then "-" else "") + Positional(p.coefficient, p.adjusted + 1)
    ensures !(-6 <= p.adjusted < 21) ==>
      && FormatToken(p) == ScientificToken(p.negative, p.coefficient, p.adjusted)
      && FormatParts(p) == (if p.negative then "-" else "") + Scientific(p.coefficient, p.adjusted)
  {
  }

  lemma FormatIsSpelled(p: Parts)
    requires Normal(p)
    ensures Spell(FormatToken(p)) == FormatParts(p)
  {
    assert p.coefficient != "";
    hide Spell, Normal, Positional, Scientific, PositionalToken, ScientificToken;
    if p.coefficient == "0" {
      ZeroIsSpelled();
    } else {
      hide FormatToken, FormatParts;
      FormatByNotation(p);
      if -6 <= p.adjusted < 21 {
        PositionalIsSpelled(p.negative, p.coefficient, p.adjusted + 1);
      } else {
        ScientificIsSpelled(p.negative, p.coefficient, p.adjusted);
      }
    }
  }

  predicate Significant(c: string) {
    c != "" && AllDigits(c) && c[0] != '0' && c[|c| - 1] != '0'
  }

  lemma TrimApart(c: string)
    requires c != "" && c[0] != '0'
    ensures TrimLeftZeros(c) == c
    ensures c[|c| - 1] != '0' ==> TrimRightZeros(c) == c
  {
  }

  lemma PositionalKeepsParts(negative: bool, c: string, point: int)
    requires Significant(c)
    ensures Strict(PositionalToken(negative, c, point))
    ensures PartsOfToken(PositionalToken(negative, c, point)) == Parts(negative, c, point - 1)
  {
    hide Zeros, TrimLeftZeros, TrimRightZeros;
    var t := PositionalToken(negative, c, point);
    TrimApart(c);
    if point <= 0 {
      TrimLeftPadded(-point, c);
    } else if point >= |c| {
      assert t.whole + FractionOf(t) == c + Zeros(point - |c|);
      TrimApart(c + Zeros(point - |c|));
      TrimRightPadded(c, point - |c|);
    } else {
      assert t.whole + FractionOf(t) == c;
    }
  }

  lemma ScientificKeepsParts(negative: bool, c: string, e: int)
    requires Significant(c)
    ensures Strict(ScientificToken(negative, c, e))
    ensures PartsOfToken(ScientificToken(negative, c, e)) == Parts(negative, c, e)
  {
    var t := ScientificToken(negative, c, e);
    TrimApart(c);
    assert t.whole + FractionOf(t) == c;
    SpellingValue(if e < 0 then -e else e);
  }

  lemma ZeroKeepsParts()
    ensures Strict(Token(false, "0", None, None)) && PartsOfToken(Token(false, "0", None, None)) == Parts(false, "0", 0)
  {
    var t := Token(false, "0", None, None);
    assert t.whole + FractionOf(t) == "0" && "0"[1..] == "";
  }

  /** Reading the formatted token back gives the same parts. */
  lemma FormatKeepsParts(p: Parts)
    requires Normal(p)
    ensures Strict(FormatToken(p)) && PartsOfToken(FormatToken(p)) == p
  {
    assert p.coefficient != "0" ==> Significant(p.coefficient);
    hide Significant, Strict, PartsOfToken, PositionalToken, ScientificToken;
    if p.coefficient == "0" {
      ZeroKeepsParts();
    } else if -6 <= p.adjusted < 21 {
      PositionalKeepsParts(p.negative, p.coefficient, p.adjusted + 1);
    } else {
      ScientificKeepsParts(p.negative, p.coefficient, p.adjusted);
    }
  }

  /**
   `Format` is a canonical spelling: valid JSON, of the same value, and the same for two tokens
   exactly when they compare equal.
   */
  lemma FormatIsCanonical(a: Token, b: Token)
    requires Lexical(a) && Lexical(b)
    ensures Valid(Format(Spell(a)))
    ensures PartsOf(Format(Spell(a))) == PartsOf(Spell(a))
    ensures CompareParts(PartsOf(Format(Spell(a))), PartsOf(Spell(a))) == 0
    ensures Format(Spell(a)) == Format(Spell(b)) <==> CompareParts(PartsOf(Spell(a)), PartsOf(Spell(b))) == 0
  {
    PartsKeepValue(a);
    PartsKeepValue(b);
    PartsOfSpelling(a);
    PartsOfSpelling(b);
    var x, y := PartsOfToken(a), PartsOfToken(b);
    FormatIsSpelled(x);
    FormatIsSpelled(y);
    FormatKeepsParts(x);
    FormatKeepsParts(y);
    PartsOfSpelling(FormatToken(x));
    PartsOfSpelling(FormatToken(y));
    ComparePartsIsOrder(x, x);
    ComparePartsIsOrder(x, y);
    NormalFormIsUnique(x, y);
    NormalFormIsUnique(x, x);
  }

  // ---------------------------------------------------------------------------
  // Integrality, truncation and indexing
  // ---------------------------------------------------------------------------

  /** n / 10^k rounded down. */
  function Drop(n: int, k: nat): int
    decreases k
  {
    if k == 0 then n else Drop(n / 10, k - 1)
  }

  /** The greatest integer not above x. */
  function Floor(x: Decimal): int {
    if x.e >= 0 then Shift(x.m, x.e) else Drop(x.m, -x.e)
  }

  lemma {:induction false} DropOrder(m: int, k: nat, n: int)
    ensures Drop(m, k) < n <==> m < Shift(n, k)
    decreases k
  {
    if k > 0 {
      DropOrder(m / 10, k - 1, n);
    }
  }

  lemma FloorOrder(x: Decimal, n: int)
    ensures Order(x, Decimal(n, 0)) < 0 <==> Floor(x) < n
  {
    if x.e < 0 {
      DropOrder(x.m, -x.e, n);
    }
  }

  lemma FloorCongruent(x: Decimal, y: Decimal)
    requires SameValue(x, y)
    ensures Floor(x) == Floor(y)
  {
    var a, b := Floor(x), Floor(y);
    forall n
      ensures Order(x, Decimal(n, 0)) == Order(y, Decimal(n, 0))
    {
      OrderAt(Decimal(n, 0), Decimal(n, 0), 0);
      OrderCongruent(x, Decimal(n, 0), y, Decimal(n, 0));
    }
    FloorOrder(x, a + 1);
    FloorOrder(y, a + 1);
    FloorOrder(x, b + 1);
    FloorOrder(y, b + 1);
  }

  predicate IsInteger(s: string) {
    var p := PartsOf(s);
    p.coefficient == "0" || p.adjusted >= |p.coefficient| - 1
  }

  lemma {:induction false} ShiftIsMultiple(n: int, k: nat)
    requires k > 0
    ensures Shift(n, k) % 10 == 0
  {
  }

  lemma LastDigit(c: string)
    requires Significant(c)
    ensures Val(c) % 10 != 0
  {
  }

  lemma WholeValue(p: Parts)
    requires Normal(p) && (p.coefficient == "0" || p.adjusted >= |p.coefficient| - 1)
    ensures SameValue(ValueOf(p), Decimal(Floor(ValueOf(p)), 0))
  {
    if p.coefficient == "0" {
      ZeroDigit();
    }
  }

  lemma FractionalValue(p: Parts, n: int)
    requires Normal(p) && p.coefficient != "0" && p.adjusted < |p.coefficient| - 1
    ensures !SameValue(ValueOf(p), Decimal(n, 0))
  {
    var v := ValueOf(p);
    LastDigit(p.coefficient);
    ShiftIsMultiple(n, -v.e);
    assert Scaled(v, v.e) == v.m;
  }

  lemma SameAsInteger(x: Decimal, y: Decimal, n: int)
    requires SameValue(x, y)
    ensures SameValue(x, Decimal(n, 0)) <==> SameValue(y, Decimal(n, 0))
  {
    OrderAt(Decimal(n, 0), Decimal(n, 0), 0);
    OrderCongruent(x, Decimal(n, 0), y, Decimal(n, 0));
  }

  /** The test on digits and exponent decides whether the value is an integer. */
  lemma IsIntegerIsExact(t: Token)
    requires Lexical(t)
    ensures IsInteger(Spell(t)) <==> exists n :: SameValue(Denote(t), Decimal(n, 0))
  {
    PartsOfSpelling(t);
    PartsKeepValue(t);
    var p := PartsOfToken(t);
    if IsInteger(Spell(t)) {
      WholeValue(p);
      SameAsInteger(Denote(t), ValueOf(p), Floor(ValueOf(p)));
    } else {
      forall n
        ensures !SameValue(Denote(t), Decimal(n, 0))
      {
        FractionalValue(p, n);
        SameAsInteger(Denote(t), ValueOf(p), n);
      }
    }
  }

  const MAX_INT64: int := 0x7fff_ffff_ffff_ffff
  const MIN_INT64: int := -0x8000_0000_0000_0000

  /** The digits before the decimal point. */
  function IntegerDigits(p: Parts): (c: string)
    requires p.adjusted >= 0
  {
    var point := p.adjusted + 1;
    if point < |p.coefficient| then p.coefficient[..point] else p.coefficient + Zeros(point - |p.coefficient|)
  }

  function TruncInt64(p: Parts): Option<int>
    requires Normal(p)
  {
    if p.adjusted < 0 || p.coefficient == "0" then Some(0)
    else if p.adjusted > 18 then None
    else
      var i := Signed(p.negative, Val(IntegerDigits(p)));
      if MIN_INT64 <= i <= MAX_INT64 then Some(i) else None
  }

  /** The comparison of a value with a native integer, through the integer's decimal image. */
  function CompareInt(p: Parts, n: int): int {
    CompareParts(p, PartsOf(IntText(n)))
  }

  /** Flooring, given how the value compares with native integers. */
  function FloorInt64(p: Parts, compare: int -> int): Option<int>
    requires Normal(p)
  {
    var i := TruncInt64(p);
    if i.None? then None
    else if compare(i.value) < 0 then (if i.value == MIN_INT64 then None else Some(i.value - 1))
    else i
  }

  /** `Index` of the Go engine. */
  function GoIndex(p: Parts, length: nat, compare: int -> int): Option<int>
    requires Normal(p)
  {
    var i := FloorInt64(p, compare);
    if i.None? then None
    else
      var k := if i.value < 0 then i.value + length else i.value;
      if k < 0 || k >= length then None else Some(k)
  }

  /** `index` of the JavaScript engine. */
  function JsIndex(p: Parts, length: nat, compare: int -> int): Option<int>
    requires Normal(p)
  {
    if compare(0 - length) < 0 || compare(length) >= 0 then None
    else
      var integer := if p.adjusted >= 0 then Signed(p.negative, Val(IntegerDigits(p))) else 0;
      var floored := if compare(integer) < 0 then integer - 1 else integer;
      var k := if floored < 0 then floored + length else floored;
      if 0 <= k < length then Some(k) else None
  }

  /** The comparison the engines index with: of the value's token and the integer's decimal image. */
  function Comparison(p: Parts): int -> int {
    (n: int) => CompareInt(p, n)
  }

  /** What indexing by an exact number means: floor, and count negative positions from the end. */
  function IndexAt(floor: int, length: nat): Option<int> {
    var k := if floor < 0 then floor + length else floor;
    if 0 <= k < length then Some(k) else None
  }

  lemma IntTextIsSpelled(n: int)
    ensures var t := Token(n < 0, Spelling(if n < 0 then -n else n), None, None);
            Lexical(t) && Spell(t) == IntText(n) && Denote(t) == Decimal(n, 0)
  {
    var m := if n < 0 then -n else n;
    SpellingValue(m);
    assert Spelling(m) + "" == Spelling(m);
  }

  lemma CompareIntIsOrder(p: Parts, n: int)
    requires Normal(p)
    ensures CompareInt(p, n) == Order(ValueOf(p), Decimal(n, 0))
  {
    IntTextIsSpelled(n);
    var t := Token(n < 0, Spelling(if n < 0 then -n else n), None, None);
    PartsOfSpelling(t);
    PartsKeepValue(t);
    var q := PartsOfToken(t);
    ComparePartsIsOrder(p, q);
    ComparePartsIsOrder(p, p);
    NormalFormIsUnique(p, p);
    OrderCongruent(ValueOf(p), Decimal(n, 0), ValueOf(p), ValueOf(q));
  }

  lemma {:induction false} DropVal(s: string, k: nat)
    requires AllDigits(s) && k <= |s|
    ensures Drop(Val(s), k) == Val(s[..|s| - k])
  {
    if k > 0 {
      var r := s[..|s| - 1];
      assert Val(s) / 10 == Val(r);
      DropVal(r, k - 1);
      assert r[..|r| - (k - 1)] == s[..|s| - k];
    } else {
      assert s[..|s|] == s;
    }
  }

  lemma {:induction false} DropNegative(n: int, v: nat, k: nat)
    requires n == 0 - v || n == 0 - v - 1
    ensures Drop(n, k) == 0 - Drop(v, k) || Drop(n, k) == 0 - Drop(v, k) - 1
    decreases k
  {
    if k > 0 {
      DropNegative(n / 10, v / 10, k - 1);
    }
  }

  lemma {:induction false} DropSmall(v: nat, k: nat)
    requires v < Shift(1, k)
    ensures Drop(v, k) == 0
  {
    if k > 0 {
      DropSmall(v / 10, k - 1);
    }
  }

  /** Digits before the point: the floor of a magnitude. */
  lemma IntegerPart(p: Parts)
    requires Normal(p) && p.coefficient != "0"
    ensures var v := ValueOf(p.(negative := false));
            Floor(v) == if p.adjusted >= 0 then Val(IntegerDigits(p)) else 0
  {
    var c := p.coefficient;
    var e := p.adjusted - (|c| - 1);
    if e >= 0 {
      ValPadRight(c, e);
    } else if p.adjusted >= 0 {
      DropVal(c, -e);
    } else {
      ValBound(c);
      ShiftGrows(1, |c|, -e);
      DropSmall(Val(c), -e);
    }
  }

  /** Truncation is the floor, or one more for a negative value. */
  lemma TruncationIsNear(p: Parts)
    requires Normal(p) && p.coefficient != "0"
    ensures var i := if p.adjusted >= 0 then Signed(p.negative, Val(IntegerDigits(p))) else 0;
            var f := Floor(ValueOf(p));
            f == i || (p.negative && f == i - 1)
  {
    IntegerPart(p);
    if p.negative {
      var e := p.adjusted - (|p.coefficient| - 1);
      if e >= 0 {
        ShiftLinear(Val(p.coefficient), 0, e);
      } else {
        DropNegative(0 - Val(p.coefficient), Val(p.coefficient), -e);
      }
    }
  }

  lemma LargeMagnitude(p: Parts)
    requires Normal(p) && p.coefficient != "0" && p.adjusted > 18
    ensures if p.negative then Floor(ValueOf(p)) < MIN_INT64 else Floor(ValueOf(p)) > MAX_INT64
  {
    TruncationIsNear(p);
    var digits := IntegerDigits(p);
    assert digits[0] == p.coefficient[0];
    ValLower(digits);
    ShiftGrows(1, 19, p.adjusted);
    assert Shift(1, 19) == 10000000000000000000 by {
      assert Shift(1, 9) == 1000000000;
      assert Shift(1, 14) == 100000000000000;
    }
  }

  /** A comparison that tells exactly which integers lie above the value. */
  ghost predicate Exact(p: Parts, compare: int -> int)
    requires Normal(p)
  {
    forall n :: compare(n) < 0 <==> Floor(ValueOf(p)) < n
  }

  lemma ComparisonIsExact(p: Parts)
    requires Normal(p)
    ensures Exact(p, Comparison(p))
  {
    forall n
      ensures Comparison(p)(n) < 0 <==> Floor(ValueOf(p)) < n
    {
      CompareIntIsOrder(p, n);
      FloorOrder(ValueOf(p), n);
    }
  }

  /** Flooring to 64 bits is exact, and fails exactly when the floor does not fit. */
  lemma FloorInt64IsExact(p: Parts, compare: int -> int)
    requires Normal(p) && Exact(p, compare)
    ensures FloorInt64(p, compare) ==
            var f := Floor(ValueOf(p)); if -0x8000_0000_0000_0000 <= f <= 0x7FFF_FFFF_FFFF_FFFF then Some(f) else None
  {
    var f := Floor(ValueOf(p));
    if p.coefficient == "0" {
      ZeroDigit();
      assert f == 0;
    } else {
      TruncationIsNear(p);
      if p.adjusted > 18 {
        LargeMagnitude(p);
      }
    }
  }

  lemma JsIndexIsFloor(p: Parts, length: nat, compare: int -> int)
    requires Normal(p) && Exact(p, compare)
    ensures JsIndex(p, length, compare) == IndexAt(Floor(ValueOf(p)), length)
  {
    if p.coefficient == "0" {
      ZeroDigit();
      assert "0" + Zeros(0) == "0";
    } else {
      TruncationIsNear(p);
    }
  }

  lemma GoIndexIsFloor(p: Parts, length: nat, compare: int -> int)
    requires Normal(p) && Exact(p, compare) && length <= MAX_INT64
    ensures GoIndex(p, length, compare) == IndexAt(Floor(ValueOf(p)), length)
  {
    FloorInt64IsExact(p, compare);
  }

  lemma PartsOfValue(t: Token)
    requires Lexical(t)
    ensures Normal(PartsOf(Spell(t))) && Floor(ValueOf(PartsOf(Spell(t)))) == Floor(Denote(t))
  {
    PartsOfSpelling(t);
    PartsKeepValue(t);
    FloorCongruent(Denote(t), ValueOf(PartsOfToken(t)));
  }

  lemma IndexOfParts(p: Parts, length: nat)
    requires Normal(p) && length <= MAX_INT64
    ensures GoIndex(p, length, Comparison(p)) == IndexAt(Floor(ValueOf(p)), length)
    ensures JsIndex(p, length, Comparison(p)) == IndexAt(Floor(ValueOf(p)), length)
  {
    ComparisonIsExact(p);
    GoIndexIsFloor(p, length, Comparison(p));
    JsIndexIsFloor(p, length, Comparison(p));
  }

  /**
   Indexing by any number token, in either engine, floors the exact value and counts negative
   positions from the end; the two engines therefore select the same element.
   */
  lemma IndexIsFloor(t: Token, length: nat)
    requires Lexical(t) && length <= MAX_INT64
    ensures var p := PartsOf(Spell(t));
            && Normal(p)
            && GoIndex(p, length, Comparison(p)) == IndexAt(Floor(Denote(t)), length)
            && JsIndex(p, length, Comparison(p)) == IndexAt(Floor(Denote(t)), length)
  {
    PartsOfValue(t);
    IndexOfParts(PartsOf(Spell(t)), length);
  }

  /** Positions count from the front and, negative ones, from the end: i and i - length name one element, others none. */
  lemma PositionsCountFromBothEnds(i: int, length: nat)
    ensures 0 <= i < length ==> IndexAt(i, length) == Some(i) && IndexAt(i - length, length) == Some(i)
    ensures i >= length || i + length < 0 ==> IndexAt(i, length) == None
  {
  }

  // ---------------------------------------------------------------------------
  // The two notations
  // ---------------------------------------------------------------------------

  /** The decimal exponent of a positive number is the power of ten it reaches. */
  lemma PowersReached(m: nat, e: int, t: int)
    requires m > 0
    ensures Order(Decimal(1, t), Decimal(m, e)) <= 0 <==> t <= e + Digits(m) - 1
  {
    hide Digits, Ten;
    DigitsBound(m);
    if t >= e {
      ShiftIsProduct(1, t - e);
      TensReached(m, t - e);
    } else {
      ShiftGrows(m, 0, e - t);
    }
  }

  lemma DigitsOfSignificant(c: string)
    requires AllDigits(c) && c != "" && c[0] != '0'
    ensures Val(c) > 0 && Digits(Val(c)) == |c|
  {
    hide Val, Digits, Ten;
    ValLower(c);
    ShiftIsProduct(1, |c|);
    ShiftIsProduct(1, |c| - 1);
    ShiftGrows(1, 0, |c| - 1);
    TensReached(Val(c), |c| - 1);
    TensReached(Val(c), |c|);
  }

  /** The leading exponent of parts is that of their value. */
  lemma AdjustedIsReached(p: Parts, t: int)
    requires Normal(p) && p.coefficient != "0"
    ensures Order(Decimal(1, t), Decimal(Val(p.coefficient), ValueOf(p).e)) <= 0 <==> t <= p.adjusted
  {
    hide Val, Digits, Order;
    DigitsOfSignificant(p.coefficient);
    PowersReached(Val(p.coefficient), ValueOf(p).e, t);
  }

  lemma NoMarks(s: string)
    requires AllDigits(s)
    ensures 'e' !in s && '.' !in s && '-' !in s && '+' !in s
  {
  }

  lemma PositionalMarks(c: string, point: int)
    requires AllDigits(c) && c != ""
    ensures 'e' !in Positional(c, point) && '-' !in Positional(c, point)
    ensures '.' in Positional(c, point) <==> point < |c|
  {
    NoMarks(c);
    if point <= 0 {
      NoMarks(Zeros(-point));
      assert Positional(c, point)[1] == '.';
    } else if point >= |c| {
      NoMarks(Zeros(point - |c|));
    } else {
      NoMarks(c[..point]);
      NoMarks(c[point..]);
      assert Positional(c, point)[point] == '.';
    }
  }

  /** One digit, the others after a point, and a signed exponent without leading zeros. */
  lemma ScientificShape(c: string, e: int)
    requires AllDigits(c) && c != ""
    ensures var tail := (if e < 0 then "e-" else "e+") + Spelling(if e < 0 then -e else e);
            Scientific(c, e) == if |c| == 1 then c + tail else [c[0]] + "." + c[1..] + tail
  {
    hide Spelling, ExponentPart;
    ExponentShape(e);
    if |c| == 1 {
      assert c[..1] == c && c + "" + ExponentPart(e) == c + ExponentPart(e);
    } else {
      assert c[..1] == [c[0]];
      assert [c[0]] + ("." + c[1..]) + ExponentPart(e) == [c[0]] + "." + c[1..] + ExponentPart(e);
    }
  }

  lemma ExponentShape(e: int)
    ensures ExponentPart(e) == (if e < 0 then "e-" else "e+") + Spelling(if e < 0 then -e else e)
  {
    hide Spelling;
  }

  /** Numbers from a millionth up to 10^21 are written out, the others with an exponent; only negatives have a sign. */
  lemma NotationByMagnitude(p: Parts)
    requires Normal(p) && p.coefficient != "0"
    ensures var magnitude := Decimal(Val(p.coefficient), ValueOf(p).e);
            var text := FormatParts(p.(negative := false));
            && FormatParts(p) == (if p.negative then "-" + text else text)
            && ('e' in text <==> Order(Decimal(1, -6), magnitude) > 0 || Order(Decimal(1, 21), magnitude) <= 0)
  {
    hide Positional, Scientific, Order, Val, AllDigits, Spelling;
    AdjustedIsReached(p, -6);
    AdjustedIsReached(p, 21);
    var q := p.(negative := false);
    var text := if -6 <= p.adjusted < 21 then Positional(p.coefficient, p.adjusted + 1) else Scientific(p.coefficient, p.adjusted);
    assert FormatParts(p) == (if p.negative then "-" else "") + text && FormatParts(q) == "" + text;
    assert "" + text == text;
    PositionalMarks(p.coefficient, p.adjusted + 1);
    ScientificHasMark(p.coefficient, p.adjusted);
  }

  lemma ScientificHasMark(c: string, e: int)
    requires AllDigits(c) && c != ""
    ensures 'e' in Scientific(c, e)
  {
    ScientificShape(c, e);
  }

  /** Written out, a number has a point exactly if it is no integer. */
  lemma PointsMarkFractions(p: Parts)
    requires Normal(p) && p.coefficient != "0" && -6 <= p.adjusted < 21
    ensures '.' in FormatParts(p) <==> p.adjusted < |p.coefficient| - 1
  {
    hide Positional, AllDigits;
    PositionalMarks(p.coefficient, p.adjusted + 1);
  }

  // ---------------------------------------------------------------------------
  // The grammar
  // ---------------------------------------------------------------------------

  predicate SomeDigits(s: string) {
    s != "" && AllDigits(s)
  }

  /** Which parts make a castable number, by the characters: digits, a point between digits, and e or E with a signed exponent. */
  lemma PartsOfTheGrammar(negative: bool, whole: string, fraction: string, mark: char, sign: string, digits: string)
    ensures Lexical(Token(negative, whole, None, None)) <==> SomeDigits(whole)
    ensures Lexical(Token(negative, whole, Some(fraction), None)) <==> SomeDigits(whole) && SomeDigits(fraction)
    ensures Lexical(Token(negative, whole, None, Some(Exponent(mark, sign, digits)))) <==>
              SomeDigits(whole) && mark in {'e', 'E'} && sign in {"", "+", "-"} && SomeDigits(digits)
    ensures Lexical(Token(negative, whole, Some(fraction), Some(Exponent(mark, sign, digits)))) <==>
              SomeDigits(whole) && SomeDigits(fraction) && mark in {'e', 'E'} && sign in {"", "+", "-"} && SomeDigits(digits)
    ensures Strict(Token(negative, whole, None, None)) <==> SomeDigits(whole) && (whole == "0" || whole[0] != '0')
  {
  }

  /** JSON numbers begin with a digit, after a minus sign at most, end with a digit, and have no zero before another digit in front. */
  lemma JsonNumbersLook(s: string)
    requires Valid(s)
    ensures s != "" && IsDigit(s[|s| - 1])
    ensures var body := if s[0] == '-' then s[1..] else s;
            body != "" && IsDigit(body[0]) && (body[0] == '0' && |body| > 1 ==> !IsDigit(body[1]))
  {
    var t: Token :| Strict(t) && Spell(t) == s;
    SignRead(t);
    EndsInDigit(t);
    StartsInDigit(t);
  }

  lemma StartsInDigit(t: Token)
    requires Strict(t)
    ensures var body := t.whole + FractionText(t) + ExponentText(t);
            body != "" && IsDigit(body[0]) && (body[0] == '0' && |body| > 1 ==> !IsDigit(body[1]))
    ensures Spell(t) == (if t.negative then ['-'] + (t.whole + FractionText(t) + ExponentText(t)) else t.whole + FractionText(t) + ExponentText(t))
  {
    hide FractionText, ExponentText, AllDigits;
    SignApart(t);
    var tail := FractionText(t) + ExponentText(t);
    var body := t.whole + FractionText(t) + ExponentText(t);
    assert body == t.whole + tail && body[0] == t.whole[0];
    assert t.negative ==> "-" + body == ['-'] + body;
    assert !t.negative ==> "" + body == body;
    WholeStarts(t.whole);
    TailStarts(t);
    if t.whole == "0" {
      assert |body| > 1 ==> body[1] == tail[0];
    }
  }

  lemma WholeStarts(whole: string)
    requires whole != "" && AllDigits(whole)
    ensures IsDigit(whole[0])
  {
  }

  lemma TailStarts(t: Token)
    requires Lexical(t)
    ensures var tail := FractionText(t) + ExponentText(t); tail != "" ==> !IsDigit(tail[0])
  {
    hide AllDigits;
  }

  lemma EndsInDigit(t: Token)
    requires Lexical(t)
    ensures Spell(t) != "" && IsDigit(Spell(t)[|Spell(t)| - 1])
  {
    var s := Spell(t);
    if t.exponent.Some? {
      var d := t.exponent.value.digits;
      assert s[|s| - 1] == d[|d| - 1];
    } else if t.fraction.Some? {
      var f := t.fraction.value;
      assert ExponentText(t) == "" && s[|s| - 1] == f[|f| - 1];
    } else {
      assert FractionText(t) == "" && ExponentText(t) == "" && s[|s| - 1] == t.whole[|t.whole| - 1];
    }
  }
}
