/**
 Powers and decimal digit strings.

 What the decimal modules need to know about powers of ten and about numbers written in digits.

 Multiplying by a power of ten is `Shift`, a recursion that adds a zero at a time, because the
 proofs that use it then never meet a product of two unknowns.

 Digit strings are read from the front; the lemmas say how reading commutes with appending,
 padding, splitting and comparing.
 */
module Powers {

  function Sign(n: int): int {
    if n < 0 then -1 else if n > 0 then 1 else 0
  }

  function Pow(b: nat, n: nat): nat {
    if n == 0 then 1 else b * Pow(b, n - 1)
  }

  lemma {:induction false} PowPositive(b: nat, n: nat)
    requires b > 0
    ensures Pow(b, n) > 0
  {
    if n > 0 {
      PowPositive(b, n - 1);
    }
  }

  lemma {:induction false} PowAdd(b: nat, m: nat, n: nat)
    ensures Pow(b, m + n) == Pow(b, m) * Pow(b, n)
  {
    if m > 0 {
      PowAdd(b, m - 1, n);
      Assoc(b, Pow(b, m - 1), Pow(b, n));
    }
  }

  lemma {:induction false} PowMonotone(b: nat, m: nat, n: nat)
    requires b > 0 && m <= n
    ensures Pow(b, m) <= Pow(b, n)
  {
    if m < n {
      PowMonotone(b, m, n - 1);
      MulMonotone(1, b, Pow(b, n - 1));
    }
  }

  function Ten(n: nat): nat {
    Pow(10, n)
  }

  lemma TenAdd(m: nat, n: nat)
    ensures Ten(m + n) == Ten(m) * Ten(n) && Ten(m) > 0 && Ten(n) > 0
  {
    PowAdd(10, m, n);
    PowPositive(10, m);
    PowPositive(10, n);
  }

  // ---------------------------------------------------------------------------
  // Products
  // ---------------------------------------------------------------------------

  lemma MulMonotone(a: int, b: int, k: int)
    requires a <= b && k >= 0
    ensures a * k <= b * k
  {
  }

  lemma MulStrict(a: int, b: int, k: int)
    requires a < b && k > 0
    ensures a * k < b * k
  {
  }

  lemma Assoc(a: int, b: int, c: int)
    ensures (a * b) * c == a * (b * c)
  {
  }

  lemma Swap(a: int, b: int, c: int)
    ensures a * (b * c) == b * (a * c)
  {
  }

  lemma Interchange(a: int, b: int, x: int, y: int)
    ensures (a * b) * (x * y) == (a * x) * (b * y)
  {
  }

  lemma Distribute(a: int, b: int, c: int)
    ensures (a + b) * c == a * c + b * c
  {
  }

  // ---------------------------------------------------------------------------
  // Decimal shifts
  // ---------------------------------------------------------------------------

  /** n * 10^k, without a product of two unknowns. */
  function Shift(n: int, k: nat): int {
    if k == 0 then n else 10 * Shift(n, k - 1)
  }

  lemma {:induction false} ShiftIsProduct(n: int, k: nat)
    ensures Shift(n, k) == n * Ten(k)
  {
    if k > 0 {
      ShiftIsProduct(n, k - 1);
      var t := Ten(k - 1);
      assert n * (10 * t) == 10 * (n * t);
    }
  }

  lemma {:induction false} ShiftAdd(n: int, j: nat, k: nat)
    ensures Shift(n, j + k) == Shift(Shift(n, j), k)
  {
    if k > 0 {
      ShiftAdd(n, j, k - 1);
    }
  }

  lemma {:induction false} ShiftLinear(a: int, b: int, k: nat)
    ensures Shift(a + b, k) == Shift(a, k) + Shift(b, k)
    ensures Shift(-a, k) == -Shift(a, k)
    ensures Shift(0, k) == 0
  {
    if k > 0 {
      ShiftLinear(a, b, k - 1);
    }
  }

  lemma {:induction false} ShiftOrder(a: int, b: int, k: nat)
    ensures a < b <==> Shift(a, k) < Shift(b, k)
    ensures a == b <==> Shift(a, k) == Shift(b, k)
  {
    if k > 0 {
      ShiftOrder(a, b, k - 1);
    }
  }

  /** Shifting further never makes a magnitude smaller. */
  lemma {:induction false} ShiftGrows(n: nat, j: nat, k: nat)
    requires j <= k
    ensures 0 <= Shift(n, j) <= Shift(n, k)
  {
    if k > 0 {
      ShiftGrows(n, if j < k then j else j - 1, k - 1);
    }
  }

  // ---------------------------------------------------------------------------
  // Digit strings
  // ---------------------------------------------------------------------------

  predicate IsDigit(c: char) {
    '0' <= c <= '9'
  }

  predicate AllDigits(s: string) {
    forall i :: 0 <= i < |s| ==> IsDigit(s[i])
  }

  function DigitValue(c: char): nat
    requires IsDigit(c)
  {
    c as int - '0' as int
  }

  function DigitChar(d: nat): (c: char)
    requires d < 10
    ensures IsDigit(c) && DigitValue(c) == d
  {
    (d + '0' as int) as char
  }

  /** The number a digit string spells. */
  function Val(s: string): nat
    requires AllDigits(s)
  {
    if s == "" then 0 else 10 * Val(s[..|s| - 1]) + DigitValue(s[|s| - 1])
  }

  lemma {:induction false} ValAppend(a: string, b: string)
    requires AllDigits(a) && AllDigits(b)
    ensures AllDigits(a + b) && Val(a + b) == Shift(Val(a), |b|) + Val(b)
  {
    if b == "" {
      assert a + b == a;
    } else {
      var c := b[..|b| - 1];
      ValAppend(a, c);
      assert (a + b)[..|a + b| - 1] == a + c;
      assert (a + b)[|a + b| - 1] == b[|b| - 1];
    }
  }

  lemma {:induction false} ValBound(s: string)
    requires AllDigits(s)
    ensures Val(s) < Shift(1, |s|)
  {
    if s != "" {
      ValBound(s[..|s| - 1]);
    }
  }

  lemma {:induction false} ValLower(s: string)
    requires AllDigits(s) && s != "" && s[0] != '0'
    ensures Shift(1, |s| - 1) <= Val(s) < Shift(1, |s|)
  {
    ValBound(s);
    if |s| > 1 {
      ValLower(s[..|s| - 1]);
    } else {
      assert s[..0] == "";
    }
  }

  function Zeros(n: nat): (s: string)
    ensures |s| == n && AllDigits(s) && forall i :: 0 <= i < n ==> s[i] == '0'
  {
    if n == 0 then "" else Zeros(n - 1) + "0"
  }

  lemma {:induction false} ValZeros(n: nat)
    ensures Val(Zeros(n)) == 0
  {
    if n > 0 {
      ValZeros(n - 1);
      assert Zeros(n)[..n - 1] == Zeros(n - 1);
    }
  }

  lemma ValPadRight(s: string, n: nat)
    requires AllDigits(s)
    ensures AllDigits(s + Zeros(n)) && Val(s + Zeros(n)) == Shift(Val(s), n)
  {
    ValAppend(s, Zeros(n));
    ValZeros(n);
  }

  /** Digit strings of one length are ordered by their first difference. */
  lemma {:induction false} ValLexicographic(a: string, b: string, i: nat)
    requires AllDigits(a) && AllDigits(b) && |a| == |b|
    requires i < |a| && a[..i] == b[..i] && a[i] < b[i]
    ensures Val(a) < Val(b)
  {
    var n := |a| - 1;
    if i < n {
      assert a[..n][..i] == a[..i] && b[..n][..i] == b[..i];
      ValLexicographic(a[..n], b[..n], i);
    }
  }

  /** The shortest spelling of a natural number. */
  function Spelling(n: nat): (s: string)
    ensures AllDigits(s) && s != ""
    ensures s[0] == '0' ==> s == "0"
  {
    if n < 10 then [DigitChar(n)] else Spelling(n / 10) + [DigitChar(n % 10)]
  }

  lemma {:induction false} SpellingValue(n: nat)
    ensures Val(Spelling(n)) == n
  {
    var s := Spelling(n);
    if n < 10 {
      assert s[..0] == "";
    } else {
      SpellingValue(n / 10);
      assert s[..|s| - 1] == Spelling(n / 10);
    }
  }

  /** A spelling of `n` starts with zero only when `n` is zero. */
  lemma {:induction false} SpellingHead(n: nat)
    ensures Spelling(n)[0] == '0' <==> n == 0
  {
    if n >= 10 {
      SpellingHead(n / 10);
    }
  }

  /** How many digits it takes to write `n`. */
  function Digits(n: nat): (d: nat)
    ensures d > 0
  {
    if n < 10 then 1 else 1 + Digits(n / 10)
  }

  lemma {:induction false} DigitsBound(n: nat)
    ensures n < Ten(Digits(n))
    ensures n > 0 ==> Ten(Digits(n) - 1) <= n
  {
    if n >= 10 {
      DigitsBound(n / 10);
    } else {
      assert Ten(1) == 10 * Ten(0) && Ten(0) == 1;
    }
  }

  lemma {:induction false} DigitsMonotone(m: nat, n: nat)
    requires m <= n
    ensures Digits(m) <= Digits(n)
  {
    if m >= 10 {
      DigitsMonotone(m / 10, n / 10);
    }
  }

  /** A number reaches the power of ten that its digits say. */
  lemma TensReached(m: nat, k: nat)
    requires m > 0
    ensures Ten(k) <= m <==> k <= Digits(m) - 1
  {
    DigitsBound(m);
    hide Digits;
    if k <= Digits(m) - 1 {
      PowMonotone(10, k, Digits(m) - 1);
    } else {
      PowMonotone(10, Digits(m), k);
    }
  }
}
