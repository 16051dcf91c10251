/** Division, roots and powers of assigned decimals. */
module Quotients {
  import opened Powers
  import opened Decimals

  // A quotient or root is first probed at a working precision that depends only on the operands'
  // digit counts; if the probe is exact it is the answer, and otherwise the answer is rounded to 34
  // significant digits, ties to even.  The theorems say that the probe precisions suffice: whenever an
  // exact answer exists, the probe finds it.
  //
  // The decimal libraries are taken at their word: a division or a root at precision p is correctly
  // rounded to p significant digits.

  // ---------------------------------------------------------------------------
  // Rounding a quotient of naturals to p significant digits
  // ---------------------------------------------------------------------------

  /** The integer nearest to n / d, the even one of two. */
  function RoundHalfEven(n: nat, d: nat): nat
    requires d > 0
  {
    var f, r := n / d, n % d;
    if 2 * r < d || (2 * r == d && f % 2 == 0) then f else f + 1
  }

  /** n * 10^k / d as a fraction of naturals, for k of either sign. */
  function Num(n: nat, k: int): nat {
    if k >= 0 then Up(n, k) else n
  }

  function Den(d: nat, k: int): nat {
    if k >= 0 then d else Up(d, -k)
  }

  /** n * 10^k, for naturals. */
  function Up(n: nat, k: nat): (r: nat)
    ensures r >= n
  {
    ShiftGrows(n, 0, k);
    Shift(n, k)
  }

  /** The power of ten that brings n / d between 1 and 10. */
  function ScaleOf(n: nat, d: nat): int
    requires n > 0 && d > 0
  {
    var s := Digits(d) - Digits(n);
    if Num(n, s) < Den(d, s) then s + 1 else s
  }

  /** The significand of n / d at p digits, and the power of ten it was scaled by. */
  function RoundedQuotient(p: nat, n: nat, d: nat): (nat, int)
    requires p > 0 && n > 0 && d > 0
  {
    var k := ScaleOf(n, d) + p - 1;
    (RoundHalfEven(Num(n, k), Den(d, k)), k)
  }

  lemma {:induction false} DigitsShift(n: nat, k: nat)
    requires n > 0
    ensures Digits(Up(n, k)) == Digits(n) + k
  {
    if k > 0 {
      DigitsShift(n, k - 1);
    }
  }

  lemma {:induction false} SameDigits(n: nat, d: nat)
    requires n > 0 && d > 0 && Digits(n) == Digits(d)
    ensures n < 10 * d
  {
    if n >= 10 {
      SameDigits(n / 10, d / 10);
    }
  }

  /** One more power of ten multiplies the fraction by ten. */
  lemma NextScale(n: nat, d: nat, k: int)
    requires d > 0
    ensures if k >= 0 then Num(n, k + 1) == 10 * Num(n, k) && Den(d, k + 1) == Den(d, k)
            else Num(n, k + 1) == Num(n, k) && Den(d, k) == 10 * Den(d, k + 1)
  {
    if k < 0 {
      assert Shift(d, -k) == 10 * Shift(d, -k - 1);
    }
  }

  lemma ScaleInRange(n: nat, d: nat)
    requires n > 0 && d > 0
    ensures var s := ScaleOf(n, d); Den(d, s) <= Num(n, s) < 10 * Den(d, s)
  {
    var s := Digits(d) - Digits(n);
    if s >= 0 {
      DigitsShift(n, s);
    } else {
      DigitsShift(d, -s);
    }
    SameDigits(Num(n, s), Den(d, s));
    SameDigits(Den(d, s), Num(n, s));
    NextScale(n, d, s);
  }

  /** Scaled for p digits, the quotient lies between 10^(p-1) and 10^p. */
  lemma {:induction false} SignificandInRange(p: nat, n: nat, d: nat)
    requires p > 0 && n > 0 && d > 0
    ensures var k := ScaleOf(n, d) + p - 1;
            && Den(d, k) > 0
            && Shift(Den(d, k), p - 1) <= Num(n, k) < Shift(Den(d, k), p)
  {
    var s := ScaleOf(n, d);
    if p == 1 {
      ScaleInRange(n, d);
      assert Shift(Den(d, s), 1) == 10 * Shift(Den(d, s), 0);
    } else {
      SignificandInRange(p - 1, n, d);
      var k := s + p - 2;
      NextScale(n, d, k);
      if k < 0 {
        ShiftAdd(Den(d, k + 1), 1, p - 2);
        ShiftAdd(Den(d, k + 1), 1, p - 1);
        assert Den(d, k) == Shift(Den(d, k + 1), 1);
      }
    }
  }

  // ---------------------------------------------------------------------------
  // Which quotients are finite decimals, and how long they are
  // ---------------------------------------------------------------------------

  /** t is n * 10^j / d, exactly. */
  predicate Terminating(n: nat, d: nat, j: nat, t: nat) {
    t * d == Up(n, j)
  }

  ghost predicate Terminates(n: nat, d: nat) {
    exists j, t :: Terminating(n, d, j, t)
  }

  lemma CancelTen(u: nat, d: nat, m: int)
    requires (10 * u) * d == 10 * m
    ensures u * d == m
  {
    assert (10 * u) * d == 10 * (u * d);
  }

  /** Trailing zeros of an exact quotient can be dropped with the powers of ten that made them. */
  lemma {:induction false} DropZeros(n: nat, d: nat, j: nat, t: nat) returns (i: nat, u: nat)
    requires Terminating(n, d, j, t)
    ensures Terminating(n, d, i, u) && (i == 0 || u % 10 != 0)
  {
    i, u := j, t;
    if j > 0 && t % 10 == 0 {
      CancelTen(t / 10, d, Shift(n, j - 1));
      i, u := DropZeros(n, d, j - 1, t / 10);
    }
  }

  lemma NoFactor(p: nat, r: nat, x: nat, d: nat, td: nat)
    requires (p == 2 && r == 1) || (p == 5 && 1 <= r <= 4)
    requires td == p * x + r * d
    requires td % p == 0
    ensures d % p == 0
  {
    if p == 2 {
      assert td == 2 * x + d;
    } else if r == 1 {
      assert td == 5 * x + d;
    } else if r == 2 {
      assert td == 5 * x + 2 * d;
    } else if r == 3 {
      assert td == 5 * x + 3 * d;
    } else {
      assert td == 5 * x + 4 * d;
    }
  }

  /** 2 and 5 are prime. */
  lemma PrimeDivides(p: nat, t: nat, d: nat)
    requires p == 2 || p == 5
    requires t % p != 0 && (t * d) % p == 0
    ensures d % p == 0
  {
    var a, r := t / p, t % p;
    assert t == p * a + r && 1 <= r < p;
    Distribute(p * a, r, d);
    Assoc(p, a, d);
    NoFactor(p, r, a * d, d, t * d);
  }

  lemma CancelPrime(p: nat, x: int, y: int)
    requires p == 2 || p == 5
    requires p * x == p * y
    ensures x == y
  {
  }

  lemma MultipleOfPrime(p: nat, w: nat)
    requires p == 2 || p == 5
    ensures (p * w) % p == 0
  {
  }

  /** A power of 2 or 5 that divides t * d, and has nothing in common with t, divides d. */
  lemma {:induction false} PrimePowerDivides(p: nat, j: nat, t: nat, d: nat, m: nat) returns (c: nat)
    requires p == 2 || p == 5
    requires t % p != 0 && t * d == Pow(p, j) * m
    ensures d == Pow(p, j) * c
  {
    if j == 0 {
      c := d;
    } else {
      var q := Pow(p, j - 1);
      Assoc(p, q, m);
      MultipleOfPrime(p, q * m);
      PrimeDivides(p, t, d);
      var e := d / p;
      assert d == p * e;
      Swap(t, p, e);
      CancelPrime(p, t * e, q * m);
      c := PrimePowerDivides(p, j - 1, t, e, m);
      Assoc(p, q, c);
    }
  }

  lemma {:induction false} PowOfProduct(a: nat, b: nat, j: nat)
    ensures Pow(a * b, j) == Pow(a, j) * Pow(b, j)
  {
    if j > 0 {
      PowOfProduct(a, b, j - 1);
      Interchange(a, b, Pow(a, j - 1), Pow(b, j - 1));
    }
  }

  lemma {:induction false} PowOfLarger(a: nat, b: nat, j: nat)
    requires a <= b
    ensures Pow(a, j) <= Pow(b, j)
  {
    if j > 0 {
      PowOfLarger(a, b, j - 1);
      MulMonotone(a, b, Pow(a, j - 1));
      MulMonotone(Pow(a, j - 1), Pow(b, j - 1), b);
    }
  }

  function Square(a: nat): nat {
    a * a
  }

  lemma SquareMonotone(a: nat, b: nat)
    requires a <= b
    ensures Square(a) <= Square(b)
  {
    MulMonotone(a, b, a);
    MulMonotone(a, b, b);
  }

  /** If 2^j or 5^j fits into d, then 10^j fits into d^4. */
  lemma TenFits(j: nat, d: nat)
    requires Pow(2, j) <= d || Pow(5, j) <= d
    ensures Ten(j) <= Square(Square(d))
  {
    if Pow(2, j) <= d {
      PowOfProduct(2, 2, j);
      PowOfProduct(4, 4, j);
      PowOfLarger(10, 16, j);
      SquareMonotone(Pow(2, j), d);
      SquareMonotone(Pow(4, j), Square(d));
    } else {
      PowOfProduct(5, 5, j);
      PowOfLarger(10, 25, j);
      SquareMonotone(Pow(5, j), d);
      PowPositive(5, j);
      SquareMonotone(1, d);
      MulMonotone(1, Square(d), Square(d));
    }
  }

  lemma DivisorFits(p: nat, j: nat, d: nat, c: nat)
    requires d > 0 && d == Pow(p, j) * c
    ensures Pow(p, j) <= d
  {
    assert c > 0;
    MulMonotone(1, c, Pow(p, j));
  }

  /** n * 10^j, with its powers of 2 or of 5 in front. */
  lemma SplitTen(n: nat, j: nat) returns (twos: nat, fives: nat)
    ensures Up(n, j) == Pow(2, j) * twos && Up(n, j) == Pow(5, j) * fives
  {
    var a, b := Pow(2, j), Pow(5, j);
    ShiftIsProduct(n, j);
    PowOfProduct(2, 5, j);
    Swap(n, a, b);
    twos := n * b;
    fives := n * a;
    SwapBack(n, a, b);
  }

  lemma SwapBack(n: int, a: int, b: int)
    ensures n * (a * b) == b * (n * a)
  {
  }

  lemma OddQuotient(n: nat, d: nat, j: nat, t: nat)
    requires d > 0 && Terminating(n, d, j, t) && t % 2 != 0
    ensures Pow(2, j) <= d
  {
    var twos, fives := SplitTen(n, j);
    var c := PrimePowerDivides(2, j, t, d, twos);
    DivisorFits(2, j, d, c);
  }

  lemma FiveFreeQuotient(n: nat, d: nat, j: nat, t: nat)
    requires d > 0 && Terminating(n, d, j, t) && t % 5 != 0
    ensures Pow(5, j) <= d
  {
    var twos, fives := SplitTen(n, j);
    var c := PrimePowerDivides(5, j, t, d, fives);
    DivisorFits(5, j, d, c);
  }

  /** The scale of a reduced exact quotient is bounded by its divisor. */
  lemma ReducedScale(n: nat, d: nat, j: nat, t: nat)
    requires n > 0 && d > 0 && Terminating(n, d, j, t) && (j == 0 || t % 10 != 0)
    ensures Ten(j) <= Square(Square(d))
  {
    assert Pow(2, 0) <= d;
    hide *;
    if j > 0 {
      ByTen(t);
      if t % 2 != 0 {
        OddQuotient(n, d, j, t);
      } else {
        FiveFreeQuotient(n, d, j, t);
      }
    }
    TenFits(j, d);
  }

  function Cube(d: nat): nat {
    d * Square(d)
  }

  lemma FourthPower(d: nat)
    ensures Square(Square(d)) == Cube(d) * d
  {
    Assoc(d, d, Square(d));
  }

  lemma CancelDivisor(t: nat, d: nat, m: nat)
    requires d > 0 && t * d <= m * d
    ensures t <= m
  {
    if t > m {
      MulStrict(m, t, d);
    }
  }

  /** A reduced exact quotient is at most n * d^3. */
  lemma ReducedSize(n: nat, d: nat, j: nat, t: nat)
    requires n > 0 && d > 0 && Terminating(n, d, j, t) && (j == 0 || t % 10 != 0)
    ensures t <= n * Cube(d)
  {
    ReducedScale(n, d, j, t);
    FourthPower(d);
    SizeFrom(n, d, j, t, Cube(d));
  }

  lemma SizeFrom(n: nat, d: nat, j: nat, t: nat, c: nat)
    requires d > 0 && Terminating(n, d, j, t) && Ten(j) <= c * d
    ensures t <= n * c
  {
    ShiftIsProduct(n, j);
    MulMonotone(Ten(j), c * d, n);
    Assoc(n, c, d);
    CancelDivisor(t, d, n * c);
  }

  lemma ProductBound(a: nat, b: nat, x: nat, y: nat)
    requires a < Ten(x) && b < Ten(y)
    ensures a * b < Ten(x + y)
  {
    TenAdd(x, y);
    MulMonotone(a, Ten(x), b);
    MulStrict(b, Ten(y), Ten(x));
  }

  lemma CubeBound(d: nat, x: nat)
    requires d < Ten(x)
    ensures Cube(d) < Ten(3 * x)
  {
    ProductBound(d, d, x, x);
    ProductBound(d, Square(d), x, 2 * x);
  }

  /** What the probe precision is for: no exact quotient needs more digits. */
  lemma ReducedDigits(n: nat, d: nat, j: nat, t: nat)
    requires n > 0 && d > 0 && Terminating(n, d, j, t) && (j == 0 || t % 10 != 0)
    ensures t < Ten(Digits(n) + 3 * Digits(d))
  {
    ReducedSize(n, d, j, t);
    DigitsBound(n);
    DigitsBound(d);
    CubeBound(d, Digits(d));
    ProductBound(n, Cube(d), Digits(n), 3 * Digits(d));
  }

  lemma {:induction false} ShiftTimes(a: int, b: int, k: nat)
    ensures Shift(a * b, k) == a * Shift(b, k)
  {
    if k > 0 {
      ShiftTimes(a, b, k - 1);
      Swap(a, 10, Shift(b, k - 1));
    }
  }

  lemma ScaledQuotient(n: nat, d: nat, j: nat, t: nat, i: nat)
    requires Terminating(n, d, j, t)
    ensures Terminating(n, d, j + i, Up(t, i))
  {
    ShiftAdd(n, j, i);
    ShiftTimes(d, t, i);
    Commute(d, t);
    Commute(d, Shift(t, i));
  }

  lemma Commute(a: int, b: int)
    ensures a * b == b * a
  {
  }

  /** An exact quotient of at most p digits is found by rounding to p digits: nothing is left over. */
  lemma ExactAtPrecision(p: nat, n: nat, d: nat, j: nat, t: nat)
    requires p > 0 && n > 0 && d > 0 && Terminating(n, d, j, t) && t < Ten(p)
    ensures var k := ScaleOf(n, d) + p - 1;
            k >= j && Terminating(n, d, k, Up(t, k - j))
  {
    var k := ScaleOf(n, d) + p - 1;
    SignificandInRange(p, n, d);
    if k < j {
      TooManyDigits(p, n, d, j, k);
      EnoughDigits(p, d, t);
    } else {
      ScaledQuotient(n, d, j, t, k - j);
    }
  }

  lemma EnoughDigits(p: nat, d: nat, t: nat)
    requires d > 0 && t * d >= Shift(d, p)
    ensures t >= Ten(p)
  {
    ShiftIsProduct(d, p);
    CancelDivisor(Ten(p), d, t);
  }

  /** Scaling on past the p-digit window makes a p+1 digit number. */
  lemma TooManyDigits(p: nat, n: nat, d: nat, j: nat, k: int)
    requires p > 0 && d > 0 && k < j
    requires Shift(Den(d, k), p - 1) <= Num(n, k)
    ensures Up(n, j) >= Shift(d, p)
  {
    if k >= 0 {
      ShiftAdd(n, k, j - k);
      ShiftAdd(d, p - 1, 1);
      ShiftGrows(Num(n, k), 1, j - k);
      ShiftGrows(d, 0, p - 1);
      assert Shift(Num(n, k), 1) == 10 * Num(n, k);
      assert Shift(Shift(d, p - 1), 1) == 10 * Shift(d, p - 1);
    } else {
      ShiftAdd(d, -k, p - 1);
      ShiftGrows(d, p, -k + p - 1);
      ShiftGrows(n, 0, j);
    }
  }

  lemma Multiple(u: nat, d: nat)
    requires d > 0
    ensures (u * d) % d == 0 && (u * d) / d == u
  {
    var q, r := (u * d) / d, (u * d) % d;
    assert u * d == q * d + r;
    if u < q {
      MulMonotone(u + 1, q, d);
      Distribute(u, 1, d);
    } else if q < u {
      MulMonotone(q + 1, u, d);
      Distribute(q, 1, d);
    }
  }

  lemma DivisionIdentity(n: nat, d: nat)
    requires d > 0
    ensures n == (n / d) * d + n % d
  {
  }

  /** Rounding to p significant digits leaves nothing over. */
  predicate ExactlyRounded(p: nat, n: nat, d: nat)
    requires p > 0 && n > 0 && d > 0
  {
    var k := ScaleOf(n, d) + p - 1;
    Num(n, k) % Den(d, k) == 0
  }

  lemma TerminatingMeansExact(p: nat, n: nat, d: nat, j: nat, t: nat)
    requires p > 0 && n > 0 && d > 0 && Terminating(n, d, j, t) && t < Ten(p)
    ensures ExactlyRounded(p, n, d)
  {
    ExactAtPrecision(p, n, d, j, t);
    Multiple(Up(t, ScaleOf(n, d) + p - 1 - j), d);
  }

  /** The probe precision decides whether n / d is a finite decimal. */
  lemma ProbeDecides(p: nat, n: nat, d: nat)
    requires n > 0 && d > 0 && p >= Digits(n) + 3 * Digits(d)
    ensures ExactlyRounded(p, n, d) <==> Terminates(n, d)
  {
    if Terminates(n, d) {
      var j, t :| Terminating(n, d, j, t);
      var i, u := DropZeros(n, d, j, t);
      ReducedDigits(n, d, i, u);
      PowMonotone(10, Digits(n) + 3 * Digits(d), p);
      TerminatingMeansExact(p, n, d, i, u);
    }
    if ExactlyRounded(p, n, d) {
      ExactMeansTerminating(p, n, d);
    }
  }

  lemma ExactMeansTerminating(p: nat, n: nat, d: nat)
    requires p > 0 && n > 0 && d > 0 && ExactlyRounded(p, n, d)
    ensures Terminates(n, d)
  {
    var k := ScaleOf(n, d) + p - 1;
    var t := Num(n, k) / Den(d, k);
    DivisionIdentity(Num(n, k), Den(d, k));
    if k >= 0 {
      assert Terminating(n, d, k, t);
    } else {
      ShiftTimes(t, d, -k);
      ShiftTimes(d, t, -k);
      Commute(d, t);
      Commute(d, Shift(t, -k));
      assert Terminating(n, d, 0, Up(t, -k));
    }
  }

  // ---------------------------------------------------------------------------
  // Correct rounding
  // ---------------------------------------------------------------------------

  /** q is a nearest integer to n / d, and even if it is one of two. */
  predicate NearestEven(n: nat, d: nat, q: nat) {
    && 2 * (q * d) <= 2 * n + d && 2 * n <= 2 * (q * d) + d
    && (2 * (q * d) == 2 * n + d || 2 * n == 2 * (q * d) + d ==> q % 2 == 0)
  }

  lemma RoundsToNearestEven(n: nat, d: nat)
    requires d > 0
    ensures NearestEven(n, d, RoundHalfEven(n, d))
  {
    DivisionIdentity(n, d);
    Distribute(n / d, 1, d);
  }

  lemma NearestEvenIsUnique(n: nat, d: nat, q: nat, r: nat)
    requires d > 0 && NearestEven(n, d, q) && NearestEven(n, d, r)
    ensures q == r
  {
    if q < r {
      Distribute(q, 1, d);
      MulMonotone(q + 1, r, d);
      OneApart(q, r, d);
    } else if r < q {
      Distribute(r, 1, d);
      MulMonotone(r + 1, q, d);
      OneApart(r, q, d);
    }
  }

  lemma OneApart(q: nat, r: nat, d: nat)
    requires d > 0 && q < r && r * d <= q * d + d
    ensures r == q + 1
  {
    if r > q + 1 {
      MulMonotone(q + 2, r, d);
      Distribute(q, 2, d);
    }
  }

  /** The scale at which a quotient has p digits before the point is unique. */
  lemma ScaleIsUnique(p: nat, n: nat, d: nat, k: int)
    requires p > 0 && n > 0 && d > 0
    requires Shift(Den(d, k), p - 1) <= Num(n, k) < Shift(Den(d, k), p)
    ensures k == ScaleOf(n, d) + p - 1
  {
    var m := ScaleOf(n, d) + p - 1;
    SignificandInRange(p, n, d);
    if k < m {
      WindowsAreApart(p, n, d, k, m);
    } else if m < k {
      WindowsAreApart(p, n, d, m, k);
    }
  }

  lemma {:induction false} WindowsAreApart(p: nat, n: nat, d: nat, k: int, m: int)
    requires p > 0 && n > 0 && d > 0 && k < m
    requires Shift(Den(d, k), p - 1) <= Num(n, k)
    ensures Shift(Den(d, m), p) <= Num(n, m)
    decreases m - k
  {
    NextScale(n, d, k);
    if k >= 0 {
      ShiftAdd(Den(d, k), p - 1, 1);
      assert Shift(Shift(Den(d, k), p - 1), 1) == 10 * Shift(Den(d, k), p - 1);
    } else {
      assert Shift(Den(d, k + 1), 1) == Den(d, k);
      ShiftAdd(Den(d, k + 1), 1, p - 1);
    }
    assert Shift(Den(d, k + 1), p) <= Num(n, k + 1);
    if k + 1 < m {
      ShiftGrows(Den(d, k + 1), p - 1, p);
      WindowsAreApart(p, n, d, k + 1, m);
    }
  }

  /**
   `RoundedQuotient` is the one correctly rounded answer: a significand of p digits (or the next
   power of ten, when rounding carries) that is nearest to the quotient, even on a tie.
   */
  lemma CorrectRounding(p: nat, n: nat, d: nat, q: nat, k: int)
    requires p > 0 && n > 0 && d > 0
    ensures RoundedQuotient(p, n, d) == (q, k) <==>
              && Shift(Den(d, k), p - 1) <= Num(n, k) < Shift(Den(d, k), p)
              && NearestEven(Num(n, k), Den(d, k), q)
  {
    SignificandInRange(p, n, d);
    var m := ScaleOf(n, d) + p - 1;
    RoundsToNearestEven(Num(n, m), Den(d, m));
    if Shift(Den(d, k), p - 1) <= Num(n, k) < Shift(Den(d, k), p) {
      ScaleIsUnique(p, n, d, k);
      if NearestEven(Num(n, k), Den(d, k), q) {
        NearestEvenIsUnique(Num(n, k), Den(d, k), q, RoundedQuotient(p, n, d).0);
      }
    }
  }

  // ---------------------------------------------------------------------------
  // Division of decimals
  // ---------------------------------------------------------------------------

  function Abs(m: int): nat {
    if m < 0 then -m else m
  }

  function Product(x: Decimal, y: Decimal): Decimal {
    Decimal(x.m * y.m, x.e + y.e)
  }

  /** Some finite decimal times y is x. */
  ghost predicate HasFiniteQuotient(x: Decimal, y: Decimal) {
    exists r: Decimal :: SameValue(Product(r, y), x)
  }

  /** x / y correctly rounded to p significant digits. */
  function Quotient(p: nat, x: Decimal, y: Decimal): Decimal
    requires p > 0 && y.m != 0
  {
    if x.m == 0 then Decimal(0, 0)
    else
      var (q, k) := RoundedQuotient(p, Abs(x.m), Abs(y.m));
      Decimal(Signed((x.m < 0) != (y.m < 0), q), x.e - y.e - k)
  }

  /** The flag the division sets when digits are lost. */
  predicate Inexact(p: nat, x: Decimal, y: Decimal)
    requires p > 0 && y.m != 0
  {
    x.m != 0 && !ExactlyRounded(p, Abs(x.m), Abs(y.m))
  }

  lemma SignedTimes(q: nat, m: int, negative: bool)
    ensures Signed(negative != (m < 0), q) * m == Signed(negative, q * Abs(m))
  {
  }

  lemma ShiftSign(a: nat, negative: bool, k: nat)
    ensures Shift(Signed(negative, a), k) == Signed(negative, Up(a, k))
  {
    ShiftLinear(a, 0, k);
  }

  /** Equality of two values of one sign is equality of their scaled magnitudes. */
  lemma SameMagnitude(a: nat, b: nat, negative: bool, e: int, k: int)
    ensures SameValue(Decimal(Signed(negative, a), e - k), Decimal(Signed(negative, b), e))
            <==> (if k >= 0 then a == Shift(b, k) else Shift(a, -k) == b)
  {
    if k >= 0 {
      ShiftSign(b, negative, k);
      ShiftGrows(b, 0, k);
    } else {
      ShiftSign(a, negative, -k);
      ShiftGrows(a, 0, -k);
    }
  }

  lemma RoundedExactly(n: nat, d: nat)
    requires d > 0
    ensures RoundHalfEven(n, d) * d == n <==> n % d == 0
  {
    DivisionIdentity(n, d);
    Multiple(RoundHalfEven(n, d), d);
  }

  lemma ScaledBack(q: nat, n: nat, d: nat, k: int)
    requires d > 0
    ensures q * Den(d, k) == Num(n, k) <==> if k >= 0 then q * d == Shift(n, k) else Shift(q * d, -k) == n
  {
    if k < 0 {
      ShiftTimes(q, d, -k);
    }
  }

  /** Multiplying the rounded quotient back gives the dividend exactly when nothing was lost. */
  lemma QuotientTimesDivisor(p: nat, x: Decimal, y: Decimal)
    requires p > 0 && y.m != 0
    ensures SameValue(Product(Quotient(p, x, y), y), x) <==> !Inexact(p, x, y)
  {
    if x.m == 0 {
      ZeroValue(Product(Quotient(p, x, y), y));
      ZeroValue(x);
      OrderCongruent(Product(Quotient(p, x, y), y), x, Decimal(0, 0), Decimal(0, 0));
    } else {
      var n, d := Abs(x.m), Abs(y.m);
      var (q, k) := RoundedQuotient(p, n, d);
      SignedTimes(q, y.m, x.m < 0);
      SameMagnitude(q * d, n, x.m < 0, x.e, k);
      ScaledBack(q, n, d, k);
      RoundedExactly(Num(n, k), Den(d, k));
    }
  }

  lemma AbsProduct(a: int, b: int)
    ensures Abs(a * b) == Abs(a) * Abs(b)
  {
  }

  lemma AbsShift(a: int, k: nat)
    ensures Abs(Shift(a, k)) == Shift(Abs(a), k)
  {
    ShiftLinear(a, 0, k);
    ShiftGrows(Abs(a), 0, k);
  }

  lemma FiniteMeansTerminates(x: Decimal, y: Decimal, r: Decimal)
    requires x.m != 0 && y.m != 0 && SameValue(Product(r, y), x)
    ensures Terminates(Abs(x.m), Abs(y.m))
  {
    var z := Product(r, y);
    var k := Min(z.e, x.e);
    assert Shift(z.m, z.e - k) == Shift(x.m, x.e - k);
    AbsShift(z.m, z.e - k);
    AbsShift(x.m, x.e - k);
    AbsProduct(r.m, y.m);
    var t, d, n := Abs(r.m), Abs(y.m), Abs(x.m);
    if z.e == k {
      assert Terminating(n, d, x.e - k, t);
    } else {
      var i := z.e - k;
      ShiftTimes(d, t, i);
      Commute(d, t);
      Commute(d, Shift(t, i));
      assert Terminating(n, d, 0, Up(t, i));
    }
  }

  /** The number of digits the quotient is probed with. */
  function ProbePrecision(x: Decimal, y: Decimal): nat {
    Digits(Abs(x.m)) + 4 * Digits(Abs(y.m)) + 2
  }

  /** The quotient, before the limits: the probe if it is exact, and else 34 digits. */
  function ChosenQuotient(x: Decimal, y: Decimal): Decimal
    requires y.m != 0
  {
    var p := ProbePrecision(x, y);
    if Inexact(p, x, y) then Quotient(34, x, y) else Quotient(p, x, y)
  }

  /** A finite quotient is returned exactly; every other one at 34 digits, ties to even. */
  lemma QuotientIsExactOrRounded(x: Decimal, y: Decimal)
    requires y.m != 0
    ensures Inexact(ProbePrecision(x, y), x, y) <==> !HasFiniteQuotient(x, y)
    ensures HasFiniteQuotient(x, y) ==> SameValue(Product(ChosenQuotient(x, y), y), x)
    ensures !HasFiniteQuotient(x, y) ==> ChosenQuotient(x, y) == Quotient(34, x, y)
  {
    var p := ProbePrecision(x, y);
    QuotientTimesDivisor(p, x, y);
    if x.m != 0 {
      ProbeDecides(p, Abs(x.m), Abs(y.m));
      if HasFiniteQuotient(x, y) {
        var r :| SameValue(Product(r, y), x);
        FiniteMeansTerminates(x, y, r);
      }
    }
  }

  // ---------------------------------------------------------------------------
  // The two engines' division
  // ---------------------------------------------------------------------------

  datatype Limits = Limits(maxDigits: nat, maxExponent: nat)

  datatype Outcome = Ok(value: Decimal) | DomainError | WorkLimit

  /** No trailing zeros in the coefficient. */
  function Reduce(x: Decimal): Decimal
    decreases Abs(x.m)
  {
    if x.m == 0 then Decimal(0, 0)
    else if x.m % 10 == 0 then Reduce(Decimal(x.m / 10, x.e + 1))
    else x
  }

  lemma {:induction false} ReduceKeepsValue(x: Decimal)
    ensures SameValue(Reduce(x), x)
    decreases Abs(x.m)
  {
    if x.m == 0 {
      ZeroValue(x);
      OrderCongruent(x, x, Decimal(0, 0), Decimal(0, 0));
      OrderCongruent(Decimal(0, 0), x, Decimal(0, 0), Decimal(0, 0));
    } else if x.m % 10 == 0 {
      var y := Decimal(x.m / 10, x.e + 1);
      ReduceKeepsValue(y);
      SameScaled(x.m, x.m / 10, x.e, 1);
      OrderCongruent(Reduce(x), x, y, y);
    }
  }

  /** The exponent of the leading digit. */
  function Adjusted(x: Decimal): int {
    x.e + Digits(Abs(x.m)) - 1
  }

  predicate WithinLimits(x: Decimal, l: Limits) {
    x.m == 0 || (Digits(Abs(x.m)) <= l.maxDigits && -(l.maxExponent as int) <= Adjusted(x) <= l.maxExponent)
  }

  function Checked(x: Decimal, l: Limits): Outcome {
    if WithinLimits(x, l) then Ok(x) else WorkLimit
  }

  /** `divide` of the Go engine: the library reports whether digits were lost. */
  function GoDivide(x: Decimal, y: Decimal, l: Limits): Outcome {
    if y.m == 0 then DomainError
    else if ProbePrecision(x, y) > l.maxDigits then WorkLimit
    else
      var p := ProbePrecision(x, y);
      Checked(Reduce(if Inexact(p, x, y) then Quotient(34, x, y) else Quotient(p, x, y)), l)
  }

  /**
   `significantDivide` of the JavaScript engine: scale the dividend so that the quotient has one
   digit before the point, divide at precision - 1 decimal places, scale back.
   */
  function SignificantDivide(x: Decimal, y: Decimal, precision: nat): Decimal
    requires precision > 0 && y.m != 0
  {
    if x.m == 0 then Decimal(0, 0)
    else
      var n, d := Abs(x.m), Abs(y.m);
      var exponent := Adjusted(x) - Adjusted(y);
      var scaled := Decimal(n, x.e - exponent);
      var shift := if Order(scaled, Decimal(d, y.e)) < 0 then exponent - 1 else exponent;
      var places := precision - 1;
      var k := x.e - shift - y.e + places;
      Decimal(Signed((x.m < 0) != (y.m < 0), RoundHalfEven(Num(n, k), Den(d, k))), shift - places)
  }

  /** `divide` of the JavaScript engine: the candidate is multiplied back. */
  function JsDivide(x: Decimal, y: Decimal, l: Limits): Outcome {
    if y.m == 0 then DomainError
    else if ProbePrecision(x, y) > l.maxDigits then WorkLimit
    else
      var candidate := SignificantDivide(x, y, ProbePrecision(x, y));
      var chosen := if SameValue(Product(candidate, y), x) then candidate else SignificantDivide(x, y, 34);
      Checked(Reduce(chosen), l)
  }

  lemma CompareScaled(n: nat, d: nat, a: int, b: int)
    ensures Order(Decimal(n, a), Decimal(d, b)) < 0 <==> Num(n, a - b) < Den(d, a - b)
  {
  }

  lemma SignificantDivideIsQuotient(x: Decimal, y: Decimal, p: nat)
    requires p > 0 && y.m != 0
    ensures SignificantDivide(x, y, p) == Quotient(p, x, y)
  {
    if x.m != 0 {
      var n, d := Abs(x.m), Abs(y.m);
      var exponent := Adjusted(x) - Adjusted(y);
      CompareScaled(n, d, x.e - exponent, y.e);
      assert x.e - exponent - y.e == Digits(d) - Digits(n);
    }
  }

  /** What reducing the chosen quotient keeps, when the quotient is finite. */
  lemma ReducedTimesDivisor(x: Decimal, y: Decimal, r: Decimal)
    requires SameValue(Product(r, y), x)
    ensures SameValue(Product(Reduce(r), y), x)
  {
    ReduceKeepsValue(r);
    ProductCongruent(Reduce(r), r, y);
    OrderAt(x, x, x.e);
    OrderCongruent(Product(Reduce(r), y), x, Product(r, y), x);
  }

  lemma NonTerminatingIsRounded(x: Decimal, y: Decimal)
    requires y.m != 0 && !HasFiniteQuotient(x, y)
    ensures CorrectlyRounded(34, x, y)
  {
    assert x.m != 0 by {
      ZeroTimes(x, y);
    }
    var n, d := Abs(x.m), Abs(y.m);
    SignificandInRange(34, n, d);
    var k := ScaleOf(n, d) + 33;
    RoundsToNearestEven(Num(n, k), Den(d, k));
  }

  /** The engines divide alike, errors included. */
  lemma EnginesDivideAlike(x: Decimal, y: Decimal, l: Limits)
    ensures GoDivide(x, y, l) == JsDivide(x, y, l)
    ensures GoDivide(x, y, l).DomainError? <==> y.m == 0
    ensures GoDivide(x, y, l).Ok? && HasFiniteQuotient(x, y) ==> SameValue(Product(GoDivide(x, y, l).value, y), x)
    ensures GoDivide(x, y, l).Ok? && !HasFiniteQuotient(x, y) ==>
              SameValue(GoDivide(x, y, l).value, Quotient(34, x, y)) && CorrectlyRounded(34, x, y)
  {
    if y.m != 0 {
      var p := ProbePrecision(x, y);
      SignificantDivideIsQuotient(x, y, p);
      SignificantDivideIsQuotient(x, y, 34);
      QuotientTimesDivisor(p, x, y);
      QuotientIsExactOrRounded(x, y);
      var r := ChosenQuotient(x, y);
      ReduceKeepsValue(r);
      if HasFiniteQuotient(x, y) {
        ReducedTimesDivisor(x, y, r);
      } else {
        NonTerminatingIsRounded(x, y);
      }
    }
  }

  /** The rounded quotient has p significant digits, nearest to the true one and even on a tie. */
  ghost predicate CorrectlyRounded(p: nat, x: Decimal, y: Decimal)
    requires p > 0
  {
    && x.m != 0 && y.m != 0
    && exists k: int ::
         var n, d := Num(Abs(x.m), k), Den(Abs(y.m), k);
         && Shift(d, p - 1) <= n < Shift(d, p)
         && NearestEven(n, d, Abs(Quotient(p, x, y).m))
         && Quotient(p, x, y).e == x.e - y.e - k
  }

  lemma ZeroTimes(x: Decimal, y: Decimal)
    ensures x.m == 0 ==> HasFiniteQuotient(x, y)
  {
    if x.m == 0 {
      var z := Product(Decimal(0, 0), y);
      ZeroValue(z);
      ZeroValue(x);
      OrderCongruent(z, x, Decimal(0, 0), Decimal(0, 0));
    }
  }

  lemma ProductCongruent(a: Decimal, b: Decimal, y: Decimal)
    requires SameValue(a, b)
    ensures SameValue(Product(a, y), Product(b, y))
  {
    var k := Min(a.e, b.e);
    ShiftTimes(y.m, a.m, a.e - k);
    ShiftTimes(y.m, b.m, b.e - k);
    Commute(y.m, a.m);
    Commute(y.m, b.m);
    OrderAt(Product(a, y), Product(b, y), k + y.e);
  }

  // ---------------------------------------------------------------------------
  // Square roots
  // ---------------------------------------------------------------------------

  /** Some finite decimal squared is x. */
  ghost predicate HasExactRoot(x: Decimal) {
    exists r: Decimal :: SameValue(Product(r, r), x)
  }

  /** What the library's square root promises: p digits, within half a unit of the last one. */
  predicate IsRoundedRoot(p: nat, x: Decimal, r: Decimal)
    requires p > 0
  {
    if x.m == 0 then r.m == 0
    else
      && r.m >= 0
      && Order(Decimal(Ten(2 * p - 2), 2 * r.e), x) <= 0
      && Order(x, Decimal(Ten(2 * p), 2 * r.e)) < 0
      && Order(Decimal(Square(Abs(2 * r.m - 1)), 2 * r.e), Decimal(4 * x.m, x.e)) <= 0
      && Order(Decimal(4 * x.m, x.e), Decimal(Square(2 * r.m + 1), 2 * r.e)) <= 0
  }

  function RootPrecision(x: Decimal): nat {
    Digits(Abs(x.m)) + 2
  }

  /** The root, before the limits: the probe if its square is x, and else the 34-digit root. */
  function ChosenRoot(x: Decimal, probe: Decimal, rounded: Decimal): Decimal {
    if SameValue(Product(probe, probe), x) then probe else rounded
  }

  lemma {:induction false} RootZeros(r: Decimal) returns (s: Decimal)
    requires r.m > 0
    ensures s.m > 0 && s.m % 10 != 0 && s.e >= r.e && r.m == Shift(s.m, s.e - r.e)
    decreases r.m
  {
    s := r;
    if r.m % 10 == 0 {
      s := RootZeros(Decimal(r.m / 10, r.e + 1));
    }
  }

  lemma SquareShift(t: nat, k: nat)
    ensures Square(Up(t, k)) == Shift(Square(t), 2 * k)
  {
    ShiftTimes(t, t, k);
    ShiftTimes(Shift(t, k), t, k);
    ShiftAdd(Square(t), k, k);
    Commute(t, Shift(t, k));
  }

  lemma MultipleOfTen(s: nat)
    ensures s % 10 == 0 <==> s % 2 == 0 && s % 5 == 0
  {
    ByTen(s);
    if s % 10 == 0 {
      TenIsTwiceFive(s);
    }
  }

  lemma ByTen(t: nat)
    ensures t % 2 == 0 && t % 5 == 0 ==> t % 10 == 0
  {
    var q, r := t / 10, t % 10;
    if t % 2 == 0 && t % 5 == 0 {
      var a, b := t / 2, t / 5;
      assert r == 2 * (a - 5 * q) && r == 5 * (b - 2 * q);
    }
  }

  lemma TenIsTwiceFive(s: nat)
    requires s % 10 == 0
    ensures s % 2 == 0 && s % 5 == 0
  {
    var q := s / 10;
    assert s == 2 * (5 * q);
    assert s == 5 * (2 * q);
  }

  lemma SquareMod(t: nat)
    requires t % 10 != 0
    ensures Square(t) % 10 != 0
  {
    MultipleOfTen(Square(t));
    MultipleOfTen(t);
    if Square(t) % 10 == 0 {
      if t % 2 != 0 {
        PrimeDivides(2, t, t);
      } else {
        PrimeDivides(5, t, t);
      }
    }
  }

  /** An exact root without trailing zeros has no more digits than the radicand. */
  lemma RootSize(c: nat, ex: int, t: nat, f: int)
    requires c > 0 && t > 0 && t % 10 != 0 && SameValue(Decimal(Square(t), 2 * f), Decimal(c, ex))
    ensures Square(t) <= c && t <= c
  {
    var i := ex - 2 * f;
    if i > 0 {
      assert Square(t) == Shift(c, i);
      ShiftIsMultiple(c, i);
      SquareMod(t);
    } else {
      assert Shift(Square(t), -i) == c;
      ShiftGrows(Square(t), 0, -i);
    }
    MulMonotone(1, t, t);
  }

  lemma SquareOrder(a: nat, b: nat)
    requires Square(a) <= Square(b)
    ensures a <= b
  {
    if a > b {
      MulStrict(b, a, a);
      MulMonotone(b, a, b);
    }
  }

  lemma TenSquared(p: nat)
    ensures Ten(2 * p) == Square(Ten(p))
  {
    TenAdd(p, p);
  }

  /** The exact root is a whole number of units of the probe's last place. */
  lemma RootIsCoarse(p: nat, x: Decimal, e: int, t: nat, f: int)
    requires p > 0 && x.m > 0 && t < Ten(p) && SameValue(Decimal(Square(t), 2 * f), x)
    requires Order(Decimal(Ten(2 * p - 2), 2 * e), x) <= 0
    ensures f >= e
  {
    if f < e {
      var big, root := Decimal(Ten(2 * p - 2), 2 * e), Decimal(Square(t), 2 * f);
      OrderAt(big, big, 2 * e);
      OrderCongruent(big, x, big, x);
      OrderSwap(x, root, big);
      OrderAt(big, root, 2 * f);
      ShiftGrows(Ten(2 * p - 2), 2, 2 * e - 2 * f);
      assert Shift(Ten(2 * p - 2), 2) == Ten(2 * p) by {
        assert Shift(Ten(2 * p - 2), 1) == Ten(2 * p - 1);
      }
      TenSquared(p);
      SquareOrder(Ten(p), t);
    }
  }

  /** Replacing a value by an equal one keeps the order. */
  lemma OrderSwap(x: Decimal, y: Decimal, z: Decimal)
    requires SameValue(y, x)
    ensures Order(z, x) == Order(z, y) && Order(x, z) == Order(y, z)
  {
    OrderAt(z, z, z.e);
    var k := Min(y.e, x.e);
    assert SameValue(x, y);
    OrderCongruent(z, x, z, y);
    OrderCongruent(x, z, y, z);
  }

  lemma NearestRoot(q: nat, t: nat)
    requires t > 0 && Square(Abs(2 * q - 1)) <= 4 * Square(t) <= Square(2 * q + 1)
    ensures q == t
  {
    assert 4 * Square(t) == Square(2 * t) by {
      Interchange(2, t, 2, t);
    }
    SquareOrder(Abs(2 * q - 1), 2 * t);
    SquareOrder(2 * t, 2 * q + 1);
  }

  lemma ExactRootIsFound(p: nat, x: Decimal, r: Decimal, t: nat, f: int)
    requires p > 0 && x.m > 0 && t > 0 && t < Ten(p) && SameValue(Decimal(Square(t), 2 * f), x)
    requires IsRoundedRoot(p, x, r)
    ensures SameValue(Product(r, r), x)
  {
    RootIsCoarse(p, x, r.e, t, f);
    var u := Up(t, f - r.e);
    SquareShift(t, f - r.e);
    SameScaled(Square(u), Square(t), 2 * r.e, 2 * (f - r.e));
    var exact := Decimal(Square(u), 2 * r.e);
    OrderSwap(x, Decimal(Square(t), 2 * f), exact);
    assert SameValue(exact, x);
    FourTimes(exact, x);
    var four := Decimal(4 * Square(u), 2 * r.e);
    OrderSwap(Decimal(4 * x.m, x.e), four, Decimal(Square(Abs(2 * r.m - 1)), 2 * r.e));
    OrderSwap(Decimal(4 * x.m, x.e), four, Decimal(Square(2 * r.m + 1), 2 * r.e));
    assert Square(Abs(2 * r.m - 1)) <= 4 * Square(u) <= Square(2 * r.m + 1);
    NearestRoot(r.m, u);
  }

  lemma FourTimes(x: Decimal, y: Decimal)
    requires SameValue(x, y)
    ensures SameValue(Decimal(4 * x.m, x.e), Decimal(4 * y.m, y.e))
  {
    var k := Min(x.e, y.e);
    ShiftTimes(4, x.m, x.e - k);
    ShiftTimes(4, y.m, y.e - k);
  }

  /** Whenever x is the square of a finite decimal the probe is that root; otherwise 34 digits are given. */
  lemma RootIsExactOrRounded(x: Decimal, probe: Decimal, rounded: Decimal)
    requires x.m >= 0
    requires IsRoundedRoot(RootPrecision(x), x, probe) && IsRoundedRoot(34, x, rounded)
    ensures HasExactRoot(x) ==> SameValue(Product(ChosenRoot(x, probe, rounded), ChosenRoot(x, probe, rounded)), x)
    ensures !HasExactRoot(x) ==> ChosenRoot(x, probe, rounded) == rounded && !SameValue(Product(rounded, rounded), x)
  {
    if x.m == 0 {
      ZeroValue(Product(probe, probe));
      ZeroValue(x);
      OrderCongruent(Product(probe, probe), x, Decimal(0, 0), Decimal(0, 0));
    } else if HasExactRoot(x) {
      var r: Decimal :| SameValue(Product(r, r), x);
      PositiveRoot(x, r);
      var a := Decimal(Abs(r.m), r.e);
      var s := RootZeros(a);
      SquareShift(s.m, s.e - r.e);
      SameScaled(Square(a.m), Square(s.m), 2 * r.e, 2 * (s.e - r.e));
      OrderSwap(Decimal(Square(a.m), 2 * r.e), Decimal(Square(s.m), 2 * s.e), x);
      RootSize(x.m, x.e, s.m, s.e);
      DigitsBound(x.m);
      PowMonotone(10, Digits(x.m), RootPrecision(x));
      ExactRootIsFound(RootPrecision(x), x, probe, s.m, s.e);
    }
  }

  /** What the library gives: a value that is the rounded root, however it is written. */
  ghost predicate RootTo(p: nat, x: Decimal, s: Decimal)
    requires p > 0
  {
    exists r: Decimal :: IsRoundedRoot(p, x, r) && SameValue(s, r)
  }

  /** The square-root branch with its refusals; `sqrt` is the library's root at a precision. */
  function SquareRoot(x: Decimal, l: Limits, sqrt: (nat, Decimal) -> Decimal): Outcome {
    if x.m < 0 then DomainError
    else if RootPrecision(x) > l.maxDigits then WorkLimit
    else Checked(Reduce(ChosenRoot(x, sqrt(RootPrecision(x), x), sqrt(34, x))), l)
  }

  lemma SameTransitive(a: Decimal, b: Decimal, c: Decimal)
    requires SameValue(a, b)
    ensures SameValue(b, a)
    ensures SameValue(b, c) <==> SameValue(a, c)
  {
    OrderAt(b, b, b.e);
    OrderAt(a, b, Min(a.e, b.e));
    OrderAt(b, a, Min(a.e, b.e));
    OrderAt(c, c, c.e);
    OrderCongruent(a, c, b, c);
  }

  lemma SquaresCongruent(a: Decimal, b: Decimal)
    requires SameValue(a, b)
    ensures SameValue(Product(a, a), Product(b, b))
  {
    ProductCongruent(a, b, a);
    ProductCongruent(a, b, b);
    assert Product(b, a) == Product(a, b);
    SameTransitive(Product(a, a), Product(b, a), Product(b, b));
  }

  /** A delivered root is exact when an exact one exists, and otherwise the 34-digit root; only negatives have none. */
  lemma SquareRootIsExactOrRounded(x: Decimal, l: Limits, sqrt: (nat, Decimal) -> Decimal)
    requires forall p: nat :: p > 0 && x.m >= 0 ==> RootTo(p, x, sqrt(p, x))
    ensures SquareRoot(x, l, sqrt).DomainError? <==> x.m < 0
    ensures x.m >= 0 && Digits(Abs(x.m)) + 2 > l.maxDigits ==> SquareRoot(x, l, sqrt).WorkLimit?
    ensures x.m >= 0 && Digits(Abs(x.m)) + 2 <= l.maxDigits ==>
              SquareRoot(x, l, sqrt) == Delivered(ChosenRoot(x, sqrt(Digits(Abs(x.m)) + 2, x), sqrt(34, x)), l)
    ensures SquareRoot(x, l, sqrt).Ok? && HasExactRoot(x) ==>
              SameValue(Product(SquareRoot(x, l, sqrt).value, SquareRoot(x, l, sqrt).value), x)
    ensures SquareRoot(x, l, sqrt).Ok? && !HasExactRoot(x) ==> SameValue(SquareRoot(x, l, sqrt).value, sqrt(34, x))
  {
    if SquareRoot(x, l, sqrt).Ok? {
      var s, t := sqrt(RootPrecision(x), x), sqrt(34, x);
      assert RootTo(RootPrecision(x), x, s) && RootTo(34, x, t);
      var r: Decimal :| IsRoundedRoot(RootPrecision(x), x, r) && SameValue(s, r);
      var q: Decimal :| IsRoundedRoot(34, x, q) && SameValue(t, q);
      RootIsExactOrRounded(x, r, q);
      RootChoice(x, s, t, r, q);
    }
  }

  lemma RootChoice(x: Decimal, s: Decimal, t: Decimal, r: Decimal, q: Decimal)
    requires SameValue(s, r) && SameValue(t, q)
    ensures var v, u := Reduce(ChosenRoot(x, s, t)), ChosenRoot(x, r, q);
            && SameValue(v, ChosenRoot(x, s, t))
            && (SameValue(Product(v, v), x) <==> SameValue(Product(u, u), x))
            && (SameValue(Product(r, r), x) <==> SameValue(Product(s, s), x))
  {
    SquaresCongruent(s, r);
    SquaresCongruent(t, q);
    SameTransitive(Product(s, s), Product(r, r), x);
    SameTransitive(Product(t, t), Product(q, q), x);
    var c := ChosenRoot(x, s, t);
    ReduceKeepsValue(c);
    SquaresCongruent(Reduce(c), c);
    SameTransitive(Product(Reduce(c), Reduce(c)), Product(c, c), x);
  }

  lemma PositiveRoot(x: Decimal, r: Decimal)
    requires x.m > 0 && SameValue(Product(r, r), x)
    ensures r.m != 0 && SameValue(Decimal(Square(Abs(r.m)), 2 * r.e), x)
  {
    assert Square(Abs(r.m)) == r.m * r.m;
    if r.m == 0 {
      var k := Min(2 * r.e, x.e);
      ShiftLinear(0, 0, 2 * r.e - k);
      ShiftGrows(x.m, 0, x.e - k);
    }
  }

  // ---------------------------------------------------------------------------
  // Integer powers
  // ---------------------------------------------------------------------------

  function IntPow(m: int, n: nat): int {
    if n == 0 then 1 else m * IntPow(m, n - 1)
  }

  /** x to the power n, exactly. */
  function Power(x: Decimal, n: nat): Decimal {
    Decimal(IntPow(x.m, n), x.e * n)
  }

  lemma {:induction false} IntPowAdd(m: int, a: nat, b: nat)
    ensures IntPow(m, a + b) == IntPow(m, a) * IntPow(m, b)
  {
    if a > 0 {
      IntPowAdd(m, a - 1, b);
      Assoc(m, IntPow(m, a - 1), IntPow(m, b));
    }
  }

  lemma PowerAdd(x: Decimal, a: nat, b: nat)
    ensures Product(Power(x, a), Power(x, b)) == Power(x, a + b)
  {
    IntPowAdd(x.m, a, b);
    Commute(x.e, a);
    Commute(x.e, b);
    Distribute(a, b, x.e);
    Commute(a + b, x.e);
  }

  lemma {:induction false} IntPowNonZero(m: int, n: nat)
    requires m != 0
    ensures IntPow(m, n) != 0
  {
    if n > 0 {
      IntPowNonZero(m, n - 1);
    }
  }

  lemma DigitsOfProduct(a: nat, b: nat)
    requires a > 0 && b > 0
    ensures Digits(a) + Digits(b) - 1 <= Digits(a * b) <= Digits(a) + Digits(b)
  {
    hide Digits, Ten;
    var x, y := Digits(a), Digits(b);
    DigitsBound(a);
    DigitsBound(b);
    ProductBound(a, b, x, y);
    ProductAtLeast(a, b, x - 1, y - 1);
    DigitsBetween(a * b, x - 1 + (y - 1), x + y);
  }

  lemma ProductAtLeast(a: nat, b: nat, x: nat, y: nat)
    requires Ten(x) <= a && Ten(y) <= b
    ensures Ten(x + y) <= a * b
  {
    TenAdd(x, y);
    hide Ten;
    MulMonotone(Ten(x), a, Ten(y));
    MulMonotone(Ten(y), b, a);
    Commute(Ten(y), a);
    Commute(b, a);
  }

  lemma DigitsBetween(n: nat, x: nat, y: nat)
    requires Ten(x) <= n < Ten(y)
    ensures x < Digits(n) <= y
  {
    PowPositive(10, x);
    DigitsBound(n);
    hide Digits, Pow;
    if Digits(n) > y {
      PowMonotone(10, y, Digits(n) - 1);
    } else if Digits(n) <= x {
      PowMonotone(10, Digits(n), x);
    }
  }

  /** One more factor moves the leading digit by the factor's, and at most one place further. */
  lemma AdjustedStep(x: Decimal, k: nat)
    requires x.m != 0
    ensures Adjusted(Power(x, k)) + Adjusted(x) <= Adjusted(Power(x, k + 1)) <= Adjusted(Power(x, k)) + Adjusted(x) + 1
    ensures Digits(Abs(Power(x, k).m)) <= Digits(Abs(Power(x, k + 1).m))
  {
    IntPowNonZero(x.m, k);
    AbsProduct(x.m, IntPow(x.m, k));
    DigitsOfProduct(Abs(x.m), Abs(IntPow(x.m, k)));
    assert x.e * (k + 1) == x.e * k + x.e;
  }

  lemma {:induction false} AdjustedSign(x: Decimal, k: nat)
    requires x.m != 0
    ensures Adjusted(x) >= 0 ==> Adjusted(Power(x, k)) >= 0
    ensures Adjusted(x) < 0 ==> Adjusted(Power(x, k)) <= 0
  {
    if k == 0 {
      assert x.e * 0 == 0;
    } else {
      AdjustedSign(x, k - 1);
      AdjustedStep(x, k - 1);
    }
  }

  /** Powers only leave the limits; they never come back. */
  lemma {:induction false} LimitsShrink(x: Decimal, k: nat, n: nat, l: Limits)
    requires k <= n && l.maxDigits >= 1 && (x.m == 0 ==> k > 0)
    requires WithinLimits(Power(x, n), l)
    ensures WithinLimits(Power(x, k), l)
    decreases n - k
  {
    if x.m != 0 && k < n {
      LimitsShrink(x, k + 1, n, l);
      AdjustedStep(x, k);
      AdjustedSign(x, k);
      IntPowNonZero(x.m, k + 1);
    }
  }

  /** The loop of repeated squaring. */
  method RaiseTo(x: Decimal, n: nat, l: Limits) returns (o: Outcome)
    requires l.maxDigits >= 1
    ensures o == if n == 0 || WithinLimits(Power(x, n), l) then Ok(Power(x, n)) else WorkLimit
  {
    var r, base := Decimal(1, 0), x;
    var i := n;
    ghost var a, b := 0, 1;
    assert x.e * 0 == 0 && x.e * 1 == x.e;
    while i > 0
      invariant r == Power(x, a) && base == Power(x, b) && a + b * i == n && b > 0
      invariant n > 0 && i == 0 ==> WithinLimits(r, l)
    {
      if i % 2 == 1 {
        PowerAdd(x, a, b);
        r := Product(r, base);
        a := a + b;
        HalfLeft(n, a, b, i);
        if !WithinLimits(r, l) {
          if WithinLimits(Power(x, n), l) {
            LimitsShrink(x, a, n, l);
          }
          return WorkLimit;
        }
      }
      HalfEven(n, a, b, i);
      i := i / 2;
      if i > 0 {
        PowerAdd(x, b, b);
        base := Product(base, base);
        b := b + b;
        BaseFits(a, b, i);
        if !WithinLimits(base, l) {
          if WithinLimits(Power(x, n), l) {
            LimitsShrink(x, b, n, l);
          }
          return WorkLimit;
        }
      }
    }
    return Ok(r);
  }

  lemma HalfLeft(n: nat, a: nat, b: nat, i: nat)
    requires i % 2 == 1 && (a - b) + b * i == n && b > 0
    ensures a + (b + b) * (i / 2) == n && a <= n
  {
    assert i == 2 * (i / 2) + 1;
    assert b * (2 * (i / 2) + 1) == (b + b) * (i / 2) + b;
  }

  lemma HalfEven(n: nat, a: nat, b: nat, i: nat)
    requires if i % 2 == 0 then a + b * i == n else a + (b + b) * (i / 2) == n
    ensures a + (b + b) * (i / 2) == n
  {
    if i % 2 == 0 {
      assert i == 2 * (i / 2);
      assert b * (2 * (i / 2)) == (b + b) * (i / 2);
    }
  }

  lemma BaseFits(a: nat, b: nat, i: nat)
    requires i > 0
    ensures b <= a + b * i
  {
    MulMonotone(1, i, b);
  }

  /** x to an integer power of either sign: the exact power, or the quotient of 1 by it. */
  function IntegerPower(x: Decimal, i: int, l: Limits): Outcome {
    var n := Abs(i);
    if n > l.maxDigits || !(n == 0 || WithinLimits(Power(x, n), l)) then WorkLimit
    else if i < 0 then GoDivide(Decimal(1, 0), Power(x, n), l)
    else Checked(Reduce(Power(x, n)), l)
  }

  method RaiseToInteger(x: Decimal, i: int, l: Limits) returns (o: Outcome)
    requires l.maxDigits >= 1
    ensures o == IntegerPower(x, i, l)
  {
    if i > l.maxDigits || -i > l.maxDigits {
      return WorkLimit;
    }
    var negative := i < 0;
    var r := RaiseTo(x, if negative then -i else i, l);
    if !r.Ok? {
      return r;
    }
    if negative {
      return GoDivide(Decimal(1, 0), r.value, l);
    }
    return Checked(Reduce(r.value), l);
  }

  /** A delivered power is exact; a negative one is exact whenever it can be and else rounded to 34 digits. */
  lemma PowersAreExact(x: Decimal, i: int, l: Limits)
    requires IntegerPower(x, i, l).Ok?
    ensures i >= 0 ==> SameValue(IntegerPower(x, i, l).value, Power(x, i))
    ensures i < 0 && HasFiniteQuotient(Decimal(1, 0), Power(x, -i)) ==>
              SameValue(Product(IntegerPower(x, i, l).value, Power(x, -i)), Decimal(1, 0))
    ensures i < 0 && !HasFiniteQuotient(Decimal(1, 0), Power(x, -i)) ==>
              && Power(x, -i).m != 0
              && SameValue(IntegerPower(x, i, l).value, Quotient(34, Decimal(1, 0), Power(x, -i)))
              && CorrectlyRounded(34, Decimal(1, 0), Power(x, -i))
  {
    if i >= 0 {
      ReduceKeepsValue(Power(x, i));
    } else {
      EnginesDivideAlike(Decimal(1, 0), Power(x, -i), l);
    }
  }

  // ---------------------------------------------------------------------------
  // When a result is refused
  // ---------------------------------------------------------------------------

  /** The result without trailing zeros, if it is within the limits. */
  function Delivered(x: Decimal, l: Limits): Outcome {
    Checked(Reduce(x), l)
  }

  /** Within the limits a result is delivered, and outside them it is refused. */
  lemma LimitsDecide(x: Decimal, l: Limits)
    ensures Delivered(x, l) == if WithinLimits(Reduce(x), l) then Ok(Reduce(x)) else WorkLimit
    ensures WithinLimits(x, l) ==> Delivered(x, l).Ok?
  {
    if WithinLimits(x, l) {
      ReducedStaysWithin(x, l);
    }
    hide Reduce, WithinLimits;
  }

  lemma {:induction false} ReducedStaysWithin(x: Decimal, l: Limits)
    requires WithinLimits(x, l)
    ensures WithinLimits(Reduce(x), l)
    decreases Abs(x.m)
  {
    if x.m != 0 && x.m % 10 == 0 {
      assert Abs(x.m) / 10 == Abs(x.m / 10);
      ReducedStaysWithin(Decimal(x.m / 10, x.e + 1), l);
    }
  }

  /** Reducing leaves no trailing zero, the same value, and one form for zero. */
  lemma {:induction false} ReducedForm(x: Decimal)
    ensures SameValue(Reduce(x), x)
    ensures Reduce(x) == Decimal(0, 0) || Reduce(x).m % 10 != 0
    ensures x.m != 0 ==> Reduce(x).m != 0
    decreases Abs(x.m)
  {
    ReduceKeepsValue(x);
    if x.m != 0 && x.m % 10 == 0 {
      ReducedForm(Decimal(x.m / 10, x.e + 1));
    }
  }

  /** The limits bound the digits and the power of ten that the number reaches. */
  lemma LimitsMean(x: Decimal, l: Limits)
    ensures WithinLimits(x, l) <==>
            || x.m == 0
            || (Abs(x.m) < Ten(l.maxDigits)
                && Order(Decimal(1, -(l.maxExponent as int)), Decimal(Abs(x.m), x.e)) <= 0
                && Order(Decimal(1, l.maxExponent + 1), Decimal(Abs(x.m), x.e)) > 0)
  {
    hide Order, Digits, Ten;
    if x.m != 0 {
      PowersReached(Abs(x.m), x.e, -(l.maxExponent as int));
      PowersReached(Abs(x.m), x.e, l.maxExponent + 1);
      TensReached(Abs(x.m), l.maxDigits);
    }
  }

  /** Division is refused for its probe, which needs so many digits, or else only for its result. */
  lemma DivisionRefuses(x: Decimal, y: Decimal, l: Limits)
    requires y.m != 0
    ensures Digits(Abs(x.m)) + 4 * Digits(Abs(y.m)) + 2 > l.maxDigits ==> GoDivide(x, y, l) == WorkLimit
    ensures Digits(Abs(x.m)) + 4 * Digits(Abs(y.m)) + 2 <= l.maxDigits ==> GoDivide(x, y, l) == Delivered(ChosenQuotient(x, y), l)
  {
    hide Digits, Reduce, Quotient, Inexact;
  }

  /** A power is refused for its exponent, for itself, or, when negative, as division refuses it. */
  lemma PowersRefuse(x: Decimal, i: int, l: Limits)
    ensures i > l.maxDigits || -i > l.maxDigits ==> IntegerPower(x, i, l) == WorkLimit
    ensures i == 0 ==> IntegerPower(x, i, l) == Delivered(Decimal(1, 0), l)
    ensures 0 < i <= l.maxDigits ==>
              IntegerPower(x, i, l) == if WithinLimits(Power(x, i), l) then Delivered(Power(x, i), l) else WorkLimit
    ensures 0 < -i <= l.maxDigits ==>
              IntegerPower(x, i, l) ==
              if WithinLimits(Power(x, -i), l) then GoDivide(Decimal(1, 0), Power(x, -i), l) else WorkLimit
  {
    hide Reduce, WithinLimits, GoDivide;
    PowersStart(x);
  }

  /** The first powers; `PowerAdd` gives the others. */
  lemma PowersStart(x: Decimal)
    ensures Power(x, 0) == Decimal(1, 0) && Power(x, 1) == x
  {
    assert x.e * 0 == 0 && x.e * 1 == x.e;
    assert IntPow(x.m, 1) == x.m * IntPow(x.m, 0);
  }

  /** The product of two decimals is the product of their values, in whatever units. */
  lemma ProductsMultiply(x: Decimal, y: Decimal, j: int, k: int)
    requires j <= x.e && k <= y.e
    ensures Scaled(Product(x, y), j + k) == Scaled(x, j) * Scaled(y, k)
  {
    hide Shift;
    var a, b := x.e - j, y.e - k;
    ShiftTimes(x.m, y.m, a + b);
    ShiftAdd(y.m, b, a);
    ShiftTimes(x.m, Shift(y.m, b), a);
    ShiftTimes(Shift(y.m, b), x.m, a);
    Commute(x.m, Shift(y.m, b));
    Commute(Shift(y.m, b), Shift(x.m, a));
  }
}
