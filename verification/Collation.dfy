/**
 String order: the bytes of one engine and the code points of the other.
 */
module Collation {
  import opened Wtf8
  import opened Powers

  /** Lexicographic order, as a sign. */
  function Lex(a: seq<int>, b: seq<int>): (sign: int)
    ensures -1 <= sign <= 1
  {
    if a == [] then (if b == [] then 0 else -1)
    else if b == [] then 1
    else if a[0] < b[0] then -1
    else if a[0] > b[0] then 1
    else Lex(a[1..], b[1..])
  }

  /** A proper prefix comes first, and otherwise the smaller element at the first difference decides. */
  ghost predicate Precedes(a: seq<int>, b: seq<int>) {
    || (|a| < |b| && a == b[..|a|])
    || (exists k :: 0 <= k < |a| && k < |b| && a[..k] == b[..k] && a[k] < b[k])
  }

  lemma {:induction false} LexMeans(a: seq<int>, b: seq<int>)
    ensures Lex(a, b) == -1 <==> Precedes(a, b)
    ensures Lex(a, b) == 1 <==> Precedes(b, a)
  {
    if Precedes(a, b) {
      PrecedesFirst(a, b);
    }
    if Precedes(b, a) {
      PrecedesFirst(b, a);
    }
    LexIsTotal(a, b);
    if Lex(a, b) == -1 {
      LexFollows(a, b);
    } else if Lex(a, b) == 1 {
      LexFollows(b, a);
    }
  }

  lemma PrecedesFirst(a: seq<int>, b: seq<int>)
    requires Precedes(a, b)
    ensures Lex(a, b) == -1
  {
    if |a| < |b| && a == b[..|a|] {
      assert a + [] == a && b[..|a|] + b[|a|..] == b;
      LexSkips(a, [], b[|a|..]);
    } else {
      var k :| 0 <= k < |a| && k < |b| && a[..k] == b[..k] && a[k] < b[k];
      assert a + [] == a && b + [] == b;
      LexDecides(a, b, [], [], k);
    }
  }

  lemma {:induction false} LexFollows(a: seq<int>, b: seq<int>)
    requires Lex(a, b) == -1
    ensures Precedes(a, b)
  {
    if a != [] && a[0] == b[0] {
      var x, y := a[1..], b[1..];
      LexFollows(x, y);
      assert a == [a[0]] + x && b == [a[0]] + y;
      if |x| < |y| && x == y[..|x|] {
        assert b[..|a|] == [a[0]] + y[..|x|];
      } else {
        var k :| 0 <= k < |x| && k < |y| && x[..k] == y[..k] && x[k] < y[k];
        assert a[..k + 1] == [a[0]] + x[..k] && b[..k + 1] == [a[0]] + y[..k];
        assert a[k + 1] < b[k + 1];
      }
    } else if a != [] {
      assert a[..0] == b[..0];
    }
  }

  lemma {:induction false} LexSkips(front: seq<int>, a: seq<int>, b: seq<int>)
    ensures Lex(front + a, front + b) == Lex(a, b)
  {
    if front == [] {
      assert front + a == a && front + b == b;
    } else {
      assert (front + a)[1..] == front[1..] + a && (front + b)[1..] == front[1..] + b;
      LexSkips(front[1..], a, b);
    }
  }

  lemma {:induction false} LexIsTotal(a: seq<int>, b: seq<int>)
    ensures Lex(a, b) == 0 <==> a == b
    ensures Lex(b, a) == 0 - Lex(a, b)
  {
    if a != [] && b != [] {
      LexIsTotal(a[1..], b[1..]);
      assert a == [a[0]] + a[1..] && b == [b[0]] + b[1..];
    }
  }

  lemma {:induction false} LexIsTransitive(a: seq<int>, b: seq<int>, c: seq<int>)
    requires Lex(a, b) <= 0 && Lex(b, c) <= 0
    ensures Lex(a, c) <= 0
    ensures Lex(a, b) < 0 || Lex(b, c) < 0 ==> Lex(a, c) < 0
  {
    if a != [] && b != [] && c != [] && a[0] == b[0] == c[0] {
      LexIsTransitive(a[1..], b[1..], c[1..]);
    }
  }

  /** The first byte where two encodings differ orders them as the codes are ordered. */
  lemma FirstDifference(c: Code, d: Code) returns (k: nat)
    requires c < d
    ensures k < |Encode(c)| && k < |Encode(d)| && Encode(c)[..k] == Encode(d)[..k] && Encode(c)[k] < Encode(d)[k]
  {
    Base64(c);
    Base64(d);
    if |Encode(c)| != |Encode(d)| || |Encode(c)| == 1 {
      k := 0;
    } else {
      k := |Encode(c)| - 1 - (if D3(c) != D3(d) then 3 else if D2(c) != D2(d) then 2 else if D1(c) != D1(d) then 1 else 0);
    }
  }

  lemma LexDecides(e: seq<int>, f: seq<int>, x: seq<int>, y: seq<int>, k: nat)
    requires k < |e| && k < |f| && e[..k] == f[..k] && e[k] < f[k]
    ensures Lex(e + x, f + y) == -1 && Lex(f + y, e + x) == 1
  {
    var front, a, b := e[..k], e[k..] + x, f[k..] + y;
    assert e + x == front + a && f + y == front + b;
    LexSkips(front, a, b);
    LexSkips(front, b, a);
  }

  /** The byte order of encodings is the order of the codes. */
  lemma {:induction false} EncodingKeepsOrder(cs: seq<Code>, ds: seq<Code>)
    ensures Lex(EncodeAll(cs), EncodeAll(ds)) == Lex(cs, ds)
  {
    if cs != [] && ds != [] {
      var e, f, x, y := Encode(cs[0]), Encode(ds[0]), EncodeAll(cs[1..]), EncodeAll(ds[1..]);
      if cs[0] < ds[0] {
        var k := FirstDifference(cs[0], ds[0]);
        LexDecides(e, f, x, y, k);
      } else if cs[0] > ds[0] {
        var k := FirstDifference(ds[0], cs[0]);
        LexDecides(f, e, y, x, k);
      } else {
        LexSkips(e, x, y);
        EncodingKeepsOrder(cs[1..], ds[1..]);
      }
    }
  }

  function Width(c: Code): nat {
    if c > 0xFFFF then 2 else 1
  }

  lemma StepBoth(left: seq<Unit>, right: seq<Unit>, i: nat)
    requires i < |left| && i < |right|
    ensures var c, d := CodePointAt(left, i), CodePointAt(right, i);
            && i + Width(c) <= |left| && i + Width(d) <= |right|
            && Lex(Pair(left[i..]), Pair(right[i..])) ==
               if c != d then Sign(c - d) else Lex(Pair(left[i + Width(c)..]), Pair(right[i + Width(c)..]))
  {
    PairStep(left, i);
    PairStep(right, i);
    var c, d := CodePointAt(left, i), CodePointAt(right, i);
    if c == d {
      LexSkips([c], Pair(left[i + Width(c)..]), Pair(right[i + Width(c)..]));
    }
  }

  method CompareStrings(left: seq<Unit>, right: seq<Unit>) returns (order: int)
    ensures Sign(order) == Lex(Pair(left), Pair(right))
    ensures order < 0 <==> Precedes(Pair(left), Pair(right))
    ensures order == 0 <==> Pair(left) == Pair(right)
  {
    LexMeans(Pair(left), Pair(right));
    LexIsTotal(Pair(left), Pair(right));
    hide Precedes;
    var i, j := 0, 0;
    while i < |left| && j < |right|
      invariant 0 <= i <= |left| && i == j <= |right|
      invariant Lex(Pair(left[i..]), Pair(right[j..])) == Lex(Pair(left), Pair(right))
    {
      var a, b := CodePointAt(left, i), CodePointAt(right, j);
      StepBoth(left, right, i);
      if a != b {
        order := a as int - b as int;
        return;
      }
      i := i + if a > 0xFFFF then 2 else 1;
      j := j + if b > 0xFFFF then 2 else 1;
    }
    return |left| - |right|;
  }

  /** On canonical strings the two engines order alike, and so does the order of their codes. */
  lemma EnginesOrderAlike(s: seq<Byte>, t: seq<Byte>)
    requires WellFormed(s) && WellFormed(t)
    ensures Lex(s, t) == Lex(Pair(UnitsOf(s)), Pair(UnitsOf(t)))
    ensures Lex(s, t) == 0 <==> UnitsOf(s) == UnitsOf(t)
  {
    BytesSurvive(s);
    BytesSurvive(t);
    PairOfSplit(Codes(s));
    PairOfSplit(Codes(t));
    EncodingKeepsOrder(Codes(s), Codes(t));
    LexIsTotal(s, t);
  }

  /** Plain comparison of the units would not do: U+FFFD is below U+10000 but its unit is not. */
  lemma UnitsOrderDiffers()
    ensures Lex(Pair([0xFFFD]), Pair(Split(0x1_0000))) == -1 && Lex([0xFFFD], Split(0x1_0000)) == 1
  {
    hide Lex, Pair;
    assert Split(0x1_0000) == [0xD800, 0xDC00];
    PairOfTwo();
    LexDecides([0xFFFD], [0x1_0000], [], [], 0);
    LexDecides([0xD800], [0xFFFD], [0xDC00], [], 0);
    assert [0xFFFD] + [] == [0xFFFD] && [0x1_0000] + [] == [0x1_0000] && [0xD800] + [0xDC00] == [0xD800, 0xDC00];
  }

  lemma PairOfTwo()
    ensures Pair([0xFFFD]) == [0xFFFD] && Pair([0xD800, 0xDC00]) == [0x1_0000]
  {
    assert [0xFFFD][1..] == [] && [0xD800, 0xDC00][2..] == [];
  }
}
