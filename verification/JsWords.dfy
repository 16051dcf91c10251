/**
 English number words in the JavaScript engine, related to the Go printer and parser.

 One recursion writes cardinals and ordinals alike, and one regular expression cuts a text into words;
 the magnitudes are stacked as in Go. Both engines print the same texts and read them back alike.

 Letter case is left out: the words of the vocabulary are lower-case throughout.
 */
module JsWords {
  import opened Options
  import opened Powers
  import opened Numerals
  import opened Words

  /** The endings by which tens, hundred and the magnitudes form their ordinals. */
  ghost predicate Regular(v: Vocabulary) {
    && Proper(v) && "and" !in v.ordinals
    && (forall i :: 20 <= i < HUNDRED ==> v.ordinals[i] == Stem(v.cardinals[i]) + "ieth")
    && (forall i :: HUNDRED <= i < 33 ==> v.ordinals[i] == v.cardinals[i] + "th")
  }

  function Stem(w: string): string {
    if w == "" then "" else w[..|w| - 1]
  }

  // ---------------------------------------------------------------------------
  // Printing
  // ---------------------------------------------------------------------------

  function Written(v: Vocabulary, i: nat, ord: bool): string
    requires |v.cardinals| == |v.ordinals| == 33 && i < 33
  {
    if ord then v.ordinals[i] else v.cardinals[i]
  }

  /** The magnitude by the decimal exponent, up to the largest word. */
  function MagnitudeByExponent(n: nat): nat
    requires n >= 1000
  {
    var mag := (Digits(n) - 1) / 3;
    HUNDRED + if mag > 4 then 4 else mag
  }

  lemma MagnitudesAgree(n: nat)
    requires n >= 1000
    ensures MagnitudeByExponent(n) == Magnitude(n)
  {
    DigitsOfThousands(n);
    var a := n / 1000;
    assert a >= 1000 <==> n >= 1_000_000;
    if a >= 1000 {
      DigitsOfThousands(a);
      var b := a / 1000;
      assert b >= 1000 <==> n >= 1_000_000_000;
      if b >= 1000 {
        DigitsOfThousands(b);
        var c := b / 1000;
        assert c >= 1000 <==> n >= 1_000_000_000_000;
        if c >= 1000 {
          DigitsOfThousands(c);
        } else {
          SmallDigits(c);
        }
      } else {
        SmallDigits(b);
      }
    } else {
      SmallDigits(a);
    }
  }

  lemma SmallDigits(n: nat)
    requires n < 1000
    ensures 1 <= Digits(n) <= 3
  {
    if n >= 10 {
      assert Digits(n) == 1 + Digits(n / 10);
      if n / 10 >= 10 {
        assert Digits(n / 10) == 1 + Digits(n / 10 / 10);
        assert n / 10 / 10 < 10;
      }
    }
  }

  lemma PartsShrink(n: nat)
    requires n >= 1000
    ensures n / Worth(Magnitude(n)) < n && n % Worth(Magnitude(n)) < n
  {
  }

  function Connective(n: nat): Glue {
    if n < 100 then And else Comma
  }

  /** The one printing recursion; `prev` asks for a connective, `ord` for an ordinal. */
  function Lookup(v: Vocabulary, n: nat, prev: bool, ord: bool): string
    requires |v.cardinals| == |v.ordinals| == 33
    decreases n, 1
  {
    (if prev then Spelled(Connective(n)) else "") + Unconnected(v, n, ord)
  }

  function Unconnected(v: Vocabulary, n: nat, ord: bool): string
    requires |v.cardinals| == |v.ordinals| == 33
    decreases n, 0
  {
    if n < 20 then Written(v, n, ord)
    else if n < 100 then
      var tens := v.cardinals[18 + n / 10];
      if n % 10 > 0 then tens + "-" + Lookup(v, n % 10, false, ord)
      else if ord then Stem(tens) + "ieth" else tens
    else if n < 1000 then
      var words := v.cardinals[n / 100] + " " + v.cardinals[HUNDRED];
      if n % 100 > 0 then words + Lookup(v, n % 100, true, ord) else if ord then words + "th" else words
    else
      MagnitudesAgree(n);
      PartsShrink(n);
      var m := MagnitudeByExponent(n);
      var words := Lookup(v, n / Worth(m), false, false) + " " + v.cardinals[m];
      if n % Worth(m) > 0 then words + Lookup(v, n % Worth(m), true, ord) else if ord then words + "th" else words
  }

  /** Both engines write the same cardinals. */
  lemma {:induction false} CardinalsAgree(v: Vocabulary, n: nat)
    requires |v.cardinals| == |v.ordinals| == 33
    ensures Unconnected(v, n, false) == Text(v, n)
  {
    if n >= 1000 {
      MagnitudesAgree(n);
      var m := Magnitude(n);
      CardinalsAgree(v, n / Worth(m));
      CardinalsAgree(v, n % Worth(m));
      BigNumber(v, n);
    } else if n >= 20 {
      SmallNumber(v, n);
    }
  }

  lemma SmallNumber(v: Vocabulary, n: nat)
    requires |v.cardinals| == |v.ordinals| == 33 && n < 1000
    ensures Unconnected(v, n, false) == BelowThousand(v, n)
  {
    if 20 <= n < 100 && n % 10 > 0 {
      assert Lookup(v, n % 10, false, false) == v.cardinals[n % 10];
    } else if n >= 100 && n % 100 > 0 {
      var words := v.cardinals[n / 100] + " " + v.cardinals[HUNDRED];
      SmallNumber(v, n % 100);
      assert Lookup(v, n % 100, true, false) == " and " + BelowHundred(v, n % 100);
      assert words + (" and " + BelowHundred(v, n % 100)) == words + " and " + BelowHundred(v, n % 100);
    }
  }

  lemma BigNumber(v: Vocabulary, n: nat)
    requires |v.cardinals| == |v.ordinals| == 33 && n >= 1000
    requires var m := Magnitude(n);
             && Unconnected(v, n / Worth(m), false) == Text(v, n / Worth(m))
             && Unconnected(v, n % Worth(m), false) == Text(v, n % Worth(m))
    ensures Unconnected(v, n, false) == Text(v, n)
  {
    MagnitudesAgree(n);
    var m := Magnitude(n);
    var r := n % Worth(m);
    assert Lookup(v, n / Worth(m), false, false) == Text(v, n / Worth(m));
    if r > 0 {
      var glue := if r < 100 then " and " else ", ";
      assert Lookup(v, r, true, false) == glue + Text(v, r);
      assert Head(v, n) + (glue + Text(v, r)) == Head(v, n) + glue + Text(v, r);
    }
  }

  ghost predicate Front(s: string) {
    s == "" || s[|s| - 1] == ' ' || s[|s| - 1] == '-'
  }

  lemma Suffixed(front: string, w: string, a: string, b: string)
    requires b == w + a
    ensures front + w + a == front + b
  {
  }

  /** The ordinal text is the cardinal one with its last word exchanged. */
  lemma {:induction false} LastWordExchanged(v: Vocabulary, n: nat) returns (front: string, i: nat)
    requires Regular(v)
    ensures i < 33 && Front(front)
    ensures Unconnected(v, n, false) == front + v.cardinals[i] && Unconnected(v, n, true) == front + v.ordinals[i]
    decreases n
  {
    if n < 20 {
      front, i := "", n;
    } else if n < 100 {
      front, i := TensExchanged(v, n);
    } else if n < 1000 {
      var words := v.cardinals[n / 100] + " " + v.cardinals[HUNDRED];
      if n % 100 > 0 {
        var inner;
        inner, i := LastWordExchanged(v, n % 100);
        front := ConnectedFront(v, words, n % 100, inner, i);
      } else {
        front, i := v.cardinals[n / 100] + " ", HUNDRED;
        Suffixed(front, v.cardinals[HUNDRED], "th", v.ordinals[HUNDRED]);
      }
    } else {
      MagnitudesAgree(n);
      var m := Magnitude(n);
      var phrase := Lookup(v, n / Worth(m), false, false);
      if n % Worth(m) > 0 {
        var inner;
        inner, i := LastWordExchanged(v, n % Worth(m));
        front := ConnectedFront(v, phrase + " " + v.cardinals[m], n % Worth(m), inner, i);
      } else {
        front, i := phrase + " ", m;
        Suffixed(front, v.cardinals[m], "th", v.ordinals[m]);
      }
    }
  }

  lemma TensExchanged(v: Vocabulary, n: nat) returns (front: string, i: nat)
    requires Regular(v) && 20 <= n < 100
    ensures i < 33 && Front(front)
    ensures Unconnected(v, n, false) == front + v.cardinals[i] && Unconnected(v, n, true) == front + v.ordinals[i]
  {
    if n % 10 > 0 {
      front, i := v.cardinals[18 + n / 10] + "-", n % 10;
      assert Unconnected(v, n % 10, false) == v.cardinals[i] && Unconnected(v, n % 10, true) == v.ordinals[i];
      assert Lookup(v, n % 10, false, false) == v.cardinals[i];
      assert Lookup(v, n % 10, false, true) == v.ordinals[i];
    } else {
      front, i := "", 18 + n / 10;
    }
  }

  lemma ConnectedFront(v: Vocabulary, words: string, n: nat, inner: string, i: nat) returns (front: string)
    requires Regular(v) && i < 33 && Front(inner)
    requires Unconnected(v, n, false) == inner + v.cardinals[i] && Unconnected(v, n, true) == inner + v.ordinals[i]
    ensures Front(front)
    ensures words + Lookup(v, n, true, false) == front + v.cardinals[i]
    ensures words + Lookup(v, n, true, true) == front + v.ordinals[i]
  {
    var glue := Spelled(Connective(n));
    front := words + glue + inner;
    Regrouped(words, glue, inner, v.cardinals[i]);
    Regrouped(words, glue, inner, v.ordinals[i]);
  }

  lemma Regrouped(a: string, b: string, c: string, d: string)
    ensures a + (b + (c + d)) == a + b + c + d
  {
  }

  /** The engines write the same words, cardinal and ordinal. */
  lemma EnginesWriteAlike(v: Vocabulary, n: nat)
    requires Regular(v)
    ensures Lookup(v, n, false, false) == Text(v, n)
    ensures Lookup(v, n, false, true) == Ordinal(v, Text(v, n))
  {
    CardinalsAgree(v, n);
    var front, i := LastWordExchanged(v, n);
    OrdinalOf(v, front, i);
    assert Lookup(v, n, false, false) == Unconnected(v, n, false);
    assert Lookup(v, n, false, true) == Unconnected(v, n, true);
  }

  // ---------------------------------------------------------------------------
  // Cutting a text into words
  // ---------------------------------------------------------------------------

  /** White space of the host's regular expressions. */
  predicate Blank(c: char) {
    || c == ' ' || '\t' <= c <= '\r' || c == '\U{00A0}' || c == '\U{1680}' || '\U{2000}' <= c <= '\U{200A}'
    || c == '\U{2028}' || c == '\U{2029}' || c == '\U{202F}' || c == '\U{205F}' || c == '\U{3000}' || c == '\U{FEFF}'
  }

  function Kept(word: string): seq<string> {
    if word == "" then [] else [word]
  }

  /** A comma and a blank, an `and` between blanks, and otherwise a blank, a backslash or a hyphen separate. */
  function Cut(s: string, word: string): seq<string>
    decreases |s|
  {
    if s == "" then Kept(word)
    else if |s| >= 2 && s[0] == ',' && Blank(s[1]) then Kept(word) + Cut(s[2..], "")
    else if |s| >= 5 && Blank(s[0]) && s[1..4] == "and" && Blank(s[4]) then Kept(word) + Cut(s[5..], "")
    else if Blank(s[0]) || s[0] == '\\' || s[0] == '-' then Kept(word) + Cut(s[1..], "")
    else Cut(s[1..], word + [s[0]])
  }

  lemma {:induction false} CutWord(w: string, t: string, acc: string)
    requires AllLetters(w)
    ensures Cut(w + t, acc) == Cut(t, acc + w)
  {
    if w == "" {
      assert w + t == t && acc + w == acc;
    } else {
      var s := w + t;
      assert s[0] == w[0] && s[1..] == w[1..] + t;
      CutWord(w[1..], t, acc + [w[0]]);
      assert acc + [w[0]] + w[1..] == acc + w;
    }
  }

  /** A blank before this text separates alone. */
  predicate StartsPlain(t: string) {
    !(|t| >= 4 && t[..3] == "and" && Blank(t[3]))
  }

  lemma CutGlue(g: Glue, t: string, acc: string)
    requires g.Space? ==> StartsPlain(t)
    ensures Cut(Spelled(g) + t, acc) == Kept(acc) + Cut(t, "")
  {
    var s := Spelled(g) + t;
    match g
    case Space =>
      assert s[1..] == t;
      assert |s| >= 5 ==> s[1..4] == t[..3] && s[4] == t[3];
    case Hyphen => assert s[1..] == t;
    case Comma => assert s[2..] == t;
    case And => assert s[1..4] == "and" && s[5..] == t;
  }

  lemma WordStartsPlain(w: string, t: string)
    requires WordLike(w) && w != "and" && (t == "" || !IsLetter(t[0]))
    ensures StartsPlain(w + t)
  {
    var s := w + t;
    if |s| >= 4 {
      if |w| > 3 {
        assert s[3] == w[3];
      } else if |w| == 3 {
        assert s[..3] == w;
      } else {
        assert s[..3][|w|] == t[0];
      }
    }
  }

  /** What follows a word neither changes it nor is changed by it. */
  ghost predicate Detached(t: string) {
    (t == "" || !IsLetter(t[0])) && forall w :: Cut(t, w) == Kept(w) + Cut(t, "")
  }

  lemma GlueDetaches(g: Glue, t: string)
    requires g.Space? ==> StartsPlain(t)
    ensures Detached(Spelled(g) + t)
  {
    forall w: string
      ensures Cut(Spelled(g) + t, w) == Kept(w) + Cut(Spelled(g) + t, "")
    {
      CutGlue(g, t, w);
      CutGlue(g, t, "");
    }
  }

  /** The text a, before t, is cut into the words ws. */
  ghost predicate Reads(a: string, ws: seq<string>, t: string) {
    Cut(a + t, "") == ws + Cut(t, "")
  }

  lemma WordReads(w: string, t: string)
    requires WordLike(w) && Detached(t)
    ensures Reads(w, [w], t)
  {
    CutWord(w, t, "");
    assert "" + w == w;
  }

  lemma ConnectedReads(a: string, ws: seq<string>, g: Glue, b: string, xs: seq<string>, t: string)
    requires g.Space? ==> StartsPlain(b + t)
    requires Reads(a, ws, Spelled(g) + (b + t)) && Reads(b, xs, t)
    ensures Reads(a + Spelled(g) + b, ws + xs, t)
  {
    CutGlue(g, b + t, "");
    Connected((s, w) => Cut(s, w), a, ws, Spelled(g), b, xs, t);
  }

  lemma Connected(cut: (string, string) -> seq<string>, a: string, ws: seq<string>, glue: string, b: string,
                  xs: seq<string>, t: string)
    requires cut(a + (glue + (b + t)), "") == ws + cut(glue + (b + t), "")
    requires cut(glue + (b + t), "") == cut(b + t, "") == xs + cut(t, "")
    ensures cut(a + glue + b + t, "") == ws + xs + cut(t, "")
  {
    assert a + glue + b + t == a + (glue + (b + t));
  }

  // ---------------------------------------------------------------------------
  // The words of a number
  // ---------------------------------------------------------------------------

  /** Which words a number is made of, connectives aside. */
  function Indices(n: nat): (r: seq<nat>)
    ensures r != [] && forall i :: 0 <= i < |r| ==> r[i] < 33
  {
    if n < 20 then [n]
    else if n < 100 then [18 + n / 10] + if n % 10 > 0 then [n % 10] else []
    else if n < 1000 then [n / 100, HUNDRED] + if n % 100 > 0 then Indices(n % 100) else []
    else
      var m := Magnitude(n);
      Indices(n / Worth(m)) + [m] + if n % Worth(m) > 0 then Indices(n % Worth(m)) else []
  }

  predicate InRange(indices: seq<nat>) {
    forall i :: 0 <= i < |indices| ==> indices[i] < 33
  }

  /** Those words, the last one as an ordinal when asked for. */
  function Spoken(v: Vocabulary, indices: seq<nat>, ord: bool): seq<string>
    requires |v.cardinals| == |v.ordinals| == 33 && InRange(indices)
  {
    seq(|indices|, i requires 0 <= i < |indices| => Written(v, indices[i], ord && i == |indices| - 1))
  }

  lemma SpokenAppends(v: Vocabulary, a: seq<nat>, b: seq<nat>, ord: bool)
    requires |v.cardinals| == |v.ordinals| == 33 && InRange(a) && InRange(b) && b != []
    ensures InRange(a + b) && Spoken(v, a + b, ord) == Spoken(v, a, false) + Spoken(v, b, ord)
  {
  }

  lemma WrittenIsWord(v: Vocabulary, i: nat, ord: bool)
    requires Regular(v) && i < 33
    ensures WordLike(Written(v, i, ord)) && Written(v, i, ord) != "and"
  {
    assert v.cardinals[i] in v.cardinals && v.ordinals[i] in v.ordinals;
  }

  lemma OneReads(v: Vocabulary, i: nat, ord: bool, t: string)
    requires Regular(v) && i < 33 && Detached(t)
    ensures Reads(Written(v, i, ord), Spoken(v, [i], ord), t)
    ensures StartsPlain(Written(v, i, ord) + t)
  {
    WrittenIsWord(v, i, ord);
    WordReads(Written(v, i, ord), t);
    WordStartsPlain(Written(v, i, ord), t);
    assert Spoken(v, [i], ord) == [Written(v, i, ord)];
  }

  /** A phrase, a connective and a last word. */
  lemma WordFollows(v: Vocabulary, a: string, indices: seq<nat>, g: Glue, i: nat, ord: bool, t: string)
    requires Regular(v) && InRange(indices) && i < 33 && Detached(t)
    requires Reads(a, Spoken(v, indices, false), Spelled(g) + (Written(v, i, ord) + t))
    ensures InRange(indices + [i]) && Reads(a + Spelled(g) + Written(v, i, ord), Spoken(v, indices + [i], ord), t)
  {
    OneReads(v, i, ord, t);
    SpokenAppends(v, indices, [i], ord);
    ConnectedReads(a, Spoken(v, indices, false), g, Written(v, i, ord), Spoken(v, [i], ord), t);
  }

  lemma WordDetaches(v: Vocabulary, g: Glue, i: nat, ord: bool, t: string)
    requires Regular(v) && i < 33 && Detached(t)
    ensures Detached(Spelled(g) + (Written(v, i, ord) + t))
  {
    OneReads(v, i, ord, t);
    GlueDetaches(g, Written(v, i, ord) + t);
  }

  lemma WordRead(v: Vocabulary, n: nat, i: nat, ord: bool, t: string)
    requires Regular(v) && i < 33 && Detached(t)
    requires Unconnected(v, n, ord) == Written(v, i, ord) && Indices(n) == [i]
    ensures Reads(Unconnected(v, n, ord), Spoken(v, Indices(n), ord), t)
  {
    OneReads(v, i, ord, t);
  }

  /** The texts of tens and ones. */
  lemma TensRead(v: Vocabulary, n: nat, ord: bool, t: string)
    requires Regular(v) && n < 100 && Detached(t)
    ensures Reads(Unconnected(v, n, ord), Spoken(v, Indices(n), ord), t)
  {
    if n < 20 {
      WordRead(v, n, n, ord, t);
    } else if n % 10 > 0 {
      HyphenRead(v, n, ord, t);
    } else {
      TensText(v, n, ord);
      WordRead(v, n, 18 + n / 10, ord, t);
    }
  }

  lemma HyphenRead(v: Vocabulary, n: nat, ord: bool, t: string)
    requires Regular(v) && 20 <= n < 100 && n % 10 > 0 && Detached(t)
    ensures Reads(Unconnected(v, n, ord), Spoken(v, Indices(n), ord), t)
  {
    hide *;
    TensText(v, n, ord);
    HyphenReads(v, 18 + n / 10, n % 10, ord, t);
  }

  lemma TensText(v: Vocabulary, n: nat, ord: bool)
    requires Regular(v) && 20 <= n < 100
    ensures Unconnected(v, n, ord) ==
            if n % 10 > 0 then v.cardinals[18 + n / 10] + "-" + Written(v, n % 10, ord) else Written(v, 18 + n / 10, ord)
    ensures Indices(n) == if n % 10 > 0 then [18 + n / 10, n % 10] else [18 + n / 10]
  {
    if n % 10 > 0 {
      assert Lookup(v, n % 10, false, ord) == Written(v, n % 10, ord);
    }
  }

  lemma HyphenReads(v: Vocabulary, tens: nat, ones: nat, ord: bool, t: string)
    requires Regular(v) && tens < 33 && ones < 33 && Detached(t)
    ensures Reads(v.cardinals[tens] + "-" + Written(v, ones, ord), Spoken(v, [tens, ones], ord), t)
  {
    WordDetaches(v, Hyphen, ones, ord, t);
    OneReads(v, tens, false, Spelled(Hyphen) + (Written(v, ones, ord) + t));
    WordFollows(v, v.cardinals[tens], [tens], Hyphen, ones, ord, t);
    assert [tens] + [ones] == [tens, ones];
  }

  /** A phrase, a comma or `and`, and the rest of the number. */
  lemma RestFollows(v: Vocabulary, a: string, indices: seq<nat>, n: nat, ord: bool, t: string)
    requires Regular(v) && InRange(indices) && Detached(t)
    requires Detached(Spelled(Connective(n)) + (Unconnected(v, n, ord) + t)) ==>
      Reads(a, Spoken(v, indices, false), Spelled(Connective(n)) + (Unconnected(v, n, ord) + t))
    requires Reads(Unconnected(v, n, ord), Spoken(v, Indices(n), ord), t)
    ensures InRange(indices + Indices(n))
    ensures Reads(a + Lookup(v, n, true, ord), Spoken(v, indices + Indices(n), ord), t)
  {
    hide Cut, Unconnected, Indices;
    var g, b := Connective(n), Unconnected(v, n, ord);
    GlueDetaches(g, b + t);
    SpokenAppends(v, indices, Indices(n), ord);
    ConnectedReads(a, Spoken(v, indices, false), g, b, Spoken(v, Indices(n), ord), t);
    assert a + Lookup(v, n, true, ord) == a + Spelled(g) + b;
  }

  lemma BelowThousandReads(v: Vocabulary, n: nat, ord: bool, t: string)
    requires Regular(v) && n < 1000 && Detached(t)
    ensures Reads(Unconnected(v, n, ord), Spoken(v, Indices(n), ord), t)
  {
    hide Cut, Detached, Reads, Spoken;
    if n < 100 {
      TensRead(v, n, ord, t);
    } else {
      var h, r := n / 100, n % 100;
      if r > 0 {
        TensRead(v, r, ord, t);
        GlueDetaches(Connective(r), Unconnected(v, r, ord) + t);
        HundredReads(v, h, false, Spelled(Connective(r)) + (Unconnected(v, r, ord) + t));
        RestFollows(v, v.cardinals[h] + " " + v.cardinals[HUNDRED], [h, HUNDRED], r, ord, t);
      } else {
        HundredReads(v, h, ord, t);
        HundredEnds(v, n, ord);
        assert Indices(n) == [h, HUNDRED];
      }
    }
  }

  /** The whole text of a number is cut into the words it is made of. */
  lemma {:induction false} NumberReads(v: Vocabulary, n: nat, ord: bool, t: string)
    requires Regular(v) && Detached(t)
    ensures Reads(Unconnected(v, n, ord), Spoken(v, Indices(n), ord), t)
    decreases n
  {
    if n < 1000 {
      BelowThousandReads(v, n, ord, t);
    } else {
      MagnitudesAgree(n);
      var m := Magnitude(n);
      var q, r := n / Worth(m), n % Worth(m);
      if r > 0 {
        NumberReads(v, r, ord, t);
        var rest := Spelled(Connective(r)) + (Unconnected(v, r, ord) + t);
        GlueDetaches(Connective(r), Unconnected(v, r, ord) + t);
        WordDetaches(v, Space, m, false, rest);
        NumberReads(v, q, false, Spelled(Space) + (Written(v, m, false) + rest));
        WordFollows(v, Unconnected(v, q, false), Indices(q), Space, m, false, rest);
        RestFollows(v, Unconnected(v, q, false) + " " + v.cardinals[m], Indices(q) + [m], r, ord, t);
        WholeText(v, n, ord);
      } else {
        WordDetaches(v, Space, m, ord, t);
        NumberReads(v, q, false, Spelled(Space) + (Written(v, m, ord) + t));
        WordFollows(v, Unconnected(v, q, false), Indices(q), Space, m, ord, t);
        WholeText(v, n, ord);
        assert Indices(n) == Indices(q) + [m];
      }
    }
  }

  lemma HundredReads(v: Vocabulary, h: nat, ord: bool, t: string)
    requires Regular(v) && h < 10 && Detached(t)
    ensures Reads(v.cardinals[h] + " " + Written(v, HUNDRED, ord), Spoken(v, [h, HUNDRED], ord), t)
  {
    WordDetaches(v, Space, HUNDRED, ord, t);
    OneReads(v, h, false, Spelled(Space) + (Written(v, HUNDRED, ord) + t));
    WordFollows(v, v.cardinals[h], [h], Space, HUNDRED, ord, t);
    assert [h] + [HUNDRED] == [h, HUNDRED];
  }

  lemma HundredEnds(v: Vocabulary, n: nat, ord: bool)
    requires Regular(v) && 100 <= n < 1000 && n % 100 == 0
    ensures Unconnected(v, n, ord) == v.cardinals[n / 100] + " " + Written(v, HUNDRED, ord)
  {
    if ord {
      Suffixed(v.cardinals[n / 100] + " ", v.cardinals[HUNDRED], "th", v.ordinals[HUNDRED]);
    }
  }

  lemma WholeText(v: Vocabulary, n: nat, ord: bool)
    requires Regular(v) && n >= 1000
    ensures var m := Magnitude(n);
            var q, r := n / Worth(m), n % Worth(m);
            Unconnected(v, n, ord) ==
            if r > 0 then Unconnected(v, q, false) + " " + v.cardinals[m] + Lookup(v, r, true, ord)
            else Unconnected(v, q, false) + " " + Written(v, m, ord)
  {
    MagnitudesAgree(n);
    var m := Magnitude(n);
    var phrase := Lookup(v, n / Worth(m), false, false);
    assert phrase == Unconnected(v, n / Worth(m), false);
    if n % Worth(m) == 0 && ord {
      Suffixed(phrase + " ", v.cardinals[m], "th", v.ordinals[m]);
    }
  }

  // ---------------------------------------------------------------------------
  // Parsing
  // ---------------------------------------------------------------------------

  /** Cardinals and ordinals alike stand for their number, anywhere in the text; hundred is also entered like a ten. */
  function WordValue(v: Vocabulary, word: string): Option<nat>
    requires |v.cardinals| == |v.ordinals| == 33
  {
    match Find(v.cardinals, word)
    case Some(i) => Some(Worth(i))
    case None =>
      match Find(v.ordinals, word)
      case Some(i) => Some(Worth(i))
      case None => if word == Stem(v.cardinals[HUNDRED]) + "ieth" then Some(100) else None
  }

  function Values(v: Vocabulary, words: seq<string>): seq<Option<nat>>
    requires |v.cardinals| == |v.ordinals| == 33
  {
    seq(|words|, i requires 0 <= i < |words| => WordValue(v, words[i]))
  }

  /** One word's value; `fits` is the host's work limit on a decimal. */
  function JsStep(st: State, found: Option<nat>, fits: nat -> bool): Progress {
    match found
    case None => Unknown
    case Some(value) =>
      if value < 100 then At(State(st.segments, st.current + value))
      else if value == 100 then At(State(st.segments, st.current * 100))
      else
        var p := Popped(st, value);
        var scaled := p.current * value;
        if !fits(scaled) then TooLong else At(State(p.segments + [Segment(scaled, value)], 0))
  }

  function JsRun(p: Progress, values: seq<Option<nat>>, fits: nat -> bool): Progress
    decreases |values|
  {
    if values == [] || !p.At? then p else JsRun(JsStep(p.state, values[0], fits), values[1..], fits)
  }

  /** The last check is on the whole number. */
  function Admitted(p: Progress, fits: nat -> bool): Parsed {
    var r := Outcome(p);
    if r.Value? && !fits(r.n) then OverBudget else r
  }

  function JsParse(v: Vocabulary, s: string, fits: nat -> bool): Parsed
    requires |v.cardinals| == |v.ordinals| == 33
  {
    Admitted(JsRun(At(State([], 0)), Values(v, Cut(s, "")), fits), fits)
  }

  method WordsToNumber(v: Vocabulary, s: string, fits: nat -> bool) returns (r: Parsed)
    requires |v.cardinals| == |v.ordinals| == 33
    ensures r == JsParse(v, s, fits)
  {
    var parts := Cut(s, "");
    var values := Values(v, parts);
    r := StackValues(values, fits);
  }

  method StackValues(values: seq<Option<nat>>, fits: nat -> bool) returns (r: Parsed)
    ensures r == Admitted(JsRun(At(State([], 0)), values, fits), fits)
  {
    var segments: seq<Segment>, current: nat := [], 0;
    ghost var whole := JsRun(At(State([], 0)), values, fits);
    for i := 0 to |values|
      invariant whole == JsRun(At(State(segments, current)), values[i..], fits)
    {
      JsRunStep(State(segments, current), values, i, fits);
      if values[i].None? {
        return Invalid;
      }
      var value := values[i].value;
      if value < 100 {
        current := current + value;
      } else if value == 100 {
        current := current * 100;
      } else {
        segments, current := PopSegments(segments, current, value);
        current := current * value;
        if !fits(current) {
          return OverBudget;
        }
        segments := segments + [Segment(current, value)];
        current := 0;
      }
    }
    assert values[|values|..] == [];
    current := AddSegments(segments, current);
    return if fits(current) then Value(current) else OverBudget;
  }

  lemma JsRunStep(st: State, values: seq<Option<nat>>, i: nat, fits: nat -> bool)
    requires i < |values|
    ensures JsRun(At(st), values[i..], fits) == JsRun(JsStep(st, values[i], fits), values[i + 1..], fits)
    ensures !JsStep(st, values[i], fits).At? ==> JsRun(At(st), values[i..], fits) == JsStep(st, values[i], fits)
  {
    assert values[i..][1..] == values[i + 1..];
  }

  // ---------------------------------------------------------------------------
  // Reading a printed number back
  // ---------------------------------------------------------------------------

  lemma WordMeans(v: Vocabulary, i: nat, ord: bool)
    requires Regular(v) && i < 33
    ensures WordValue(v, Written(v, i, ord)) == Some(Worth(i))
  {
    TablesDistinct(v);
    FindInDistinct(v.cardinals, i);
    FindInDistinct(v.ordinals, i);
    assert v.ordinals[i] in v.ordinals;
  }

  function Worths(indices: seq<nat>): seq<Option<nat>>
    requires InRange(indices)
  {
    seq(|indices|, i requires 0 <= i < |indices| => Some(Worth(indices[i])))
  }

  lemma SpokenMeans(v: Vocabulary, indices: seq<nat>, ord: bool)
    requires Regular(v) && InRange(indices)
    ensures Values(v, Spoken(v, indices, ord)) == Worths(indices)
  {
    forall i | 0 <= i < |indices|
      ensures Values(v, Spoken(v, indices, ord))[i] == Worths(indices)[i]
    {
      WordMeans(v, indices[i], ord && i == |indices| - 1);
    }
  }

  lemma {:induction false} JsRunAppends(p: Progress, a: seq<Option<nat>>, b: seq<Option<nat>>, fits: nat -> bool)
    ensures JsRun(p, a + b, fits) == JsRun(JsRun(p, a, fits), b, fits)
    decreases |a|
  {
    if a == [] {
      assert a + b == b;
    } else if p.At? {
      assert (a + b)[1..] == a[1..] + b;
      JsRunAppends(JsStep(p.state, a[0], fits), a[1..], b, fits);
    }
  }

  lemma RunsOn(p: Progress, a: seq<nat>, b: seq<nat>, fits: nat -> bool)
    requires InRange(a) && InRange(b)
    ensures InRange(a + b) && JsRun(p, Worths(a + b), fits) == JsRun(JsRun(p, Worths(a), fits), Worths(b), fits)
  {
    assert Worths(a + b) == Worths(a) + Worths(b);
    JsRunAppends(p, Worths(a), Worths(b), fits);
  }

  lemma RunsOne(st: State, i: nat, fits: nat -> bool)
    requires i < 33
    ensures JsRun(At(st), Worths([i]), fits) == JsStep(st, Some(Worth(i)), fits)
  {
    assert Worths([i])[1..] == [];
  }

  lemma TensSum(st: State, n: nat, fits: nat -> bool)
    requires n < 100
    ensures JsRun(At(st), Worths(Indices(n)), fits) == At(State(st.segments, st.current + n))
  {
    if n < 20 {
      RunsOne(st, n, fits);
    } else {
      RunsOne(st, 18 + n / 10, fits);
      if n % 10 > 0 {
        RunsOn(At(st), [18 + n / 10], [n % 10], fits);
        RunsOne(State(st.segments, st.current + n / 10 * 10), n % 10, fits);
      } else {
        assert Indices(n) == [18 + n / 10];
      }
    }
  }

  lemma HundredsSum(below: seq<Segment>, n: nat, fits: nat -> bool)
    requires n < 1000
    ensures JsRun(At(State(below, 0)), Worths(Indices(n)), fits) == At(State(below, n))
  {
    if n < 100 {
      TensSum(State(below, 0), n, fits);
    } else {
      var h, r := n / 100, n % 100;
      RunsOne(State(below, 0), h, fits);
      RunsOne(State(below, h), HUNDRED, fits);
      RunsOn(At(State(below, 0)), [h], [HUNDRED], fits);
      assert [h] + [HUNDRED] == [h, HUNDRED];
      if r > 0 {
        RunsOn(At(State(below, 0)), [h, HUNDRED], Indices(r), fits);
        TensSum(State(below, h * 100), r, fits);
      } else {
        assert Indices(n) == [h, HUNDRED];
      }
    }
  }

  /** Every number on the stack passes its check while the words of n are read. */
  predicate Passes(n: nat, fits: nat -> bool) {
    n < 1000 ||
    var w := Worth(Magnitude(n));
    Passes(n / w, fits) && fits(n / w * w) && (n % w > 0 ==> Passes(n % w, fits))
  }

  /** What the words of n leave over the segments below them. */
  ghost function JsAfter(below: seq<Segment>, n: nat, fits: nat -> bool): Progress {
    if Passes(n, fits) then At(State(below + Left(n).segments, Left(n).current)) else TooLong
  }

  lemma MagnitudeTakes(below: seq<Segment>, n: nat, fits: nat -> bool)
    requires n >= 1000 && (forall g :: g in below ==> g.scale > Reach(n))
    ensures var m := Magnitude(n);
            var q := n / Worth(m);
            JsRun(At(State(below + Left(q).segments, Left(q).current)), Worths([m]), fits) ==
            if fits(q * Worth(m)) then At(State(below + [Segment(q * Worth(m), Worth(m))], 0)) else TooLong
  {
    var m := Magnitude(n);
    var q := n / Worth(m);
    LeftSums(q);
    ReachShrinks(n);
    PopsPhrase(below, Left(q).segments, Left(q).current, Worth(m));
    RunsOne(State(below + Left(q).segments, Left(q).current), m, fits);
  }

  lemma HeadSums(below: seq<Segment>, n: nat, fits: nat -> bool)
    requires n >= 1000 && (forall g :: g in below ==> g.scale > Reach(n))
    requires var q := n / Worth(Magnitude(n));
             JsRun(At(State(below, 0)), Worths(Indices(q)), fits) == JsAfter(below, q, fits)
    ensures var w := Worth(Magnitude(n));
            JsRun(At(State(below, 0)), Worths(Indices(n / w) + [Magnitude(n)]), fits) ==
            if Passes(n / w, fits) && fits(n / w * w) then At(State(below + [Segment(n / w * w, w)], 0)) else TooLong
  {
    var m := Magnitude(n);
    RunsOn(At(State(below, 0)), Indices(n / Worth(m)), [m], fits);
    MagnitudeTakes(below, n, fits);
  }

  lemma RestSums(below: seq<Segment>, n: nat, fits: nat -> bool)
    requires n >= 1000
    requires var w := Worth(Magnitude(n));
             && JsRun(At(State(below, 0)), Worths(Indices(n / w) + [Magnitude(n)]), fits) ==
                (if Passes(n / w, fits) && fits(n / w * w) then At(State(below + [Segment(n / w * w, w)], 0)) else TooLong)
             && var grown := below + [Segment(n / w * w, w)];
                JsRun(At(State(grown, 0)), Worths(Indices(n % w)), fits) == JsAfter(grown, n % w, fits)
    ensures JsRun(At(State(below, 0)), Worths(Indices(n)), fits) == JsAfter(below, n, fits)
  {
    var w := Worth(Magnitude(n));
    var head := Indices(n / w) + [Magnitude(n)];
    LeftBelow(below, Segment(n / w * w, w), Left(n % w).segments);
    if n % w > 0 {
      assert Indices(n) == head + Indices(n % w);
      RunsOn(At(State(below, 0)), head, Indices(n % w), fits);
    } else {
      assert Indices(n) == head;
    }
  }

  lemma SmallSums(below: seq<Segment>, n: nat, fits: nat -> bool)
    requires n < 1000
    ensures JsRun(At(State(below, 0)), Worths(Indices(n)), fits) == JsAfter(below, n, fits)
  {
    HundredsSum(below, n, fits);
    assert below + [] == below;
  }

  /** Exactly what reading the words of a number leaves, whatever the limit. */
  lemma {:induction false} NumberSums(below: seq<Segment>, n: nat, fits: nat -> bool)
    requires forall g :: g in below ==> g.scale > Reach(n)
    ensures JsRun(At(State(below, 0)), Worths(Indices(n)), fits) == JsAfter(below, n, fits)
    decreases n
  {
    hide *;
    if n < 1000 {
      SmallSums(below, n, fits);
    } else {
      var w := Worth(Magnitude(n));
      ReachShrinks(n);
      PartsShrink(n);
      NumberSums(below, n / w, fits);
      HeadSums(below, n, fits);
      NumberSums(below + [Segment(n / w * w, w)], n % w, fits);
      RestSums(below, n, fits);
    }
  }

  /** A printed number reads back exactly when it and the numbers on the stack are admitted; else the limit is reported. */
  lemma JsReadsBack(v: Vocabulary, n: nat, ord: bool, fits: nat -> bool)
    requires Regular(v)
    ensures JsParse(v, Lookup(v, n, false, ord), fits) == if Passes(n, fits) && fits(n) then Value(n) else OverBudget
  {
    hide Cut, Lookup, Indices, Spoken, Values, JsRun, Left, Sum, Worths, Passes;
    TextIsCut(v, n, ord);
    SpokenMeans(v, Indices(n), ord);
    NumberSums([], n, fits);
    LeftSums(n);
    assert [] + Left(n).segments == Left(n).segments;
  }

  lemma TextIsCut(v: Vocabulary, n: nat, ord: bool)
    requires Regular(v)
    ensures Cut(Lookup(v, n, false, ord), "") == Spoken(v, Indices(n), ord)
  {
    NumberReads(v, n, ord, "");
    assert Unconnected(v, n, ord) + "" == Unconnected(v, n, ord) == Lookup(v, n, false, ord);
  }

  // ---------------------------------------------------------------------------
  // The host's limit
  // ---------------------------------------------------------------------------

  /** Digits without trailing zeros. */
  function Significant(n: nat): nat {
    if n == 0 then 1 else if n % 10 == 0 then Significant(n / 10) else Digits(n)
  }

  /** A budget on significant digits and on the decimal exponent. */
  function HostLimit(maxDigits: nat, maxExponent: nat): nat -> bool {
    (x: nat) => Significant(x) <= maxDigits && Digits(x) - 1 <= maxExponent
  }

  /** What the limit admits: numbers below a power of ten that are so many digits and then zeros. */
  lemma HostLimitMeans(maxDigits: nat, maxExponent: nat, x: nat)
    requires maxDigits > 0
    ensures HostLimit(maxDigits, maxExponent)(x) <==>
              x < Ten(maxExponent + 1) && exists c: nat, k: nat :: c < Ten(maxDigits) && x == Shift(c, k)
  {
    hide Significant, Digits, Ten;
    TensBelow(x, maxExponent + 1);
    if Significant(x) <= maxDigits {
      var c, k := SignificantPart(x);
      TensBelow(c, maxDigits);
    }
    forall c: nat, k: nat | c < Ten(maxDigits) && x == Shift(c, k)
      ensures Significant(x) <= maxDigits
    {
      ShiftKeepsSignificant(c, k);
      SignificantAtMost(c);
      TensBelow(c, maxDigits);
    }
  }

  lemma TensBelow(n: nat, k: nat)
    requires k > 0
    ensures n < Ten(k) <==> Digits(n) <= k
  {
    if n == 0 {
      PowPositive(10, k);
    } else {
      TensReached(n, k);
    }
  }

  lemma {:induction false} SignificantPart(x: nat) returns (c: nat, k: nat)
    ensures x == Shift(c, k) && Digits(c) == Significant(x)
  {
    c, k := x, 0;
    if x > 0 && x % 10 == 0 {
      c, k := SignificantPart(x / 10);
      k := k + 1;
    }
  }

  lemma {:induction false} ShiftKeepsSignificant(c: nat, k: nat)
    ensures Shift(c, k) >= 0 && Significant(Shift(c, k)) == Significant(c)
  {
    hide Significant;
    if k > 0 {
      ShiftKeepsSignificant(c, k - 1);
      TenTimes(Shift(c, k - 1));
    }
  }

  lemma TenTimes(n: nat)
    ensures Significant(10 * n) == Significant(n)
  {
    assert 10 * n % 10 == 0 && 10 * n / 10 == n;
  }

  lemma {:induction false} SignificantAtMost(n: nat)
    ensures 1 <= Significant(n) <= Digits(n)
  {
    if n > 0 && n % 10 == 0 {
      SignificantAtMost(n / 10);
    }
  }

  lemma WorthIsTen(m: nat)
    requires HUNDRED < m < 33
    ensures Worth(m) == Ten(3 * (m - HUNDRED))
  {
    assert Ten(3) == 1000;
    assert Ten(6) == 1_000_000 by {
      TenAdd(3, 3);
    }
    assert Ten(9) == 1_000_000_000 by {
      TenAdd(6, 3);
    }
    assert Ten(12) == 1_000_000_000_000 by {
      TenAdd(9, 3);
    }
  }

  /** Cutting off k digits, one at a time. */
  lemma CutOne(n: nat, k: nat)
    requires k > 0
    ensures Ten(k) > 0 && Ten(k - 1) > 0
    ensures n / Ten(k) == n / 10 / Ten(k - 1) && n % Ten(k) == n / 10 % Ten(k - 1) * 10 + n % 10
  {
    PowPositive(10, k);
    PowPositive(10, k - 1);
    var a, b, t := n / 10, n % 10, Ten(k - 1);
    var q, r := a / t, a % t;
    assert a == q * t + r;
    assert n == q * (10 * t) + (10 * r + b) by {
      Assoc(10, q, t);
      Swap(10, q, t);
    }
    QuotientUnique(n, Ten(k), q, 10 * r + b);
    DivLaw(n, Ten(k));
  }

  lemma {:induction false} PrefixFits(n: nat, k: nat)
    requires n >= Ten(k) > 0
    ensures Significant(n / Ten(k)) <= Significant(n)
    decreases k
  {
    if k > 0 {
      CutOne(n, k);
      PowPositive(10, k - 1);
      AtLeastOne(n / 10, Ten(k - 1));
      PrefixFits(n / 10, k - 1);
      SignificantAtMost(n / 10);
    }
  }

  lemma AtLeastOne(n: nat, t: nat)
    requires t > 0
    ensures n >= t <==> n / t >= 1
  {
    DivLaw(n, t);
    assert n / t == 0 ==> n / t * t == 0;
    if n / t >= 1 {
      MulMonotone(1, n / t, t);
    }
  }

  lemma {:induction false} SuffixFits(n: nat, k: nat)
    requires k > 0 && Ten(k) > 0 && n % Ten(k) > 0
    ensures Significant(n % Ten(k)) <= Significant(n) && Digits(n % Ten(k)) <= Digits(n)
    decreases k
  {
    assert Ten(0) == 1;
    hide Pow, Ten, Digits;
    var r := n % Ten(k);
    DigitsMonotone(r, n);
    CutOne(n, k);
    var b := n / 10 % Ten(k - 1);
    assert r == b * 10 + n % 10;
    assert r / 10 == b && r % 10 == n % 10;
    if n % 10 != 0 {
      SignificantAtMost(r);
    } else if k > 1 {
      SuffixFits(n / 10, k - 1);
    }
  }

  lemma {:induction false} PaddedFits(q: nat, k: nat)
    requires q > 0
    ensures Significant(q * Ten(k)) == Significant(q)
    decreases k
  {
    if k > 0 {
      PaddedFits(q, k - 1);
      PadOne(q, k);
    } else {
      assert Ten(0) == 1;
    }
  }

  lemma PadOne(q: nat, k: nat)
    requires q > 0 && k > 0
    ensures Significant(q * Ten(k)) == Significant(q * Ten(k - 1))
  {
    Swap(q, 10, Ten(k - 1));
    PowPositive(10, k - 1);
    var x := q * Ten(k - 1);
    assert q * Ten(k) == 10 * x;
    MulMonotone(1, Ten(k - 1), q);
    SignificantOfTimesTen(x);
  }

  lemma SignificantOfTimesTen(x: nat)
    requires x > 0
    ensures Significant(10 * x) == Significant(x)
  {
  }

  /** What a number within the limit is made of is within it too. */
  lemma PartsFit(n: nat, maxDigits: nat, maxExponent: nat)
    requires n >= 1000 && HostLimit(maxDigits, maxExponent)(n)
    ensures var w := Worth(Magnitude(n));
            var fits := HostLimit(maxDigits, maxExponent);
            fits(n / w) && fits(n / w * w) && (n % w > 0 ==> fits(n % w))
  {
    var m := Magnitude(n);
    var k := 3 * (m - HUNDRED);
    WorthIsTen(m);
    PrefixFits(n, k);
    AtLeastOne(n, Ten(k));
    PaddedFits(n / Ten(k), k);
    DigitsOfScaled(n, m);
    DigitsMonotone(n / Worth(m), n);
    if n % Worth(m) > 0 {
      SuffixFits(n, k);
    }
  }

  lemma {:induction false} HostLimitPasses(n: nat, maxDigits: nat, maxExponent: nat)
    requires HostLimit(maxDigits, maxExponent)(n)
    ensures Passes(n, HostLimit(maxDigits, maxExponent))
    decreases n
  {
    if n >= 1000 {
      var w := Worth(Magnitude(n));
      PartsFit(n, maxDigits, maxExponent);
      PartsShrink(n);
      HostLimitPasses(n / w, maxDigits, maxExponent);
      if n % w > 0 {
        HostLimitPasses(n % w, maxDigits, maxExponent);
      }
    }
  }

  /** Under the host's limit a printed number reads back exactly when the number itself is within it. */
  lemma HostReadsBack(v: Vocabulary, n: nat, ord: bool, maxDigits: nat, maxExponent: nat)
    requires Regular(v)
    ensures var fits := HostLimit(maxDigits, maxExponent);
            JsParse(v, Lookup(v, n, false, ord), fits) == if fits(n) then Value(n) else OverBudget
  {
    JsReadsBack(v, n, ord, HostLimit(maxDigits, maxExponent));
    if HostLimit(maxDigits, maxExponent)(n) {
      HostLimitPasses(n, maxDigits, maxExponent);
    }
  }

  /** Round numbers tell the engines' limits apart: one counts all digits, the other drops trailing zeros. */
  lemma LimitsDiffer(v: Vocabulary)
    requires Regular(v)
    ensures Parse(v, Text(v, 1000), 1) == OverBudget
    ensures JsParse(v, Text(v, 1000), HostLimit(1, 3)) == Value(1000)
  {
    assert Digits(1) == 1 && Digits(10) == 2 && Digits(100) == 3 && Digits(1000) == 4;
    assert Significant(1) == 1 && Significant(10) == 1 && Significant(100) == 1 && Significant(1000) == 1;
    WordsReadBack(v, 1000, 1);
    EnginesWriteAlike(v, 1000);
    HostReadsBack(v, 1000, false, 1, 3);
  }

  lemma EnglishTens(i: nat)
    requires 20 <= i < HUNDRED
    ensures OrdinalWord(i) == Stem(CardinalWord(i)) + "ieth"
  {
  }

  lemma EnglishScales(i: nat)
    requires HUNDRED <= i < 33
    ensures OrdinalWord(i) == CardinalWord(i) + "th"
  {
  }

  lemma OrdinalIsNotAnd(i: nat)
    requires i < 33
    ensures OrdinalWord(i) != "and"
  {
    OrdinalPlaced(i);
    assert Place("and") == -1;
  }

  lemma EnglishIsRegular()
    ensures Regular(English())
  {
    EnglishIsProper();
    forall i | 0 <= i < 33
      ensures English().ordinals[i] != "and"
      ensures 20 <= i < HUNDRED ==> English().ordinals[i] == Stem(English().cardinals[i]) + "ieth"
      ensures HUNDRED <= i ==> English().ordinals[i] == English().cardinals[i] + "th"
    {
      OrdinalIsNotAnd(i);
      if 20 <= i < HUNDRED {
        EnglishTens(i);
      } else if HUNDRED <= i {
        EnglishScales(i);
      }
    }
  }
}
