/** English numbers outright: what the tables and rules of the word pictures spell. */
module EnglishNumbers {
  import opened Options
  import opened Powers
  import opened Numerals
  import opened Words
  import opened JsWords

  // The round trips hold for any proper vocabulary.  Here is the one in use, number by number, and
  // the reading of texts that no printer writes.

  /** The number in words. */
  function InWords(n: nat): string {
    Text(English(), n)
  }

  /** The ordinal of the number in words. */
  function NthInWords(n: nat): string {
    Ordinal(English(), Text(English(), n))
  }

  lemma WordsOfTable(i: nat)
    requires i < 33
    ensures |English().cardinals| == 33 && |English().ordinals| == 33
    ensures English().cardinals[i] == CardinalWord(i) && English().ordinals[i] == OrdinalWord(i)
  {
  }

  lemma SmallWord(n: nat)
    requires n < 20
    ensures InWords(n) == CardinalWord(n)
  {
    hide CardinalWord, OrdinalWord;
    WordsOfTable(n);
  }

  lemma SmallNumbers()
    ensures InWords(0) == "zero" && InWords(1) == "one" && InWords(2) == "two" && InWords(3) == "three" && InWords(4) == "four"
    ensures InWords(5) == "five" && InWords(6) == "six" && InWords(7) == "seven" && InWords(8) == "eight" && InWords(9) == "nine"
    ensures InWords(10) == "ten" && InWords(11) == "eleven" && InWords(12) == "twelve" && InWords(13) == "thirteen"
    ensures InWords(14) == "fourteen" && InWords(15) == "fifteen" && InWords(16) == "sixteen" && InWords(17) == "seventeen"
    ensures InWords(18) == "eighteen" && InWords(19) == "nineteen"
  {
    hide InWords;
    forall n: nat | n < 20
      ensures InWords(n) == CardinalWord(n)
    {
      SmallWord(n);
    }
  }

  lemma TensAreSpelled(t: nat, u: nat)
    requires 2 <= t < 10 && u < 10
    ensures InWords(10 * t + u) == if u == 0 then CardinalWord(18 + t) else CardinalWord(18 + t) + "-" + CardinalWord(u)
  {
    hide CardinalWord, OrdinalWord;
    WordsOfTable(18 + t);
    WordsOfTable(u);
  }

  /** Tens and units: twenty, twenty-one, and so on to ninety-nine. */
  lemma Tens(u: nat)
    requires 0 < u < 10
    ensures InWords(20) == "twenty" && InWords(30) == "thirty" && InWords(40) == "forty" && InWords(50) == "fifty"
    ensures InWords(60) == "sixty" && InWords(70) == "seventy" && InWords(80) == "eighty" && InWords(90) == "ninety"
    ensures forall t :: 2 <= t < 10 ==> InWords(10 * t + u) == InWords(10 * t) + "-" + InWords(u)
  {
    hide InWords, CardinalWord;
    forall t | 2 <= t < 10
      ensures InWords(10 * t) == CardinalWord(18 + t)
      ensures InWords(10 * t + u) == InWords(10 * t) + "-" + InWords(u)
    {
      TensAreSpelled(t, 0);
      TensAreSpelled(t, u);
      SmallWord(u);
    }
    TensWords();
    assert InWords(10 * 2) == CardinalWord(18 + 2) && InWords(10 * 3) == CardinalWord(18 + 3);
    assert InWords(10 * 4) == CardinalWord(18 + 4) && InWords(10 * 5) == CardinalWord(18 + 5);
    assert InWords(10 * 6) == CardinalWord(18 + 6) && InWords(10 * 7) == CardinalWord(18 + 7);
    assert InWords(10 * 8) == CardinalWord(18 + 8) && InWords(10 * 9) == CardinalWord(18 + 9);
  }

  lemma TensWords()
    ensures CardinalWord(20) == "twenty" && CardinalWord(21) == "thirty" && CardinalWord(22) == "forty" && CardinalWord(23) == "fifty"
    ensures CardinalWord(24) == "sixty" && CardinalWord(25) == "seventy" && CardinalWord(26) == "eighty" && CardinalWord(27) == "ninety"
  {
  }

  /** Hundreds are joined by "and". */
  lemma Hundreds(h: nat, r: nat)
    requires 0 < h < 10 && r < 100
    ensures InWords(100 * h + r) == if r == 0 then InWords(h) + " hundred" else InWords(h) + " hundred and " + InWords(r)
  {
    HundredWord();
    HundredsApart(h, r);
    hide BelowHundred, CardinalWord, OrdinalWord;
    WordsOfTable(h);
    WordsOfTable(HUNDRED);
    SmallWord(h);
  }

  lemma HundredWord()
    ensures CardinalWord(28) == "hundred"
  {
  }

  lemma HundredsApart(h: nat, r: nat)
    requires 0 < h < 10 && r < 100
    ensures 100 <= 100 * h + r < 1000 && (100 * h + r) / 100 == h && (100 * h + r) % 100 == r
  {
  }

  /** The scale words and what they are worth; multiples beyond a trillion are trillions again. */
  function Scale(word: string): nat {
    if word == "thousand" then 1000
    else if word == "million" then 1_000_000
    else if word == "billion" then 1_000_000_000
    else if word == "trillion" then 1_000_000_000_000
    else 0
  }

  /** A multiple of a scale, and a rest joined by "and" when it is below a hundred, else by a comma. */
  lemma Scales(word: string, q: nat, r: nat)
    requires Scale(word) > 0 && q > 0 && r < Scale(word) && (word == "trillion" || q < 1000)
    ensures var w := InWords(q) + " " + word;
            InWords(q * Scale(word) + r) ==
            if r == 0 then w else if r < 100 then w + " and " + InWords(r) else w + ", " + InWords(r)
  {
    hide InWords, CardinalWord, OrdinalWord, Scale;
    var m := ScaleAt(word);
    var n := q * Scale(word) + r;
    ScaleMultiple(word, q, r, m);
    WordsOfTable(m);
    TextUnfolds(n, m);
    Associate(InWords(q) + " " + word, if r < 100 then " and " else ", ", InWords(r));
  }

  lemma Associate(a: string, b: string, c: string)
    ensures a + (b + c) == a + b + c && a + b + c == (a + b) + c
  {
  }

  lemma ScaleAt(word: string) returns (m: nat)
    requires Scale(word) > 0
    ensures 29 <= m < 33 && Worth(m) == Scale(word) && CardinalWord(m) == word
    ensures m == 32 <==> word == "trillion"
  {
    m := if word == "thousand" then 29 else if word == "million" then 30 else if word == "billion" then 31 else 32;
  }

  lemma ScaleMultiple(word: string, q: nat, r: nat, m: nat)
    requires Scale(word) > 0 && q > 0 && r < Scale(word) && (word == "trillion" || q < 1000)
    requires 29 <= m < 33 && Worth(m) == Scale(word) && (m == 32 <==> word == "trillion")
    ensures var n := q * Scale(word) + r; n >= 1000 && Magnitude(n) == m && n / Worth(m) == q && n % Worth(m) == r
  {
    hide Scale;
    var w := Worth(m);
    var n := q * w + r;
    OneQuotient(n, w, q, r);
    assert n >= w by {
      AtLeastOnce(q, w);
    }
    if m < 32 {
      assert n < 1000 * w by {
        AtMostTimes(q, w);
      }
    }
  }

  lemma AtLeastOnce(q: nat, w: nat)
    requires q > 0
    ensures q * w >= w
  {
  }

  lemma AtMostTimes(q: nat, w: nat)
    requires q < 1000
    ensures q * w + w <= 1000 * w
  {
    assert (q + 1) * w <= 1000 * w;
  }

  lemma TextUnfolds(n: nat, m: nat)
    requires n >= 1000 && Magnitude(n) == m
    ensures var words := InWords(n / Worth(m)) + " " + English().cardinals[m];
            InWords(n) == if n % Worth(m) == 0 then words
                          else words + ((if n % Worth(m) < 100 then " and " else ", ") + InWords(n % Worth(m)))
  {
    hide English, Magnitude, Worth;
    var v := English();
    WordsOfTable(0);
    Associate(Text(v, n / Worth(m)) + " " + v.cardinals[m], if n % Worth(m) < 100 then " and " else ", ", Text(v, n % Worth(m)));
  }

  // ---------------------------------------------------------------------------
  // Ordinals
  // ---------------------------------------------------------------------------

  lemma {:induction false} LastStartOfWord(w: string)
    requires forall i :: 0 <= i < |w| ==> w[i] != ' ' && w[i] != '-'
    ensures w != "" ==> LastStart(w) == 0
  {
    if |w| > 1 {
      LastStartOfWord(w[..|w| - 1]);
    }
  }

  /** The ordinal of a number that is one word of the table. */
  lemma NthOfWord(n: nat, i: nat)
    requires 0 < i < 33 && InWords(n) == CardinalWord(i)
    ensures NthInWords(n) == OrdinalWord(i)
  {
    hide CardinalWord, OrdinalWord, Place, English, Ordinal, Text;
    EnglishIsProper();
    WordsOfTable(i);
    ProperWordAlone(i);
  }

  lemma ProperWordAlone(i: nat)
    requires 0 < i < 33 && Proper(English())
    ensures Ordinal(English(), English().cardinals[i]) == English().ordinals[i]
  {
    hide CardinalWord, OrdinalWord, Place, English;
    var v := English();
    var w := v.cardinals[i];
    LastStartOfWord(w);
    assert w[0..] == w && w[..0] == "";
    var table := v.cardinals[1..];
    assert table[i - 1] == w && w in table;
    var found := Find(table, w);
    assert v.cardinals[found.value + 1] == w;
    DistinctPlaces(v, found.value + 1, i);
  }

  lemma DistinctPlaces(v: Vocabulary, i: nat, j: nat)
    requires Proper(v) && i < 33 && j < 33 && v.cardinals[i] == v.cardinals[j]
    ensures i == j
  {
    var all := v.cardinals + v.ordinals;
    assert all[i] == v.cardinals[i] && all[j] == v.cardinals[j];
  }

  lemma SmallOrdinals()
    ensures NthInWords(1) == "first" && NthInWords(2) == "second" && NthInWords(3) == "third" && NthInWords(4) == "fourth"
    ensures NthInWords(5) == "fifth" && NthInWords(6) == "sixth" && NthInWords(7) == "seventh" && NthInWords(8) == "eighth"
    ensures NthInWords(9) == "ninth" && NthInWords(10) == "tenth" && NthInWords(11) == "eleventh" && NthInWords(12) == "twelfth"
    ensures NthInWords(13) == "thirteenth" && NthInWords(14) == "fourteenth" && NthInWords(15) == "fifteenth"
    ensures NthInWords(16) == "sixteenth" && NthInWords(17) == "seventeenth" && NthInWords(18) == "eighteenth"
    ensures NthInWords(19) == "nineteenth"
  {
    hide InWords, NthInWords, CardinalWord, OrdinalWord;
    forall n: nat | 0 < n < 20
      ensures NthInWords(n) == OrdinalWord(n)
    {
      SmallWord(n);
      NthOfWord(n, n);
    }
    FirstOrdinalWords();
    TeenOrdinalWords();
    LateTeenOrdinalWords();
  }

  lemma FirstOrdinalWords()
    ensures OrdinalWord(1) == "first" && OrdinalWord(2) == "second" && OrdinalWord(3) == "third" && OrdinalWord(4) == "fourth"
    ensures OrdinalWord(5) == "fifth" && OrdinalWord(6) == "sixth" && OrdinalWord(7) == "seventh" && OrdinalWord(8) == "eighth"
    ensures OrdinalWord(9) == "ninth"
  {
  }

  lemma TeenOrdinalWords()
    ensures OrdinalWord(10) == "tenth" && OrdinalWord(11) == "eleventh" && OrdinalWord(12) == "twelfth"
    ensures OrdinalWord(13) == "thirteenth" && OrdinalWord(14) == "fourteenth"
  {
  }

  lemma LateTeenOrdinalWords()
    ensures OrdinalWord(15) == "fifteenth" && OrdinalWord(16) == "sixteenth" && OrdinalWord(17) == "seventeenth"
    ensures OrdinalWord(18) == "eighteenth" && OrdinalWord(19) == "nineteenth"
  {
  }

  lemma TensOrdinals()
    ensures NthInWords(20) == "twentieth" && NthInWords(30) == "thirtieth" && NthInWords(40) == "fortieth"
    ensures NthInWords(50) == "fiftieth" && NthInWords(60) == "sixtieth" && NthInWords(70) == "seventieth"
    ensures NthInWords(80) == "eightieth" && NthInWords(90) == "ninetieth"
  {
    hide InWords, NthInWords, CardinalWord;
    forall t | 2 <= t < 10
      ensures NthInWords(10 * t) == OrdinalWord(18 + t)
    {
      TensAreSpelled(t, 0);
      NthOfWord(10 * t, 18 + t);
    }
    assert NthInWords(10 * 2) == OrdinalWord(18 + 2) && NthInWords(10 * 3) == OrdinalWord(18 + 3);
    assert NthInWords(10 * 4) == OrdinalWord(18 + 4) && NthInWords(10 * 5) == OrdinalWord(18 + 5);
    assert NthInWords(10 * 6) == OrdinalWord(18 + 6) && NthInWords(10 * 7) == OrdinalWord(18 + 7);
    assert NthInWords(10 * 8) == OrdinalWord(18 + 8) && NthInWords(10 * 9) == OrdinalWord(18 + 9);
  }

  /** Only the last word of a number becomes ordinal: "twenty-first", "one hundredth", "one thousand and third". */
  lemma LastWordIsOrdinal(front: string, w: string, i: nat)
    requires front != "" && (front[|front| - 1] == ' ' || front[|front| - 1] == '-') && 0 < i < 33 && w == CardinalWord(i)
    ensures Ordinal(English(), front + w) == front + OrdinalWord(i)
  {
    hide CardinalWord, OrdinalWord, Place, English;
    EnglishIsProper();
    WordsOfTable(i);
    ProperWordAlone(i);
    var v := English();
    assert v.cardinals[i] == w && WordLike(w);
    LastStartOfWord(w);
    LastStartAfter(front, w);
    assert (front + w)[|front|..] == w && (front + w)[..|front|] == front;
    assert w[0..] == w && w[..0] == "";
    assert w in v.cardinals[1..] by {
      assert v.cardinals[1..][i - 1] == w;
    }
  }

  lemma {:induction false} LastStartAfter(front: string, w: string)
    requires front != "" && (front[|front| - 1] == ' ' || front[|front| - 1] == '-')
    requires forall i :: 0 <= i < |w| ==> w[i] != ' ' && w[i] != '-'
    ensures LastStart(front + w) == |front|
  {
    if w == "" {
      assert front + w == front;
    } else {
      assert (front + w)[..|front + w| - 1] == front + w[..|w| - 1];
      LastStartAfter(front, w[..|w| - 1]);
    }
  }

  /** Words outside the table take "th", or "ieth" for a final y. */
  lemma OtherWordsBecomeOrdinal(w: string)
    requires w != "" && w !in English().cardinals && forall i :: 0 <= i < |w| ==> w[i] != ' ' && w[i] != '-'
    ensures |English().cardinals| == |English().ordinals| == 33
    ensures Ordinal(English(), w) == if w[|w| - 1] == 'y' then w[..|w| - 1] + "ieth" else w + "th"
  {
    hide CardinalWord, OrdinalWord, English;
    WordsOfTable(0);
    LastStartOfWord(w);
    var v := English();
    assert w[0..] == w && w[..0] == "";
    assert forall x :: x in v.cardinals[1..] ==> x in v.cardinals;
  }

  // ---------------------------------------------------------------------------
  // Reading any text
  // ---------------------------------------------------------------------------

  /** The white space of Unicode, hyphens and commas separate words; nothing else does. */
  lemma SeparatorsAre(c: char)
    ensures Separates(c) <==> c as int in {0x09, 0x0A, 0x0B, 0x0C, 0x0D, 0x20, 0x2C, 0x2D, 0x85, 0xA0, 0x1680, 0x2000, 0x2001, 0x2002,
            0x2003, 0x2004, 0x2005, 0x2006, 0x2007, 0x2008, 0x2009, 0x200A, 0x2028, 0x2029, 0x202F, 0x205F, 0x3000}
  {
  }

  /** The other engine has the byte order mark in place of U+0085, and separates at hyphens and backslashes by rules of its own. */
  lemma BlanksAre(c: char)
    ensures Blank(c) <==> c as int in {0x09, 0x0A, 0x0B, 0x0C, 0x0D, 0x20, 0xA0, 0x1680, 0x2000, 0x2001, 0x2002, 0x2003, 0x2004, 0x2005,
            0x2006, 0x2007, 0x2008, 0x2009, 0x200A, 0x2028, 0x2029, 0x202F, 0x205F, 0x3000, 0xFEFF}
  {
  }

  predicate Unseparated(w: string) {
    forall i :: 0 <= i < |w| ==> !Separates(w[i])
  }

  lemma {:induction false} WordEnds(w: string, t: string)
    requires Unseparated(w) && (t == "" || Separates(t[0]))
    ensures WordEnd(w + t) == |w|
  {
    hide Separates;
    if w == "" {
      assert w + t == t;
    } else {
      assert (w + t)[1..] == w[1..] + t;
      WordEnds(w[1..], t);
    }
  }

  /** The words of a text are what stands between its separators. */
  lemma {:induction false} FieldsStandBetween(a: string, c: char, b: string)
    requires Separates(c)
    ensures Fields(a + [c] + b) == Fields(a) + Fields(b)
    decreases |a|
  {
    hide Separates, Fields, WordEnd;
    FieldsUnfold(a + [c] + b);
    FieldsUnfold(a);
    if a == "" {
      assert (a + [c] + b)[1..] == b;
    } else if Separates(a[0]) {
      assert (a + [c] + b)[1..] == a[1..] + [c] + b;
      FieldsStandBetween(a[1..], c, b);
    } else {
      var k := WordEnd(a);
      FirstWord(a, c, b);
      FieldsStandBetween(a[k..], c, b);
      FieldsRegroup(a[..k], Fields(a[k..]), Fields(b));
    }
  }

  lemma FieldsRegroup(word: string, f: seq<string>, g: seq<string>)
    ensures [word] + f + g == [word] + (f + g)
  {
  }

  lemma FirstWord(a: string, c: char, b: string)
    requires a != "" && !Separates(a[0]) && Separates(c)
    ensures var s, k := a + [c] + b, WordEnd(a);
            0 < k && WordEnd(s) == k && s[..k] == a[..k] && s[k..] == a[k..] + [c] + b
  {
    hide Separates, WordEnd;
    FirstField(a, [c] + b);
    assert a + [c] + b == a + ([c] + b);
  }

  lemma FieldsUnfold(s: string)
    ensures Fields(s) ==
            if s == "" then []
            else if Separates(s[0]) then Fields(s[1..]) else [s[..WordEnd(s)]] + Fields(s[WordEnd(s)..])
  {
    hide Separates;
  }

  lemma {:induction false} FirstField(a: string, t: string)
    requires a != "" && !Separates(a[0]) && t != "" && Separates(t[0])
    ensures 0 < WordEnd(a) && WordEnd(a + t) == WordEnd(a)
    decreases |a|
  {
    hide Separates;
    assert (a + t)[1..] == a[1..] + t;
    if |a| == 1 {
      assert a[1..] + t == t && WordEnd("") == 0;
    } else if !Separates(a[1]) {
      FirstField(a[1..], t);
    }
  }

  lemma FieldOfWord(w: string)
    requires Unseparated(w)
    ensures Fields(w) == if w == "" then [] else [w]
  {
    hide Separates;
    WordEnds(w, "");
    assert w + "" == w && w[|w|..] == "" && w[..|w|] == w;
  }

  predicate AndFollows(t: string) {
    |t| >= 4 && t[..3] == "and" && Blank(t[3])
  }

  /** The other engine cuts at ", ", at " and ", and at any single blank, hyphen or backslash, and drops empty pieces. */
  lemma CutsAre(w: string, b: char, c: char, t: string)
    ensures Cut("", w) == if w == "" then [] else [w]
    ensures Blank(b) ==> Cut([',', b] + t, w) == (if w == "" then [] else [w]) + Cut(t, "")
    ensures Blank(b) && Blank(c) ==> Cut([b, 'a', 'n', 'd', c] + t, w) == (if w == "" then [] else [w]) + Cut(t, "")
    ensures c == '-' || c == '\\' || (Blank(c) && !AndFollows(t)) ==> Cut([c] + t, w) == (if w == "" then [] else [w]) + Cut(t, "")
    ensures c != '-' && c != '\\' && !Blank(c) && !(c == ',' && t != "" && Blank(t[0])) ==> Cut([c] + t, w) == Cut(t, w + [c])
  {
    hide Blank;
    MarksAreNotBlank();
    assert ([',', b] + t)[2..] == t && ([c] + t)[1..] == t;
    AndStands(b, c, t);
    assert |t| >= 4 ==> ([c] + t)[1..4] == t[..3];
  }

  lemma AndStands(b: char, c: char, t: string)
    ensures var s := [b, 'a', 'n', 'd', c] + t;
            |s| >= 5 && s[0] == b && s[4] == c && s[5..] == t && s[1..4] == "and"
  {
    var s, word := [b, 'a', 'n', 'd', c] + t, "and";
    assert s[1] == word[0] && s[2] == word[1] && s[3] == word[2];
  }

  lemma MarksAreNotBlank()
    ensures !Blank(',') && !Blank('-') && !Blank('\\')
  {
  }

  /** A magnitude takes up the segments on top that are not above it, all of them, and no others. */
  lemma {:induction false} PopsTheTop(st: State, scale: nat) returns (k: nat)
    ensures k <= |st.segments|
    ensures Popped(st, scale) == State(st.segments[..k], st.current + Sum(st.segments[k..]))
    ensures forall i :: k <= i < |st.segments| ==> st.segments[i].scale <= scale
    ensures k > 0 ==> st.segments[k - 1].scale > scale
    decreases |st.segments|
  {
    hide Sum, Popped;
    var n := |st.segments|;
    k := n;
    PopsOnce(st, scale);
    if n > 0 && st.segments[n - 1].scale <= scale {
      var front, top := st.segments[..n - 1], st.segments[n - 1];
      k := PopsTheTop(State(front, st.current + top.value), scale);
      PushedBack(front, top, k);
      assert st.segments == front + [top];
      forall i | k <= i < n
        ensures st.segments[i].scale <= scale
      {
        assert i < n - 1 ==> st.segments[i] == front[i];
      }
    } else {
      NothingSummed();
      assert st.segments[..n] == st.segments && st.segments[n..] == [];
    }
  }

  lemma PopsOnce(st: State, scale: nat)
    ensures var n := |st.segments|;
            Popped(st, scale) ==
            if n > 0 && st.segments[n - 1].scale <= scale
            then Popped(State(st.segments[..n - 1], st.current + st.segments[n - 1].value), scale) else st
  {
  }

  lemma PushedBack(front: seq<Segment>, top: Segment, k: nat)
    requires k <= |front|
    ensures (front + [top])[..k] == front[..k] && Sum((front + [top])[k..]) == Sum(front[k..]) + top.value
  {
    SumAtEnd(front[k..], top);
    assert (front + [top])[k..] == front[k..] + [top];
  }

  lemma NothingSummed()
    ensures Sum([]) == 0
  {
  }

  lemma {:induction false} SumAtEnd(segments: seq<Segment>, last: Segment)
    ensures Sum(segments + [last]) == Sum(segments) + last.value
  {
    if segments == [] {
      assert segments + [last] == [last] && [last][1..] == [];
    } else {
      assert (segments + [last])[1..] == segments[1..] + [last];
      SumAtEnd(segments[1..], last);
    }
  }

  /** What each kind of word does to the stack: "and" nothing, numbers add, "hundred" multiplies, scales close a segment. */
  lemma WordsAct(st: State, word: string, i: nat, budget: nat)
    requires i < 33
    ensures Step(English(), st, "and", budget) == At(st)
    ensures word !in English().cardinals && word != "and" ==> Step(English(), st, word, budget) == Unknown
    ensures i < 28 ==> Step(English(), st, CardinalWord(i), budget) == At(State(st.segments, st.current + Worth(i)))
    ensures Step(English(), st, "hundred", budget) == At(State(st.segments, 100 * st.current))
    ensures i > 28 ==>
              var p := Popped(st, Worth(i));
              Step(English(), st, CardinalWord(i), budget) ==
              if Digits(p.current * Worth(i)) > budget then TooLong
              else At(State(p.segments + [Segment(p.current * Worth(i), Worth(i))], 0))
  {
    hide CardinalWord, OrdinalWord, Place, English, Popped, Digits;
    EnglishIsProper();
    HundredWord();
    WordIsFound(i);
    WordIsFound(28);
  }

  lemma WordIsFound(i: nat)
    requires i < 33 && Proper(English())
    ensures |English().cardinals| == 33 && CardinalWord(i) != "and" && Find(English().cardinals, CardinalWord(i)) == Some(i)
  {
    hide CardinalWord, OrdinalWord, Place, English;
    WordsOfTable(i);
    var v := English();
    assert v.cardinals[i] in v.cardinals;
    var found := Find(v.cardinals, v.cardinals[i]);
    DistinctPlaces(v, found.value, i);
  }

  /** The other engine knows cardinals and ordinals alike, and one word more by the regularity of its table. */
  lemma ValuesOfWords(i: nat, word: string)
    requires i < 33
    ensures |English().cardinals| == |English().ordinals| == 33
    ensures WordValue(English(), CardinalWord(i)) == Some(Worth(i)) && WordValue(English(), OrdinalWord(i)) == Some(Worth(i))
    ensures word !in English().cardinals + English().ordinals ==>
              WordValue(English(), word) == if word == "hundreieth" then Some(100) else None
  {
    hide CardinalWord, OrdinalWord, Place, English, Worth;
    EnglishIsProper();
    HundredWord();
    WordsOfTable(28);
    WordsOfTable(i);
    WordIsFound(i);
    OrdinalIsFound(i);
  }

  lemma OrdinalIsFound(i: nat)
    requires i < 33 && Proper(English())
    ensures Find(English().cardinals, OrdinalWord(i)) == None && Find(English().ordinals, OrdinalWord(i)) == Some(i)
  {
    hide CardinalWord, OrdinalWord, Place, English;
    WordsOfTable(i);
    var v := English();
    OrdinalsApart(v, i);
    assert v.ordinals[i] in v.ordinals;
  }

  lemma OrdinalsApart(v: Vocabulary, i: nat)
    requires Proper(v) && i < 33
    ensures forall k :: 0 <= k < 33 ==> v.cardinals[k] != v.ordinals[i]
    ensures forall k :: 0 <= k < 33 && v.ordinals[k] == v.ordinals[i] ==> k == i
  {
    var all := v.cardinals + v.ordinals;
    assert all[33 + i] == v.ordinals[i];
    forall k | 0 <= k < 33
      ensures v.cardinals[k] != v.ordinals[i]
      ensures v.ordinals[k] == v.ordinals[i] ==> k == i
    {
      assert all[k] == v.cardinals[k] && all[33 + k] == v.ordinals[k];
    }
  }

  /** Its words act alike, but its limit asks of the product whether the engine admits it. */
  lemma ValuesAct(st: State, value: nat, fits: nat -> bool)
    ensures JsStep(st, None, fits) == Unknown
    ensures value < 100 ==> JsStep(st, Some(value), fits) == At(State(st.segments, st.current + value))
    ensures JsStep(st, Some(100), fits) == At(State(st.segments, 100 * st.current))
    ensures value > 100 ==>
              var p := Popped(st, value);
              JsStep(st, Some(value), fits) ==
              if fits(p.current * value) then At(State(p.segments + [Segment(p.current * value, value)], 0)) else TooLong
  {
    hide Popped;
  }
}
