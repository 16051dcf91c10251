/**
 English number words: the printer, the parser with its stack of magnitudes, and the ordinal forms.

 A number of at least a thousand is written as a phrase, a magnitude and a remainder; reading keeps
 finished phrases on a stack until a greater magnitude takes them up.

 The words themselves are a parameter; `EnglishIsProper` shows that the English ones will do.
 */
module Words {
  import opened Options
  import opened Powers
  import opened Numerals

  /** Words for 0 to 19, the tens from 20, hundred, thousand, million, billion, trillion; and their ordinals. */
  datatype Vocabulary = Vocabulary(cardinals: seq<string>, ordinals: seq<string>)

  const HUNDRED := 28

  predicate WordLike(w: string) {
    w != "" && AllLetters(w)
  }

  ghost predicate Distinct(table: seq<string>) {
    forall i, j :: 0 <= i < j < |table| ==> table[i] != table[j]
  }

  ghost predicate Proper(v: Vocabulary) {
    && |v.cardinals| == 33 && |v.ordinals| == 33
    && (forall i :: 0 <= i < 33 ==> WordLike(v.cardinals[i]) && WordLike(v.ordinals[i]))
    && Distinct(v.cardinals + v.ordinals) && "and" !in v.cardinals
    && v.ordinals[0] == v.cardinals[0] + "th" && v.cardinals[0][|v.cardinals[0]| - 1] != 'y'
  }

  lemma TablesDistinct(v: Vocabulary)
    requires Proper(v)
    ensures Distinct(v.cardinals) && Distinct(v.ordinals)
    ensures forall w :: w in v.cardinals ==> w !in v.ordinals
  {
    var all := v.cardinals + v.ordinals;
    assert forall i :: 0 <= i < 33 ==> v.cardinals[i] == all[i];
    assert forall j :: 0 <= j < 33 ==> v.ordinals[j] == all[j + 33];
  }

  /** The number a word stands for. */
  function Worth(i: nat): nat
    requires i < 33
  {
    if i < 20 then i
    else if i < 28 then (i - 18) * 10
    else if i == 28 then 100
    else if i == 29 then 1000
    else if i == 30 then 1_000_000
    else if i == 31 then 1_000_000_000
    else 1_000_000_000_000
  }

  function Find(table: seq<string>, w: string): (r: Option<nat>)
    ensures r.Some? ==> r.value < |table| && table[r.value] == w
    ensures r.None? ==> w !in table
  {
    if table == [] then None
    else if table[|table| - 1] == w then Some(|table| - 1)
    else Find(table[..|table| - 1], w)
  }

  lemma FindInDistinct(table: seq<string>, i: nat)
    requires Distinct(table) && i < |table|
    ensures Find(table, table[i]) == Some(i)
  {
  }

  // ---------------------------------------------------------------------------
  // Printing
  // ---------------------------------------------------------------------------

  function BelowHundred(v: Vocabulary, n: nat): string
    requires |v.cardinals| == 33 && n < 100
  {
    if n < 20 then v.cardinals[n]
    else if n % 10 == 0 then v.cardinals[18 + n / 10]
    else v.cardinals[18 + n / 10] + "-" + v.cardinals[n % 10]
  }

  function BelowThousand(v: Vocabulary, n: nat): string
    requires |v.cardinals| == 33 && n < 1000
  {
    if n < 100 then BelowHundred(v, n)
    else if n % 100 == 0 then v.cardinals[n / 100] + " " + v.cardinals[HUNDRED]
    else v.cardinals[n / 100] + " " + v.cardinals[HUNDRED] + " and " + BelowHundred(v, n % 100)
  }

  /** The word of the greatest magnitude in n; numbers beyond trillions reuse that word. */
  function Magnitude(n: nat): (m: nat)
    requires n >= 1000
    ensures HUNDRED < m < 33 && 1000 <= Worth(m) <= n
  {
    if n >= 1_000_000_000_000 then 32 else if n >= 1_000_000_000 then 31 else if n >= 1_000_000 then 30 else 29
  }

  function Text(v: Vocabulary, n: nat): string
    requires |v.cardinals| == 33
  {
    if n < 1000 then BelowThousand(v, n)
    else
      var m := Magnitude(n);
      var q, r := n / Worth(m), n % Worth(m);
      var words := Text(v, q) + " " + v.cardinals[m];
      if r == 0 then words else words + (if r < 100 then " and " else ", ") + Text(v, r)
  }

  /** The position after the last space or hyphen. */
  function LastStart(s: string): (k: nat)
    ensures k <= |s|
  {
    if s == "" || s[|s| - 1] == ' ' || s[|s| - 1] == '-' then |s| else LastStart(s[..|s| - 1])
  }

  /** The last word becomes an ordinal; zero has no entry and takes the plain ending. */
  function Ordinal(v: Vocabulary, s: string): string
    requires |v.cardinals| == |v.ordinals| == 33
  {
    var k := LastStart(s);
    var last := s[k..];
    match Find(v.cardinals[1..], last)
    case Some(i) => s[..k] + v.ordinals[i + 1]
    case None =>
      if last != "" && last[|last| - 1] == 'y' then s[..k] + last[..|last| - 1] + "ieth" else s[..k] + last + "th"
  }

  function Cardinal(v: Vocabulary, s: string): string
    requires |v.cardinals| == |v.ordinals| == 33
  {
    var k := LastStart(s);
    match Find(v.ordinals, s[k..])
    case Some(i) => s[..k] + v.cardinals[i]
    case None => s
  }

  // ---------------------------------------------------------------------------
  // Parsing
  // ---------------------------------------------------------------------------

  /** Hyphens, commas and white space. */
  predicate Separates(c: char) {
    || c == ' ' || c == '-' || c == ',' || '\t' <= c <= '\r' || c == '\U{0085}' || c == '\U{00A0}' || c == '\U{1680}'
    || '\U{2000}' <= c <= '\U{200A}' || c == '\U{2028}' || c == '\U{2029}' || c == '\U{202F}' || c == '\U{205F}' || c == '\U{3000}'
  }

  function WordEnd(s: string): (k: nat)
    ensures k <= |s|
  {
    if s == "" || Separates(s[0]) then 0 else 1 + WordEnd(s[1..])
  }

  function Fields(s: string): seq<string>
    decreases |s|
  {
    if s == "" then []
    else if Separates(s[0]) then Fields(s[1..])
    else
      var k := WordEnd(s);
      [s[..k]] + Fields(s[k..])
  }

  datatype Segment = Segment(value: nat, scale: nat)

  datatype State = State(segments: seq<Segment>, current: nat)

  datatype Progress = At(state: State) | Unknown | TooLong

  function Sum(segments: seq<Segment>): nat {
    if segments == [] then 0 else segments[0].value + Sum(segments[1..])
  }

  /** A magnitude applies to every smaller-magnitude phrase before it. */
  function Popped(st: State, scale: nat): State
    decreases |st.segments|
  {
    var n := |st.segments|;
    if n > 0 && st.segments[n - 1].scale <= scale then
      Popped(State(st.segments[..n - 1], st.current + st.segments[n - 1].value), scale)
    else st
  }

  function Step(v: Vocabulary, st: State, word: string, budget: nat): Progress
    requires |v.cardinals| == 33
  {
    if word == "and" then At(st) else
    match Find(v.cardinals, word)
    case None => Unknown
    case Some(i) =>
      if Worth(i) < 100 then At(State(st.segments, st.current + Worth(i)))
      else if Worth(i) == 100 then At(State(st.segments, st.current * 100))
      else
        var p := Popped(st, Worth(i));
        var scaled := p.current * Worth(i);
        if Digits(scaled) > budget then TooLong else At(State(p.segments + [Segment(scaled, Worth(i))], 0))
  }

  function Run(v: Vocabulary, p: Progress, words: seq<string>, budget: nat): Progress
    requires |v.cardinals| == 33
    decreases |words|
  {
    if words == [] || !p.At? then p else Run(v, Step(v, p.state, words[0], budget), words[1..], budget)
  }

  function Outcome(p: Progress): Parsed {
    match p
    case At(st) => Value(st.current + Sum(st.segments))
    case Unknown => Invalid
    case TooLong => OverBudget
  }

  function Parse(v: Vocabulary, s: string, budget: nat): Parsed
    requires |v.cardinals| == |v.ordinals| == 33
  {
    Outcome(Run(v, At(State([], 0)), Fields(Cardinal(v, s)), budget))
  }

  lemma {:induction false} SumAppends(a: seq<Segment>, b: seq<Segment>)
    ensures Sum(a + b) == Sum(a) + Sum(b)
  {
    if a == [] {
      assert a + b == b;
    } else {
      assert (a + b)[1..] == a[1..] + b;
      SumAppends(a[1..], b);
    }
  }

  lemma RunStep(v: Vocabulary, st: State, words: seq<string>, i: nat, budget: nat)
    requires |v.cardinals| == 33 && i < |words|
    ensures Run(v, At(st), words[i..], budget) == Run(v, Step(v, st, words[i], budget), words[i + 1..], budget)
    ensures !Step(v, st, words[i], budget).At? ==> Run(v, At(st), words[i..], budget) == Step(v, st, words[i], budget)
  {
    assert words[i..][1..] == words[i + 1..];
  }

  method WordsToBigInt(v: Vocabulary, s: string, budget: nat) returns (r: Parsed)
    requires |v.cardinals| == |v.ordinals| == 33
    ensures r == Parse(v, s, budget)
  {
    var words := Fields(Cardinal(v, s));
    var segments: seq<Segment>, current: nat := [], 0;
    ghost var start := Run(v, At(State([], 0)), words, budget);
    for i := 0 to |words|
      invariant start == Run(v, At(State(segments, current)), words[i..], budget)
    {
      var word := words[i];
      ghost var st := State(segments, current);
      RunStep(v, st, words, i, budget);
      if word == "and" {
        continue;
      }
      var found := Find(v.cardinals, word);
      if found.None? {
        return Invalid;
      }
      var value := Worth(found.value);
      if value < 100 {
        current := current + value;
      } else if value == 100 {
        current := current * value;
      } else {
        segments, current := PopSegments(segments, current, value);
        current := current * value;
        if Digits(current) > budget {
          return OverBudget;
        }
        segments := segments + [Segment(current, value)];
        current := 0;
      }
    }
    assert words[|words|..] == [];
    current := AddSegments(segments, current);
    return Value(current);
  }

  method PopSegments(stack: seq<Segment>, accumulated: nat, value: nat) returns (segments: seq<Segment>, current: nat)
    ensures State(segments, current) == Popped(State(stack, accumulated), value)
  {
    segments, current := stack, accumulated;
    while |segments| > 0 && segments[|segments| - 1].scale <= value
      invariant Popped(State(segments, current), value) == Popped(State(stack, accumulated), value)
    {
      current := current + segments[|segments| - 1].value;
      segments := segments[..|segments| - 1];
    }
  }

  method AddSegments(segments: seq<Segment>, current: nat) returns (total: nat)
    ensures total == current + Sum(segments)
  {
    total := current;
    for i := 0 to |segments|
      invariant total + Sum(segments[i..]) == current + Sum(segments)
    {
      assert segments[i..][1..] == segments[i + 1..];
      total := total + segments[i].value;
    }
  }

  // ---------------------------------------------------------------------------
  // The words of a printed number
  // ---------------------------------------------------------------------------

  lemma LettersDoNotSeparate(w: string)
    requires AllLetters(w)
    ensures forall i :: 0 <= i < |w| ==> !Separates(w[i])
  {
  }

  lemma {:induction false} WordEndOf(w: string, t: string)
    requires AllLetters(w) && (t == "" || Separates(t[0]))
    ensures WordEnd(w + t) == |w|
  {
    if w == "" {
      assert w + t == t;
    } else {
      assert (w + t)[1..] == w[1..] + t;
      LettersDoNotSeparate(w);
      WordEndOf(w[1..], t);
    }
  }

  lemma FieldsWord(w: string, t: string)
    requires w != "" && AllLetters(w) && (t == "" || Separates(t[0]))
    ensures Fields(w + t) == [w] + Fields(t)
  {
    WordEndOf(w, t);
    LettersDoNotSeparate(w);
    var s := w + t;
    assert s[0] == w[0] && s[..|w|] == w && s[|w|..] == t;
  }

  lemma {:induction false} WordEndKept(s: string, t: string)
    requires t == "" || Separates(t[0])
    ensures WordEnd(s + t) == WordEnd(s)
  {
    if s == "" {
      assert s + t == t;
    } else {
      assert (s + t)[1..] == s[1..] + t;
      WordEndKept(s[1..], t);
    }
  }

  lemma {:induction false} FieldsAppend(s: string, t: string)
    requires t == "" || Separates(t[0])
    ensures Fields(s + t) == Fields(s) + Fields(t)
    decreases |s|
  {
    var all := s + t;
    if s == "" {
      assert all == t;
    } else if Separates(s[0]) {
      assert all[1..] == s[1..] + t;
      FieldsAppend(s[1..], t);
    } else {
      var k := WordEnd(s);
      WordEndKept(s, t);
      assert all[..k] == s[..k] && all[k..] == s[k..] + t;
      FieldsAppend(s[k..], t);
    }
  }

  /** What stands between two words or phrases. */
  datatype Glue = Space | Hyphen | Comma | And

  function Spelled(g: Glue): string {
    match g
    case Space => " "
    case Hyphen => "-"
    case Comma => ", "
    case And => " and "
  }

  lemma FieldsGlued(g: Glue, t: string)
    ensures Fields(Spelled(g) + t) == (if g.And? then ["and"] else []) + Fields(t)
    ensures Separates((Spelled(g) + t)[0])
  {
    var u := Spelled(g) + t;
    if g.And? {
      assert u[1..] == "and" + (" " + t);
      FieldsWord("and", " " + t);
      assert (" " + t)[1..] == t;
    } else if g.Comma? {
      assert u[1..] == " " + t;
      assert (" " + t)[1..] == t;
    } else {
      assert u[1..] == t;
    }
  }

  /** How a connective between two texts shows in the words. */
  lemma FieldsConnected(s: string, g: Glue, t: string)
    ensures Fields(s + Spelled(g) + t) == Fields(s) + (if g.And? then ["and"] else []) + Fields(t)
  {
    hide *;
    FieldsGlued(g, t);
    FieldsAppend(s, Spelled(g) + t);
    assert s + Spelled(g) + t == s + (Spelled(g) + t);
  }

  lemma {:induction false} RunAppends(v: Vocabulary, p: Progress, a: seq<string>, b: seq<string>, budget: nat)
    requires |v.cardinals| == 33
    ensures Run(v, p, a + b, budget) == Run(v, Run(v, p, a, budget), b, budget)
    decreases |a|
  {
    if a == [] {
      assert a + b == b;
    } else if p.At? {
      assert (a + b)[1..] == a[1..] + b;
      RunAppends(v, Step(v, p.state, a[0], budget), a[1..], b, budget);
    }
  }

  /** Running the words of one text, a connective and another text. */
  lemma RunConnected(v: Vocabulary, p: Progress, s: string, g: Glue, t: string, budget: nat)
    requires |v.cardinals| == 33
    ensures Run(v, p, Fields(s + Spelled(g) + t), budget) == Run(v, Run(v, p, Fields(s), budget), Fields(t), budget)
  {
    var middle := if g.And? then ["and"] else [];
    FieldsConnected(s, g, t);
    RunAppends(v, p, Fields(s) + middle, Fields(t), budget);
    RunAppends(v, p, Fields(s), middle, budget);
    var q := Run(v, p, Fields(s), budget);
    if g.And? && q.At? {
      assert middle[1..] == [];
      assert Run(v, Step(v, q.state, "and", budget), [], budget) == q;
    }
  }

  lemma RunWord(v: Vocabulary, st: State, i: nat, budget: nat)
    requires Proper(v) && i < 33
    ensures Run(v, At(st), Fields(v.cardinals[i]), budget) == Step(v, st, v.cardinals[i], budget)
    ensures Find(v.cardinals, v.cardinals[i]) == Some(i) && v.cardinals[i] != "and"
  {
    var w := v.cardinals[i];
    assert WordLike(w);
    FieldsWord(w, "");
    assert w + "" == w;
    TablesDistinct(v);
    FindInDistinct(v.cardinals, i);
    assert [w][1..] == [];
  }

  lemma RunUnits(v: Vocabulary, st: State, i: nat, budget: nat)
    requires Proper(v) && i < HUNDRED
    ensures Run(v, At(st), Fields(v.cardinals[i]), budget) == At(State(st.segments, st.current + Worth(i)))
  {
    RunWord(v, st, i, budget);
  }

  lemma RunHundred(v: Vocabulary, st: State, budget: nat)
    requires Proper(v)
    ensures Run(v, At(st), Fields(v.cardinals[HUNDRED]), budget) == At(State(st.segments, st.current * 100))
  {
    RunWord(v, st, HUNDRED, budget);
  }

  lemma RunPair(v: Vocabulary, p: Progress, a: string, g: Glue, b: string, mid: Progress, end: Progress, budget: nat)
    requires |v.cardinals| == 33
    requires Run(v, p, Fields(a), budget) == mid && Run(v, mid, Fields(b), budget) == end
    ensures Run(v, p, Fields(a + Spelled(g) + b), budget) == end
  {
    RunConnected(v, p, a, g, b, budget);
  }

  lemma RunHyphened(v: Vocabulary, st: State, tens: nat, ones: nat, budget: nat)
    requires Proper(v) && 20 <= tens < HUNDRED && ones < 10
    ensures Run(v, At(st), Fields(v.cardinals[tens] + "-" + v.cardinals[ones]), budget) ==
            At(State(st.segments, st.current + Worth(tens) + ones))
  {
    var mid := State(st.segments, st.current + Worth(tens));
    RunUnits(v, st, tens, budget);
    RunUnits(v, mid, ones, budget);
    RunPair(v, At(st), v.cardinals[tens], Hyphen, v.cardinals[ones], At(mid), At(State(mid.segments, mid.current + ones)), budget);
  }

  lemma RunBelowHundred(v: Vocabulary, st: State, n: nat, budget: nat)
    requires Proper(v) && n < 100
    ensures Run(v, At(st), Fields(BelowHundred(v, n)), budget) == At(State(st.segments, st.current + n))
  {
    if n < 20 {
      RunUnits(v, st, n, budget);
    } else if n % 10 == 0 {
      RunUnits(v, st, 18 + n / 10, budget);
    } else {
      RunHyphened(v, st, 18 + n / 10, n % 10, budget);
    }
  }

  lemma RunBelowThousand(v: Vocabulary, st: State, n: nat, budget: nat)
    requires Proper(v) && n < 1000 && st.current == 0
    ensures Run(v, At(st), Fields(BelowThousand(v, n)), budget) == At(State(st.segments, n))
  {
    if n < 100 {
      RunBelowHundred(v, st, n, budget);
    } else {
      var h, r := n / 100, n % 100;
      RunHundreds(v, st, h, budget);
      if r != 0 {
        var hundreds := v.cardinals[h] + " " + v.cardinals[HUNDRED];
        RunConnected(v, At(st), hundreds, And, BelowHundred(v, r), budget);
        RunBelowHundred(v, State(st.segments, h * 100), r, budget);
      }
    }
  }

  lemma RunHundreds(v: Vocabulary, st: State, h: nat, budget: nat)
    requires Proper(v) && h < 10 && st.current == 0
    ensures Run(v, At(st), Fields(v.cardinals[h] + " " + v.cardinals[HUNDRED]), budget) == At(State(st.segments, h * 100))
  {
    var mid := State(st.segments, h);
    RunUnits(v, st, h, budget);
    RunHundred(v, mid, budget);
    RunPair(v, At(st), v.cardinals[h], Space, v.cardinals[HUNDRED], At(mid), At(State(st.segments, h * 100)), budget);
  }

  // ---------------------------------------------------------------------------
  // The stack of magnitudes
  // ---------------------------------------------------------------------------

  /** The greatest scale the words of n put on the stack. */
  function Reach(n: nat): nat {
    if n < 1000 then 1 else Worth(Magnitude(n))
  }

  /** What the words of n leave on the stack and in the accumulator. */
  function Left(n: nat): State {
    if n < 1000 then State([], n)
    else
      var m := Magnitude(n);
      var q, r := n / Worth(m), n % Worth(m);
      State([Segment(q * Worth(m), Worth(m))] + Left(r).segments, Left(r).current)
  }

  lemma {:induction false} LeftSums(n: nat)
    ensures Left(n).current + Sum(Left(n).segments) == n
    ensures forall g :: g in Left(n).segments ==> g.scale <= Reach(n)
  {
    if n >= 1000 {
      var w := Worth(Magnitude(n));
      var head, rest := Segment(n / w * w, w), Left(n % w);
      LeftSums(n % w);
      DivLaw(n, w);
      assert Left(n) == State([head] + rest.segments, rest.current);
      assert ([head] + rest.segments)[1..] == rest.segments;
      assert n / w * w + n % w == n;
      ReachShrinks(n);
    } else {
      assert Sum([]) == 0;
    }
  }

  /** A magnitude takes up everything the phrase before it left, and nothing below. */
  lemma {:induction false} PopsPhrase(below: seq<Segment>, phrase: seq<Segment>, current: nat, scale: nat)
    requires forall g :: g in below ==> g.scale > scale
    requires forall g :: g in phrase ==> g.scale <= scale
    ensures Popped(State(below + phrase, current), scale) == State(below, current + Sum(phrase))
    decreases |phrase|
  {
    if phrase == [] {
      assert below + phrase == below;
      NothingPops(below, current, scale);
    } else {
      hide *;
      var rest, top := phrase[..|phrase| - 1], phrase[|phrase| - 1];
      LastApart(below, phrase);
      PopsTop(below + rest, top, current, scale);
      SumGrows(rest, top);
      PopsPhrase(below, rest, current + top.value, scale);
    }
  }

  lemma LastApart(below: seq<Segment>, phrase: seq<Segment>)
    requires phrase != []
    ensures var rest, top := phrase[..|phrase| - 1], phrase[|phrase| - 1];
            && phrase == rest + [top] && below + phrase == below + rest + [top] && top in phrase
            && forall g :: g in rest ==> g in phrase
  {
  }

  lemma NothingPops(below: seq<Segment>, current: nat, scale: nat)
    requires forall g :: g in below ==> g.scale > scale
    ensures Popped(State(below, current), scale) == State(below, current)
    ensures Sum([]) == 0
  {
    assert below != [] ==> below[|below| - 1] in below;
  }

  lemma SumGrows(rest: seq<Segment>, top: Segment)
    ensures Sum(rest + [top]) == Sum(rest) + top.value
  {
    SumAppends(rest, [top]);
  }

  lemma PopsTop(stack: seq<Segment>, top: Segment, current: nat, scale: nat)
    requires top.scale <= scale
    ensures Popped(State(stack + [top], current), scale) == Popped(State(stack, current + top.value), scale)
  {
    assert (stack + [top])[..|stack|] == stack;
  }

  lemma DigitsOfThousands(n: nat)
    requires n >= 1000
    ensures Digits(n) == Digits(n / 1000) + 3
  {
    assert Digits(n) == 1 + Digits(n / 10);
    assert Digits(n / 10) == 1 + Digits(n / 10 / 10);
    assert n / 10 / 10 / 10 == n / 1000;
  }

  /** Dropping the remainder of a magnitude keeps the number of digits. */
  lemma DigitsOfScaled(n: nat, m: nat)
    requires HUNDRED < m < 33 && n >= Worth(m)
    ensures Digits(n / Worth(m) * Worth(m)) == Digits(n)
    decreases m
  {
    var w := Worth(m);
    var scaled := n / w * w;
    ThousandsOfScaled(n, m);
    DigitsOfThousands(n);
    DigitsOfThousands(scaled);
    if m > 29 {
      DigitsOfScaled(n / 1000, m - 1);
    }
  }

  lemma ThousandsOfScaled(n: nat, m: nat)
    requires HUNDRED < m < 33 && n >= Worth(m)
    ensures var scaled := n / Worth(m) * Worth(m);
            && scaled >= 1000
            && scaled / 1000 == if m == 29 then n / 1000 else n / 1000 / Worth(m - 1) * Worth(m - 1)
    ensures m > 29 ==> n / 1000 >= Worth(m - 1)
  {
    ThousandsOf(n, Worth(m), if m == 29 then 1 else Worth(m - 1));
  }

  lemma QuotientUnique(n: nat, a: nat, q: nat, r: nat)
    requires a > 0 && n == q * a + r && r < a
    ensures n / a == q
  {
    var d := n / a - q;
    assert d * a == r - n % a;
    if d > 0 {
      MulMonotone(1, d, a);
    } else if d < 0 {
      MulMonotone(d, -1, a);
    }
  }

  lemma ThousandsOf(n: nat, w: nat, k: nat)
    requires w == 1000 * k && 0 < k && w <= n
    ensures n / w * w >= 1000 && n / w * w / 1000 == n / 1000 / k * k && n / 1000 >= k
  {
    var a, b := n / 1000, n % 1000;
    var c, d := a / k, a % k;
    assert a == c * k + d;
    Assoc(1000, c, k);
    Swap(1000, c, k);
    assert c * w == 1000 * (c * k);
    QuotientUnique(n, w, c, 1000 * d + b);
    MulMonotone(1, n / w, w) by {
      DivLaw(n, w);
    }
  }

  ghost predicate Fits(n: nat, budget: nat) {
    n < 1000 || Digits(n) <= budget
  }

  lemma RunMagnitude(v: Vocabulary, below: seq<Segment>, n: nat, budget: nat)
    requires Proper(v) && n >= 1000
    requires forall g :: g in below ==> g.scale > Reach(n)
    ensures var m := Magnitude(n);
            var q := n / Worth(m);
            var st := State(below + Left(q).segments, Left(q).current);
            Run(v, At(st), Fields(v.cardinals[m]), budget) ==
            if Digits(n) <= budget then At(State(below + [Segment(q * Worth(m), Worth(m))], 0)) else TooLong
  {
    var m := Magnitude(n);
    var q := n / Worth(m);
    LeftSums(q);
    assert Reach(q) <= Worth(m);
    PopsPhrase(below, Left(q).segments, Left(q).current, Worth(m));
    RunWord(v, State(below + Left(q).segments, Left(q).current), m, budget);
    DigitsOfScaled(n, m);
  }

  lemma QuotientFits(n: nat, m: nat, budget: nat)
    requires HUNDRED < m < 33 && n >= Worth(m)
    ensures Fits(n, budget) ==> Fits(n / Worth(m), budget) && Fits(n % Worth(m), budget)
  {
    DigitsMonotone(n / Worth(m), n);
    DigitsMonotone(n % Worth(m), n);
  }

  lemma ReachShrinks(n: nat)
    requires n >= 1000
    ensures Reach(n / Worth(Magnitude(n))) <= Reach(n) == Worth(Magnitude(n)) && Reach(n % Worth(Magnitude(n))) < Reach(n)
  {
  }

  lemma LeftBelow(below: seq<Segment>, head: Segment, tail: seq<Segment>)
    ensures below + [head] + tail == below + ([head] + tail)
  {
  }

  /** The text of n up to its magnitude. */
  function Head(v: Vocabulary, n: nat): string
    requires |v.cardinals| == 33 && n >= 1000
  {
    Text(v, n / Worth(Magnitude(n))) + " " + v.cardinals[Magnitude(n)]
  }

  function HeadLeft(below: seq<Segment>, n: nat, budget: nat): Progress
    requires n >= 1000
  {
    var w := Worth(Magnitude(n));
    if Digits(n) <= budget then At(State(below + [Segment(n / w * w, w)], 0)) else TooLong
  }

  /** What the words of n leave over the segments below them. */
  ghost function After(below: seq<Segment>, n: nat, budget: nat): Progress {
    if Fits(n, budget) then At(State(below + Left(n).segments, Left(n).current)) else TooLong
  }

  lemma AfterSplits(below: seq<Segment>, n: nat, budget: nat)
    requires n >= 1000
    ensures var w := Worth(Magnitude(n));
            var r := n % w;
            After(below, n, budget) ==
            if r == 0 || Digits(n) > budget then HeadLeft(below, n, budget)
            else After(below + [Segment(n / w * w, w)], r, budget)
  {
    var w := Worth(Magnitude(n));
    QuotientFits(n, Magnitude(n), budget);
    LeftBelow(below, Segment(n / w * w, w), Left(n % w).segments);
  }

  lemma RunHead(v: Vocabulary, below: seq<Segment>, n: nat, budget: nat)
    requires Proper(v) && n >= 1000
    requires forall g :: g in below ==> g.scale > Reach(n)
    requires var q := n / Worth(Magnitude(n));
             Run(v, At(State(below, 0)), Fields(Text(v, q)), budget) == After(below, q, budget)
    ensures Run(v, At(State(below, 0)), Fields(Head(v, n)), budget) == HeadLeft(below, n, budget)
  {
    var m := Magnitude(n);
    RunMagnitude(v, below, n, budget);
    QuotientFits(n, m, budget);
    RunConnected(v, At(State(below, 0)), Text(v, n / Worth(m)), Space, v.cardinals[m], budget);
  }

  lemma RunTail(v: Vocabulary, below: seq<Segment>, n: nat, budget: nat)
    requires Proper(v) && n >= 1000
    requires Run(v, At(State(below, 0)), Fields(Head(v, n)), budget) == HeadLeft(below, n, budget)
    ensures var r := n % Worth(Magnitude(n));
            Run(v, At(State(below, 0)), Fields(Text(v, n)), budget) ==
            if r == 0 then HeadLeft(below, n, budget) else Run(v, HeadLeft(below, n, budget), Fields(Text(v, r)), budget)
  {
    var r := n % Worth(Magnitude(n));
    if r != 0 {
      RunConnected(v, At(State(below, 0)), Head(v, n), if r < 100 then And else Comma, Text(v, r), budget);
    }
  }

  lemma RunSmall(v: Vocabulary, below: seq<Segment>, n: nat, budget: nat)
    requires Proper(v) && n < 1000
    ensures Run(v, At(State(below, 0)), Fields(Text(v, n)), budget) == After(below, n, budget)
  {
    RunBelowThousand(v, State(below, 0), n, budget);
    assert below + [] == below;
  }

  /** The text of n, given what its head and its remainder leave. */
  lemma RunWhole(v: Vocabulary, below: seq<Segment>, n: nat, budget: nat)
    requires Proper(v) && n >= 1000
    requires Run(v, At(State(below, 0)), Fields(Head(v, n)), budget) == HeadLeft(below, n, budget)
    requires var w := Worth(Magnitude(n));
             var grown := below + [Segment(n / w * w, w)];
             Run(v, At(State(grown, 0)), Fields(Text(v, n % w)), budget) == After(grown, n % w, budget)
    ensures Run(v, At(State(below, 0)), Fields(Text(v, n)), budget) == After(below, n, budget)
  {
    RunTail(v, below, n, budget);
    AfterSplits(below, n, budget);
  }

  /** From an empty accumulator over greater magnitudes, the words of n leave exactly `Left(n)`. */
  lemma {:induction false} RunText(v: Vocabulary, below: seq<Segment>, n: nat, budget: nat)
    requires Proper(v)
    requires forall g :: g in below ==> g.scale > Reach(n)
    ensures Run(v, At(State(below, 0)), Fields(Text(v, n)), budget) == After(below, n, budget)
    decreases n
  {
    if n < 1000 {
      RunSmall(v, below, n, budget);
    } else {
      var w := Worth(Magnitude(n));
      var grown := below + [Segment(n / w * w, w)];
      ReachShrinks(n);
      RunText(v, below, n / w, budget);
      RunHead(v, below, n, budget);
      RunText(v, grown, n % w, budget);
      RunWhole(v, below, n, budget);
    }
  }

  // ---------------------------------------------------------------------------
  // Ordinals
  // ---------------------------------------------------------------------------

  lemma {:induction false} LastStartOf(front: string, w: string)
    requires AllLetters(w) && (front == "" || front[|front| - 1] == ' ' || front[|front| - 1] == '-')
    ensures LastStart(front + w) == |front|
  {
    var s := front + w;
    if w == "" {
      assert s == front;
    } else {
      assert s[..|s| - 1] == front + w[..|w| - 1];
      assert s[|s| - 1] == w[|w| - 1];
      LastStartOf(front, w[..|w| - 1]);
    }
  }

  /** A printed number ends in a word of the vocabulary. */
  lemma {:induction false} LastWord(v: Vocabulary, n: nat) returns (front: string, i: nat)
    requires Proper(v)
    ensures i < 33 && Text(v, n) == front + v.cardinals[i]
    ensures front == "" || front[|front| - 1] == ' ' || front[|front| - 1] == '-'
  {
    if n < 1000 {
      front, i := LastWordBelowThousand(v, n);
    } else {
      var m := Magnitude(n);
      var q, r := n / Worth(m), n % Worth(m);
      if r == 0 {
        front, i := Text(v, q) + " ", m;
      } else {
        var inner;
        inner, i := LastWord(v, r);
        var head := Head(v, n) + (if r < 100 then " and " else ", ");
        front := head + inner;
        assert head + (inner + v.cardinals[i]) == front + v.cardinals[i];
      }
    }
  }

  lemma LastWordBelowThousand(v: Vocabulary, n: nat) returns (front: string, i: nat)
    requires Proper(v) && n < 1000
    ensures i < 33 && BelowThousand(v, n) == front + v.cardinals[i]
    ensures front == "" || front[|front| - 1] == ' ' || front[|front| - 1] == '-'
  {
    if n < 100 {
      front, i := LastWordBelowHundred(v, n);
    } else if n % 100 == 0 {
      front, i := v.cardinals[n / 100] + " ", HUNDRED;
    } else {
      front, i := LastWordBelowHundred(v, n % 100);
      front := v.cardinals[n / 100] + " " + v.cardinals[HUNDRED] + " and " + front;
    }
  }

  lemma LastWordBelowHundred(v: Vocabulary, n: nat) returns (front: string, i: nat)
    requires Proper(v) && n < 100
    ensures i < 33 && BelowHundred(v, n) == front + v.cardinals[i]
    ensures front == "" || front[|front| - 1] == ' ' || front[|front| - 1] == '-'
  {
    if n < 20 {
      front, i := "", n;
    } else if n % 10 == 0 {
      front, i := "", 18 + n / 10;
    } else {
      front, i := v.cardinals[18 + n / 10] + "-", n % 10;
    }
  }

  lemma FindTail(v: Vocabulary, i: nat)
    requires Proper(v) && i < 33
    ensures Find(v.cardinals[1..], v.cardinals[i]) == if i == 0 then None else Some(i - 1)
  {
    var tail := v.cardinals[1..];
    TablesDistinct(v);
    assert forall k :: 0 <= k < |tail| ==> tail[k] == v.cardinals[k + 1];
    if i > 0 {
      assert tail[i - 1] == v.cardinals[i];
      FindInDistinct(tail, i - 1);
    }
  }

  lemma ParsedTextEnds(front: string, w: string)
    requires WordLike(w) && (front == "" || front[|front| - 1] == ' ' || front[|front| - 1] == '-')
    ensures var s := front + w;
            LastStart(s) == |front| && s[|front|..] == w && s[..|front|] == front
  {
    LastStartOf(front, w);
  }

  lemma OrdinalOfZero(v: Vocabulary, front: string)
    requires Proper(v) && (front == "" || front[|front| - 1] == ' ' || front[|front| - 1] == '-')
    ensures Ordinal(v, front + v.cardinals[0]) == front + v.ordinals[0]
  {
    var c := v.cardinals[0];
    ParsedTextEnds(front, c);
    FindTail(v, 0);
    assert front + c + "th" == front + (c + "th");
  }

  lemma OrdinalOf(v: Vocabulary, front: string, i: nat)
    requires Proper(v) && i < 33 && (front == "" || front[|front| - 1] == ' ' || front[|front| - 1] == '-')
    ensures Ordinal(v, front + v.cardinals[i]) == front + v.ordinals[i]
  {
    if i == 0 {
      OrdinalOfZero(v, front);
    } else {
      ParsedTextEnds(front, v.cardinals[i]);
      FindTail(v, i);
    }
  }

  lemma CardinalOf(v: Vocabulary, front: string, i: nat)
    requires Proper(v) && i < 33 && (front == "" || front[|front| - 1] == ' ' || front[|front| - 1] == '-')
    ensures Cardinal(v, front + v.ordinals[i]) == Cardinal(v, front + v.cardinals[i]) == front + v.cardinals[i]
  {
    ParsedTextEnds(front, v.cardinals[i]);
    ParsedTextEnds(front, v.ordinals[i]);
    TablesDistinct(v);
    FindInDistinct(v.ordinals, i);
    assert v.cardinals[i] !in v.ordinals;
  }

  lemma ParsePlain(v: Vocabulary, n: nat, budget: nat)
    requires Proper(v)
    ensures Outcome(Run(v, At(State([], 0)), Fields(Text(v, n)), budget)) ==
            if n < 1000 || Digits(n) <= budget then Value(n) else OverBudget
  {
    RunText(v, [], n, budget);
    LeftSums(n);
    assert [] + Left(n).segments == Left(n).segments;
  }

  /** Cardinal and ordinal words read back as the number, exactly when its digits fit the budget. */
  lemma WordsReadBack(v: Vocabulary, n: nat, budget: nat)
    requires Proper(v)
    ensures Parse(v, Text(v, n), budget) == if n < 1000 || Digits(n) <= budget then Value(n) else OverBudget
    ensures Parse(v, Ordinal(v, Text(v, n)), budget) == Parse(v, Text(v, n), budget)
  {
    var front, i := LastWord(v, n);
    OrdinalOf(v, front, i);
    CardinalOf(v, front, i);
    ParsePlain(v, n, budget);
  }

  /** Different numbers have different words. */
  lemma WordsAreInjective(v: Vocabulary, m: nat, n: nat)
    requires Proper(v) && Text(v, m) == Text(v, n)
    ensures m == n
  {
    var budget := Digits(m) + Digits(n);
    WordsReadBack(v, m, budget);
    WordsReadBack(v, n, budget);
  }

  // ---------------------------------------------------------------------------
  // English
  // ---------------------------------------------------------------------------

  function CardinalWord(i: nat): string
    requires i < 33
  {
    match i
    case 0 => "zero" case 1 => "one" case 2 => "two" case 3 => "three" case 4 => "four" case 5 => "five"
    case 6 => "six" case 7 => "seven" case 8 => "eight" case 9 => "nine" case 10 => "ten" case 11 => "eleven"
    case 12 => "twelve" case 13 => "thirteen" case 14 => "fourteen" case 15 => "fifteen" case 16 => "sixteen"
    case 17 => "seventeen" case 18 => "eighteen" case 19 => "nineteen" case 20 => "twenty" case 21 => "thirty"
    case 22 => "forty" case 23 => "fifty" case 24 => "sixty" case 25 => "seventy" case 26 => "eighty"
    case 27 => "ninety" case 28 => "hundred" case 29 => "thousand" case 30 => "million" case 31 => "billion"
    case _ => "trillion"
  }

  function OrdinalWord(i: nat): string
    requires i < 33
  {
    match i
    case 0 => "zeroth" case 1 => "first" case 2 => "second" case 3 => "third" case 4 => "fourth" case 5 => "fifth"
    case 6 => "sixth" case 7 => "seventh" case 8 => "eighth" case 9 => "ninth" case 10 => "tenth"
    case 11 => "eleventh" case 12 => "twelfth" case 13 => "thirteenth" case 14 => "fourteenth" case 15 => "fifteenth"
    case 16 => "sixteenth" case 17 => "seventeenth" case 18 => "eighteenth" case 19 => "nineteenth"
    case 20 => "twentieth" case 21 => "thirtieth" case 22 => "fortieth" case 23 => "fiftieth" case 24 => "sixtieth"
    case 25 => "seventieth" case 26 => "eightieth" case 27 => "ninetieth" case 28 => "hundredth"
    case 29 => "thousandth" case 30 => "millionth" case 31 => "billionth" case _ => "trillionth"
  }

  function English(): Vocabulary {
    Vocabulary(seq(33, i requires 0 <= i < 33 => CardinalWord(i)), seq(33, i requires 0 <= i < 33 => OrdinalWord(i)))
  }

  /** Where a word stands among the cardinals and then the ordinals: its length and four letters tell. */
  function Place(w: string): int
    requires |w| >= 3
  {
    match (|w|, w[0], w[1], w[2], w[|w| - 1])
    case (4, 'z', 'e', 'r', 'o') => 0 case (3, 'o', 'n', 'e', 'e') => 1 case (3, 't', 'w', 'o', 'o') => 2
    case (5, 't', 'h', 'r', 'e') => 3 case (4, 'f', 'o', 'u', 'r') => 4 case (4, 'f', 'i', 'v', 'e') => 5
    case (3, 's', 'i', 'x', 'x') => 6 case (5, 's', 'e', 'v', 'n') => 7 case (5, 'e', 'i', 'g', 't') => 8
    case (4, 'n', 'i', 'n', 'e') => 9 case (3, 't', 'e', 'n', 'n') => 10 case (6, 'e', 'l', 'e', 'n') => 11
    case (6, 't', 'w', 'e', 'e') => 12 case (8, 't', 'h', 'i', 'n') => 13 case (8, 'f', 'o', 'u', 'n') => 14
    case (7, 'f', 'i', 'f', 'n') => 15 case (7, 's', 'i', 'x', 'n') => 16 case (9, 's', 'e', 'v', 'n') => 17
    case (8, 'e', 'i', 'g', 'n') => 18 case (8, 'n', 'i', 'n', 'n') => 19 case (6, 't', 'w', 'e', 'y') => 20
    case (6, 't', 'h', 'i', 'y') => 21 case (5, 'f', 'o', 'r', 'y') => 22 case (5, 'f', 'i', 'f', 'y') => 23
    case (5, 's', 'i', 'x', 'y') => 24 case (7, 's', 'e', 'v', 'y') => 25 case (6, 'e', 'i', 'g', 'y') => 26
    case (6, 'n', 'i', 'n', 'y') => 27 case (7, 'h', 'u', 'n', 'd') => 28 case (8, 't', 'h', 'o', 'd') => 29
    case (7, 'm', 'i', 'l', 'n') => 30 case (7, 'b', 'i', 'l', 'n') => 31 case (8, 't', 'r', 'i', 'n') => 32
    case (6, 'z', 'e', 'r', 'h') => 33 case (5, 'f', 'i', 'r', 't') => 34 case (6, 's', 'e', 'c', 'd') => 35
    case (5, 't', 'h', 'i', 'd') => 36 case (6, 'f', 'o', 'u', 'h') => 37 case (5, 'f', 'i', 'f', 'h') => 38
    case (5, 's', 'i', 'x', 'h') => 39 case (7, 's', 'e', 'v', 'h') => 40 case (6, 'e', 'i', 'g', 'h') => 41
    case (5, 'n', 'i', 'n', 'h') => 42 case (5, 't', 'e', 'n', 'h') => 43 case (8, 'e', 'l', 'e', 'h') => 44
    case (7, 't', 'w', 'e', 'h') => 45 case (10, 't', 'h', 'i', 'h') => 46 case (10, 'f', 'o', 'u', 'h') => 47
    case (9, 'f', 'i', 'f', 'h') => 48 case (9, 's', 'i', 'x', 'h') => 49 case (11, 's', 'e', 'v', 'h') => 50
    case (10, 'e', 'i', 'g', 'h') => 51 case (10, 'n', 'i', 'n', 'h') => 52 case (9, 't', 'w', 'e', 'h') => 53
    case (9, 't', 'h', 'i', 'h') => 54 case (8, 'f', 'o', 'r', 'h') => 55 case (8, 'f', 'i', 'f', 'h') => 56
    case (8, 's', 'i', 'x', 'h') => 57 case (10, 's', 'e', 'v', 'h') => 58 case (9, 'e', 'i', 'g', 'h') => 59
    case (9, 'n', 'i', 'n', 'h') => 60 case (9, 'h', 'u', 'n', 'h') => 61 case (10, 't', 'h', 'o', 'h') => 62
    case (9, 'm', 'i', 'l', 'h') => 63 case (9, 'b', 'i', 'l', 'h') => 64 case (10, 't', 'r', 'i', 'h') => 65
    case _ => -1
  }

  lemma CardinalPlacedLow(i: nat)
    requires i < 16
    ensures WordLike(CardinalWord(i)) && |CardinalWord(i)| >= 3 && Place(CardinalWord(i)) == i
  {
  }

  lemma CardinalPlacedMiddle(i: nat)
    requires 16 <= i < 25
    ensures WordLike(CardinalWord(i)) && |CardinalWord(i)| >= 3 && Place(CardinalWord(i)) == i
  {
  }

  lemma CardinalPlacedHigh(i: nat)
    requires 25 <= i < 33
    ensures WordLike(CardinalWord(i)) && |CardinalWord(i)| >= 3 && Place(CardinalWord(i)) == i
  {
  }

  lemma CardinalPlaced(i: nat)
    requires i < 33
    ensures WordLike(CardinalWord(i)) && |CardinalWord(i)| >= 3 && Place(CardinalWord(i)) == i
  {
    if i < 16 {
      CardinalPlacedLow(i);
    } else if i < 25 {
      CardinalPlacedMiddle(i);
    } else {
      CardinalPlacedHigh(i);
    }
  }

  lemma OrdinalPlacedLow(i: nat)
    requires i < 16
    ensures WordLike(OrdinalWord(i)) && |OrdinalWord(i)| >= 3 && Place(OrdinalWord(i)) == i + 33
  {
  }

  lemma OrdinalPlacedMiddle(i: nat)
    requires 16 <= i < 25
    ensures WordLike(OrdinalWord(i)) && |OrdinalWord(i)| >= 3 && Place(OrdinalWord(i)) == i + 33
  {
  }

  lemma OrdinalPlacedHigh(i: nat)
    requires 25 <= i < 33
    ensures WordLike(OrdinalWord(i)) && |OrdinalWord(i)| >= 3 && Place(OrdinalWord(i)) == i + 33
  {
  }

  lemma OrdinalPlaced(i: nat)
    requires i < 33
    ensures WordLike(OrdinalWord(i)) && |OrdinalWord(i)| >= 3 && Place(OrdinalWord(i)) == i + 33
  {
    if i < 16 {
      OrdinalPlacedLow(i);
    } else if i < 25 {
      OrdinalPlacedMiddle(i);
    } else {
      OrdinalPlacedHigh(i);
    }
  }

  lemma EnglishIsProper()
    ensures Proper(English())
  {
    var v := English();
    var all := v.cardinals + v.ordinals;
    forall i | 0 <= i < 33
      ensures WordLike(v.cardinals[i]) && WordLike(v.ordinals[i])
    {
      CardinalPlaced(i);
      OrdinalPlaced(i);
    }
    forall i | 0 <= i < 66
      ensures |all[i]| >= 3 && Place(all[i]) == i
    {
      if i < 33 {
        CardinalPlaced(i);
      } else {
        OrdinalPlaced(i - 33);
      }
    }
    assert Place("and") == -1;
  }
}
