/**
 Literal search over code units with a table of borders.
 */
module Kmp {
  import opened Options
  import opened Wtf8

  /** The k units before position e of t are a prefix of p, and none of them lies before lo. */
  predicate Matches(p: seq<Unit>, t: seq<Unit>, lo: nat, e: nat, k: int) {
    0 <= k <= |p| && lo + k <= e <= |t| && p[..k] == t[e - k..e]
  }

  /** The longest such match. */
  ghost predicate Longest(p: seq<Unit>, t: seq<Unit>, lo: nat, e: nat, k: int) {
    Matches(p, t, lo, e, k) && forall m :: Matches(p, t, lo, e, m) ==> m <= k
  }

  predicate Occurs(p: seq<Unit>, t: seq<Unit>, at: int) {
    0 <= at && at + |p| <= |t| && t[at..at + |p|] == p
  }

  /** A proper border of the prefix of length n: both its prefix and its suffix. */
  predicate Border(p: seq<Unit>, n: nat, k: int) {
    0 <= k < n <= |p| && p[..k] == p[n - k..n]
  }

  ghost predicate LongestBorder(p: seq<Unit>, n: nat, k: int) {
    Border(p, n, k) && forall m :: Border(p, n, m) ==> m <= k
  }

  lemma BorderIsMatch(p: seq<Unit>, n: nat, k: int)
    requires 1 <= n <= |p|
    ensures Border(p, n, k) <==> Matches(p, p, 1, n, k)
  {
  }

  /** Shorter matches are exactly the borders of a longer one. */
  lemma ShorterMatch(p: seq<Unit>, t: seq<Unit>, lo: nat, e: nat, j: int, k: int)
    requires Matches(p, t, lo, e, j) && 0 <= k < j
    ensures Matches(p, t, lo, e, k) <==> Border(p, j, k)
  {
    assert p[j - k..j] == p[..j][j - k..];
    assert t[e - k..e] == t[e - j..e][j - k..];
  }

  /** A match grows by one exactly when the next unit agrees. */
  lemma MatchGrows(p: seq<Unit>, t: seq<Unit>, lo: nat, e: nat, k: int)
    requires e < |t| && 0 <= k < |p|
    ensures Matches(p, t, lo, e + 1, k + 1) <==> Matches(p, t, lo, e, k) && t[e] == p[k]
  {
    if lo + k <= e {
      var a, b := p[..k + 1], t[e - k..e + 1];
      assert a[..k] == p[..k] && b[..k] == t[e - k..e];
      assert a == a[..k] + [p[k]] && b == b[..k] + [t[e]];
      assert a[k] == p[k] && b[k] == t[e];
    }
  }

  /** No match of the next unit is longer than j. */
  ghost predicate Surveyed(p: seq<Unit>, t: seq<Unit>, lo: nat, e: nat, j: int) {
    e < |t| && Matches(p, t, lo, e, j) && j < |p|
    && forall m | j < m < |p| && Matches(p, t, lo, e, m) :: t[e] != p[m]
  }

  lemma Begins(p: seq<Unit>, t: seq<Unit>, lo: nat)
    requires lo <= |t| && p != []
    ensures Longest(p, t, lo, lo, 0) && NoneBefore(p, t, lo, lo)
  {
  }

  /** The longest match so far is where the survey starts. */
  lemma SurveyBegins(p: seq<Unit>, t: seq<Unit>, lo: nat, e: nat, j: int)
    requires Longest(p, t, lo, e, j) && e < |t| && j < |p|
    ensures Surveyed(p, t, lo, e, j)
  {
  }

  lemma FallBack(p: seq<Unit>, t: seq<Unit>, lo: nat, e: nat, j: int, f: int)
    requires Surveyed(p, t, lo, e, j) && j > 0 && t[e] != p[j] && LongestBorder(p, j, f)
    ensures Surveyed(p, t, lo, e, f) && 0 <= f < j
  {
    ShorterMatch(p, t, lo, e, j, f);
    forall m | f < m < |p| && Matches(p, t, lo, e, m)
      ensures t[e] != p[m]
    {
      if m < j {
        ShorterMatch(p, t, lo, e, j, m);
      }
    }
  }

  lemma Settled(p: seq<Unit>, t: seq<Unit>, lo: nat, e: nat, j: int)
    requires lo <= e && Surveyed(p, t, lo, e, j) && (j > 0 ==> t[e] == p[j])
    ensures Longest(p, t, lo, e + 1, if t[e] == p[j] then j + 1 else j) && 0 <= j < |p|
  {
    MatchGrows(p, t, lo, e, j);
    var next := e + 1;
    forall m | Matches(p, t, lo, next, m)
      ensures m <= if t[e] == p[j] then j + 1 else j
    {
      if m > 0 {
        MatchGrows(p, t, lo, e, m - 1);
      }
    }
  }

  ghost predicate Table(p: seq<Unit>, failure: seq<nat>) {
    |failure| <= |p| && forall i :: 0 <= i < |failure| ==> LongestBorder(p, i + 1, failure[i])
  }

  lemma FromTable(p: seq<Unit>, failure: seq<nat>, j: nat)
    requires Table(p, failure) && 0 < j <= |failure|
    ensures LongestBorder(p, j, failure[j - 1])
  {
    assert LongestBorder(p, j - 1 + 1, failure[j - 1]);
  }

  lemma FirstBorder(p: seq<Unit>)
    requires p != []
    ensures Table(p, [0]) && Longest(p, p, 1, 1, 0)
  {
  }

  lemma TableGrows(p: seq<Unit>, failure: seq<nat>, j: nat)
    requires Table(p, failure) && 1 <= |failure| < |p| && Longest(p, p, 1, |failure| + 1, j)
    ensures Table(p, failure + [j])
  {
    var n := |failure| + 1;
    BorderIsMatch(p, n, j);
    forall m | Border(p, n, m)
      ensures m <= j
    {
      BorderIsMatch(p, n, m);
    }
    var grown := failure + [j];
    forall i | 0 <= i < |grown|
      ensures LongestBorder(p, i + 1, grown[i])
    {
      assert i < |failure| ==> grown[i] == failure[i];
    }
  }

  /**
   The context is asked now and then whether to go on; `live` answers by how often it was asked.
   A run stops at the first refusal, and only there.
   */
  ghost predicate Asked(live: nat -> bool, polls: nat, stopped: bool) {
    && (forall k: nat :: k + 1 < polls ==> live(k))
    && (stopped ==> polls > 0 && !live(polls - 1))
    && (!stopped && polls > 0 ==> live(polls - 1))
  }

  /** The positions from lo up to hi at which the context is asked: every 1024th. */
  function Checkpoints(lo: nat, hi: nat): int {
    (hi + 1023) / 1024 - (lo + 1023) / 1024
  }

  lemma NextCheckpoint(lo: nat, hi: nat)
    ensures Checkpoints(lo, lo) == 0
    ensures Checkpoints(lo, hi + 1) == Checkpoints(lo, hi) + if hi % 1024 == 0 then 1 else 0
  {
    var q, d := hi / 1024, hi % 1024;
    assert hi + 1023 == 1024 * q + (d + 1023) && hi + 1024 == 1024 * (q + 1) + d;
  }

  /** Fills the table; `falls` counts the turns of the inner loop over the whole run. */
  method FillTable(live: nat -> bool, asked: nat, pattern: seq<Unit>)
    returns (ok: bool, failure: array<nat>, polls: nat, ghost falls: nat)
    requires pattern != [] && Asked(live, asked, false)
    ensures fresh(failure) && failure.Length == |pattern| && Asked(live, polls, !ok)
    ensures ok ==> Table(pattern, failure[..]) && polls == asked + Checkpoints(1, |pattern|)
    ensures falls < |pattern|
  {
    hide Matches, Longest, Surveyed, Table, LongestBorder, Checkpoints;
    NextCheckpoint(1, 1);
    ok, polls := true, asked;
    failure := new nat[|pattern|](_ => 0);
    falls := 0;
    var i, j := 1, 0;
    FirstBorder(pattern);
    assert failure[..1] == [0];
    while i < |pattern|
      invariant 1 <= i <= |pattern|
      invariant Table(pattern, failure[..i]) && Longest(pattern, pattern, 1, i, j)
      invariant 0 <= j < i && falls + j < i && Asked(live, polls, false)
      invariant polls == asked + Checkpoints(1, i)
    {
      NextCheckpoint(1, i);
      if i % 1024 == 0 {
        polls := polls + 1;
        if !live(polls - 1) {
          ok := false;
          return;
        }
      }
      SurveyBegins(pattern, pattern, 1, i, j);
      while j > 0 && pattern[i] != pattern[j]
        invariant 0 <= j < i && Surveyed(pattern, pattern, 1, i, j) && Table(pattern, failure[..i])
        invariant falls + j < i
      {
        FromTable(pattern, failure[..i], j);
        FallBack(pattern, pattern, 1, i, j, failure[j - 1]);
        j := failure[j - 1];
        falls := falls + 1;
      }
      Settled(pattern, pattern, 1, i, j);
      if pattern[i] == pattern[j] {
        j := j + 1;
      }
      TableGrows(pattern, failure[..i], j);
      failure[i] := j;
      assert failure[..i + 1] == failure[..i] + [j];
      i := i + 1;
    }
    assert failure[..] == failure[..i];
  }

  lemma FullMatch(p: seq<Unit>, t: seq<Unit>, lo: nat, at: nat)
    requires lo <= at
    ensures Occurs(p, t, at) <==> Matches(p, t, lo, at + |p|, |p|)
  {
    assert p[..|p|] == p;
  }

  ghost predicate NoneBefore(p: seq<Unit>, t: seq<Unit>, lo: nat, end: int) {
    forall at :: lo <= at && at + |p| <= end ==> !Occurs(p, t, at)
  }

  lemma NoneHere(p: seq<Unit>, t: seq<Unit>, lo: nat, e: nat, j: int)
    requires NoneBefore(p, t, lo, e) && Longest(p, t, lo, e + 1, j) && j < |p|
    ensures NoneBefore(p, t, lo, e + 1)
  {
    forall at | lo <= at && at + |p| <= e + 1
      ensures !Occurs(p, t, at)
    {
      FullMatch(p, t, lo, at);
    }
  }

  /** The least occurrence from lo on, or -1 when there is none. */
  ghost predicate IsFirst(p: seq<Unit>, t: seq<Unit>, lo: nat, at: int) {
    if at == -1 then forall i :: lo <= i ==> !Occurs(p, t, i)
    else lo <= at && Occurs(p, t, at) && forall i :: lo <= i < at ==> !Occurs(p, t, i)
  }

  lemma FoundHere(p: seq<Unit>, t: seq<Unit>, lo: nat, e: nat)
    requires NoneBefore(p, t, lo, e) && Longest(p, t, lo, e + 1, |p|)
    ensures IsFirst(p, t, lo, e + 1 - |p|)
  {
    FullMatch(p, t, lo, e + 1 - |p|);
  }

  lemma NotFound(p: seq<Unit>, t: seq<Unit>, lo: nat)
    requires NoneBefore(p, t, lo, |t|)
    ensures IsFirst(p, t, lo, -1)
  {
  }

  /** The search proper, with the table filled. */
  method Scan(live: nat -> bool, asked: nat, s: seq<Unit>, pattern: seq<Unit>, failure: array<nat>, lo: nat)
    returns (at: Option<int>, polls: nat, ghost falls: nat)
    requires pattern != [] && lo <= |s| && failure.Length == |pattern| && Table(pattern, failure[..])
    requires Asked(live, asked, false)
    ensures Asked(live, polls, at.None?)
    ensures at.Some? ==> IsFirst(pattern, s, lo, at.value)
    ensures at.Some? ==> at.value >= -1 && polls == asked + Checkpoints(lo, if at.value == -1 then |s| else at.value + |pattern|)
    ensures falls <= |s| - lo
  {
    hide Matches, Longest, Surveyed, Occurs, NoneBefore, IsFirst, Table, LongestBorder, Checkpoints;
    NextCheckpoint(lo, lo);
    falls, polls := 0, asked;
    var i, j := lo, 0;
    Begins(pattern, s, lo);
    while i < |s|
      invariant lo <= i <= |s|
      invariant 0 <= j < |pattern| && Longest(pattern, s, lo, i, j) && Table(pattern, failure[..])
      invariant NoneBefore(pattern, s, lo, i)
      invariant falls + j <= i - lo && Asked(live, polls, false)
      invariant polls == asked + Checkpoints(lo, i)
    {
      NextCheckpoint(lo, i);
      if i % 1024 == 0 {
        polls := polls + 1;
        if !live(polls - 1) {
          return None, polls, falls;
        }
      }
      SurveyBegins(pattern, s, lo, i, j);
      while j > 0 && s[i] != pattern[j]
        invariant 0 <= j < |pattern| && Surveyed(pattern, s, lo, i, j) && Table(pattern, failure[..])
        invariant falls + j <= i - lo
      {
        FromTable(pattern, failure[..], j);
        FallBack(pattern, s, lo, i, j, failure[j - 1]);
        j := failure[j - 1];
        falls := falls + 1;
      }
      Settled(pattern, s, lo, i, j);
      if s[i] == pattern[j] {
        j := j + 1;
      }
      if j == |pattern| {
        FoundHere(pattern, s, lo, i);
        at := Some(i + 1 - j);
        return;
      }
      NoneHere(pattern, s, lo, i, j);
      i := i + 1;
    }
    NotFound(pattern, s, lo);
    at := Some(-1);
  }

  /** The least occurrence at or after the start, or -1 when there is none; nothing once the context refuses. */
  method IndexUnits(live: nat -> bool, s: seq<Unit>, pattern: seq<Unit>, start: int)
    returns (at: Option<int>, polls: nat, ghost falls: nat)
    ensures Asked(live, polls, at.None?)
    ensures at.Some? ==> IsFirst(pattern, s, if start < 0 then 0 else start, at.value)
    ensures at.Some? && (start > |s| || pattern == []) ==> polls == 1
    ensures at.Some? && start <= |s| && pattern != [] ==>
              var end := if at.value == -1 then |s| else at.value + |pattern|;
              end >= 0 && polls == 1 + Checkpoints(1, |pattern|) + Checkpoints(if start < 0 then 0 else start, end)
    ensures falls <= |s| + |pattern|
  {
    polls, falls := 1, 0;
    if !live(0) {
      return None, 1, 0;
    }
    var lo := if start < 0 then 0 else start;
    if lo > |s| {
      return Some(-1), 1, 0;
    }
    if pattern == [] {
      assert Occurs(pattern, s, lo);
      return Some(lo), 1, 0;
    }
    var ok, failure;
    ghost var filling;
    ok, failure, polls, filling := FillTable(live, polls, pattern);
    if !ok {
      return None, polls, filling;
    }
    at, polls, falls := Scan(live, polls, s, pattern, failure, lo);
    falls := falls + filling;
  }
}
