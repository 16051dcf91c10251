/**
 The streaming evaluator: expressions that change under their indices, and plans cached by schema.

 An evaluation is one atomic step.
 */
module Streams {
  import opened Options
  import opened Powers
  import opened Decimals
  import opened PlanCache

  // ---------------------------------------------------------------------------
  // The composite key
  // ---------------------------------------------------------------------------

  function JoinInts(ints: seq<int>): string {
    if ints == [] then ""
    else if |ints| == 1 then IntText(ints[0])
    else IntText(ints[0]) + "," + JoinInts(ints[1..])
  }

  function PlanCacheKey(schemaKey: string, exprIndices: seq<int>): string {
    schemaKey + "|" + JoinInts(exprIndices)
  }

  predicate Avoids(s: string, c: char) {
    forall i :: 0 <= i < |s| ==> s[i] != c
  }

  lemma IntTextShape(n: int)
    ensures IntText(n) != "" && Avoids(IntText(n), ',') && Avoids(IntText(n), '|')
  {
    var digits := Spelling(if n < 0 then -n else n);
    assert forall i :: 0 <= i < |digits| ==> IsDigit(digits[i]);
  }

  lemma IntTextIsInjective(m: int, n: int)
    requires IntText(m) == IntText(n)
    ensures m == n
  {
    var x, y := if m < 0 then -m else m, if n < 0 then -n else n;
    SpellingValue(x);
    SpellingValue(y);
    assert IsDigit(Spelling(x)[0]) && IsDigit(Spelling(y)[0]);
    assert IntText(m)[0] == '-' <==> m < 0;
    assert IntText(n)[0] == '-' <==> n < 0;
    assert m < 0 ==> IntText(m)[1..] == Spelling(x);
    assert n < 0 ==> IntText(n)[1..] == Spelling(y);
  }

  lemma {:induction false} JoinIntsShape(ints: seq<int>)
    ensures Avoids(JoinInts(ints), '|')
    ensures ints != [] ==> JoinInts(ints) != ""
  {
    if ints != [] {
      IntTextShape(ints[0]);
      JoinIntsShape(ints[1..]);
    }
  }

  /** Texts before the first separator are determined by the whole. */
  lemma FirstCut(a: string, x: string, b: string, y: string, c: char)
    requires Avoids(a, c) && Avoids(b, c) && a + [c] + x == b + [c] + y
    ensures a == b && x == y
  {
    var s := a + [c] + x;
    assert s[|a|] == c && s[|b|] == c;
    assert forall i :: 0 <= i < |a| ==> s[i] == a[i];
    assert forall i :: 0 <= i < |b| ==> s[i] == b[i];
    assert |a| == |b|;
    assert a == s[..|a|] && b == s[..|b|];
    assert x == s[|a| + 1..] && y == s[|b| + 1..];
  }

  lemma LongerFront(a: string, x: string, b: string, y: string, c: char)
    requires a + [c] + x == b + [c] + y
    ensures |a| < |b| ==> !Avoids(x, c)
  {
    if |a| < |b| {
      var s := a + [c] + x;
      assert s[|b|] == c && s[|b|] == x[|b| - |a| - 1];
    }
  }

  /** And texts after the last one. */
  lemma LastCut(a: string, x: string, b: string, y: string, c: char)
    requires Avoids(x, c) && Avoids(y, c) && a + [c] + x == b + [c] + y
    ensures a == b && x == y
  {
    var s := a + [c] + x;
    LongerFront(a, x, b, y, c);
    LongerFront(b, y, a, x, c);
    assert a == s[..|a|] && b == s[..|b|];
    assert x == s[|a| + 1..] && y == s[|b| + 1..];
  }

  /** A single number has no comma, a longer list has. */
  lemma SingleOrMore(n: int, m: int, rest: seq<int>)
    requires rest != []
    ensures IntText(n) != IntText(m) + "," + JoinInts(rest)
  {
    IntTextShape(n);
    var t := IntText(m) + "," + JoinInts(rest);
    assert t[|IntText(m)|] == ',';
  }

  lemma {:induction false} JoinIntsIsInjective(a: seq<int>, b: seq<int>)
    requires JoinInts(a) == JoinInts(b)
    ensures a == b
  {
    JoinIntsShape(a);
    JoinIntsShape(b);
    if a != [] && b != [] {
      IntTextShape(a[0]);
      IntTextShape(b[0]);
      if |a| == 1 && |b| == 1 {
        IntTextIsInjective(a[0], b[0]);
      } else if |a| == 1 {
        SingleOrMore(a[0], b[0], b[1..]);
      } else if |b| == 1 {
        SingleOrMore(b[0], a[0], a[1..]);
      } else {
        FirstCut(IntText(a[0]), JoinInts(a[1..]), IntText(b[0]), JoinInts(b[1..]), ',');
        IntTextIsInjective(a[0], b[0]);
        JoinIntsIsInjective(a[1..], b[1..]);
        assert a == [a[0]] + a[1..] && b == [b[0]] + b[1..];
      }
    }
  }

  /** Different requests have different keys, whatever separators a schema's name holds. */
  lemma PlanCacheKeyIsInjective(schema: string, indices: seq<int>, schema': string, indices': seq<int>)
    requires PlanCacheKey(schema, indices) == PlanCacheKey(schema', indices')
    ensures schema == schema' && indices == indices'
  {
    JoinIntsShape(indices);
    JoinIntsShape(indices');
    LastCut(schema, JoinInts(indices), schema', JoinInts(indices'), '|');
    JoinIntsIsInjective(indices, indices');
  }

  // ---------------------------------------------------------------------------
  // Plans
  // ---------------------------------------------------------------------------

  /** A compiled expression with its fast forms; the forms themselves are opaque numbers. */
  datatype Expression = Expression(fastPath: bool, paths: seq<string>, cmpFast: Option<nat>, funcFast: Option<nat>)

  /** Per index, the fast form to try; a kind nobody uses has no list at all. */
  datatype GroupPlan = GroupPlan(
    fastPaths: Option<seq<string>>, exprFastPath: Option<seq<bool>>, cmpFast: Option<seq<Option<nat>>>, funcFast: Option<seq<Option<nat>>>)

  datatype Route = PurePath(path: string) | Comparison(form: nat) | Func(form: nat) | Full

  function ExpressionAt(expressions: seq<Option<Expression>>, idx: int): Option<Expression> {
    if 0 <= idx < |expressions| then expressions[idx] else None
  }

  /** How an expression asks to be evaluated. */
  function RouteOf(e: Option<Expression>): Route {
    match e
    case None => Full
    case Some(expr) =>
      if expr.fastPath && |expr.paths| == 1 then PurePath(expr.paths[0])
      else if expr.cmpFast.Some? then Comparison(expr.cmpFast.value)
      else if expr.funcFast.Some? then Func(expr.funcFast.value)
      else Full
  }

  /** How a plan has the i-th of its expressions evaluated: the forms are tried in this order. */
  function RouteAt(plan: GroupPlan, i: nat): Route {
    if plan.exprFastPath.Some? && i < |plan.exprFastPath.value| && plan.exprFastPath.value[i]
       && plan.fastPaths.Some? && i < |plan.fastPaths.value| && plan.fastPaths.value[i] != ""
    then PurePath(plan.fastPaths.value[i])
    else if plan.cmpFast.Some? && i < |plan.cmpFast.value| && plan.cmpFast.value[i].Some?
    then Comparison(plan.cmpFast.value[i].value)
    else if plan.funcFast.Some? && i < |plan.funcFast.value| && plan.funcFast.value[i].Some?
    then Func(plan.funcFast.value[i].value)
    else Full
  }

  /** The empty path is never taken. */
  function Taken(r: Route): Route {
    if r == PurePath("") then Full else r
  }

  function Routes(expressions: seq<Option<Expression>>, indices: seq<int>): seq<Route> {
    seq(|indices|, i requires 0 <= i < |indices| => RouteOf(ExpressionAt(expressions, indices[i])))
  }

  /** The lists before the unused ones are dropped. */
  datatype Lists = Lists(paths: seq<string>, pure: seq<bool>, cmp: seq<Option<nat>>, func: seq<Option<nat>>)

  function ListsOf(routes: seq<Route>): Lists {
    Lists(
      seq(|routes|, i requires 0 <= i < |routes| => if routes[i].PurePath? then routes[i].path else ""),
      seq(|routes|, i requires 0 <= i < |routes| => routes[i].PurePath?),
      seq(|routes|, i requires 0 <= i < |routes| => if routes[i].Comparison? then Some(routes[i].form) else None),
      seq(|routes|, i requires 0 <= i < |routes| => if routes[i].Func? then Some(routes[i].form) else None))
  }

  function PlanFor(routes: seq<Route>): GroupPlan {
    var l := ListsOf(routes);
    var hasPure := exists i :: 0 <= i < |routes| && routes[i].PurePath?;
    var hasCmp := exists i :: 0 <= i < |routes| && routes[i].Comparison?;
    var hasFunc := exists i :: 0 <= i < |routes| && routes[i].Func?;
    GroupPlan(
      if hasPure then Some(l.paths) else None, if hasPure then Some(l.pure) else None,
      if hasCmp then Some(l.cmp) else None, if hasFunc then Some(l.func) else None)
  }

  function PlanOf(expressions: seq<Option<Expression>>, indices: seq<int>): GroupPlan {
    PlanFor(Routes(expressions, indices))
  }

  /** A pure path goes first, if it is the only one, then a comparison, then a function; without any the whole expression runs. */
  lemma RoutesMean(fastPath: bool, paths: seq<string>, cmp: Option<nat>, func: Option<nat>)
    ensures RouteOf(None) == Full
    ensures var r := RouteOf(Some(Expression(fastPath, paths, cmp, func)));
            && (forall path :: fastPath && paths == [path] ==> r == PurePath(path))
            && (forall form :: (!fastPath || |paths| != 1) && cmp == Some(form) ==> r == Comparison(form))
            && (forall form :: (!fastPath || |paths| != 1) && cmp == None && func == Some(form) ==> r == Func(form))
            && ((!fastPath || |paths| != 1) && cmp == None && func == None ==> r == Full)
  {
  }

  /** A plan routes every expression as the expression itself asks, lists dropped or not. */
  lemma PlanRoutes(expressions: seq<Option<Expression>>, indices: seq<int>, i: nat)
    requires i < |indices|
    ensures RouteAt(PlanOf(expressions, indices), i) == Taken(RouteOf(ExpressionAt(expressions, indices[i])))
  {
    assert Routes(expressions, indices)[i] == RouteOf(ExpressionAt(expressions, indices[i]));
  }

  /** The lists with the routes up to n entered. */
  ghost predicate Filled(l: Lists, routes: seq<Route>, n: nat) {
    && |l.paths| == |l.pure| == |l.cmp| == |l.func| == |routes|
    && forall i :: 0 <= i < |routes| ==>
      && l.paths[i] == (if i < n && routes[i].PurePath? then routes[i].path else "")
      && l.pure[i] == (i < n && routes[i].PurePath?)
      && l.cmp[i] == (if i < n && routes[i].Comparison? then Some(routes[i].form) else None)
      && l.func[i] == (if i < n && routes[i].Func? then Some(routes[i].form) else None)
  }

  lemma FilledIsLists(l: Lists, routes: seq<Route>)
    requires Filled(l, routes, |routes|)
    ensures l == ListsOf(routes)
  {
    var m := ListsOf(routes);
    assert |m.paths| == |m.pure| == |m.cmp| == |m.func| == |routes|;
    forall i | 0 <= i < |routes|
      ensures l.paths[i] == m.paths[i] && l.pure[i] == m.pure[i] && l.cmp[i] == m.cmp[i] && l.func[i] == m.func[i]
    {
    }
    assert l.paths == m.paths;
    assert l.pure == m.pure;
    assert l.cmp == m.cmp;
    assert l.func == m.func;
  }

  /** The lists under construction, and which kinds have been met. */
  datatype Draft = Draft(lists: Lists, hasPure: bool, hasCmp: bool, hasFunc: bool)

  predicate Sized(l: Lists, n: nat) {
    |l.paths| == |l.pure| == |l.cmp| == |l.func| == n
  }

  function Blank(n: nat): Draft {
    Draft(Lists(seq(n, _ => ""), seq(n, _ => false), seq(n, _ => None), seq(n, _ => None)), false, false, false)
  }

  /** One route entered in its list. */
  function Entered(d: Draft, i: nat, r: Route): (e: Draft)
    requires i < |d.lists.paths| && Sized(d.lists, |d.lists.paths|)
    ensures Sized(e.lists, |d.lists.paths|)
  {
    var l := d.lists;
    match r
    case PurePath(path) => d.(lists := l.(paths := l.paths[i := path], pure := l.pure[i := true]), hasPure := true)
    case Comparison(form) => d.(lists := l.(cmp := l.cmp[i := Some(form)]), hasCmp := true)
    case Func(form) => d.(lists := l.(func := l.func[i := Some(form)]), hasFunc := true)
    case Full => d
  }

  function Drafted(routes: seq<Route>, k: nat): (d: Draft)
    requires k <= |routes|
    ensures Sized(d.lists, |routes|)
  {
    if k == 0 then Blank(|routes|) else Entered(Drafted(routes, k - 1), k - 1, routes[k - 1])
  }

  /** The flags tell which kinds occur among the first n routes. */
  ghost predicate Flagged(d: Draft, routes: seq<Route>, n: nat)
    requires n <= |routes|
  {
    && (d.hasPure <==> exists k :: 0 <= k < n && routes[k].PurePath?)
    && (d.hasCmp <==> exists k :: 0 <= k < n && routes[k].Comparison?)
    && (d.hasFunc <==> exists k :: 0 <= k < n && routes[k].Func?)
  }

  ghost predicate Fills(d: Draft, routes: seq<Route>, n: nat) {
    n <= |routes| && Filled(d.lists, routes, n) && Flagged(d, routes, n)
  }

  lemma FillsOn(d: Draft, e: Draft, routes: seq<Route>, i: nat)
    requires i < |routes| && Fills(d, routes, i) && e == Entered(d, i, routes[i])
    ensures Fills(e, routes, i + 1)
  {
    FilledEnters(d, routes, i);
    FlaggedEnters(d, routes, i);
  }

  lemma FilledEnters(d: Draft, routes: seq<Route>, i: nat)
    requires i < |routes| && Filled(d.lists, routes, i)
    ensures Filled(Entered(d, i, routes[i]).lists, routes, i + 1)
  {
  }

  lemma FlaggedEnters(d: Draft, routes: seq<Route>, i: nat)
    requires i < |routes| && Sized(d.lists, |routes|) && Flagged(d, routes, i)
    ensures Flagged(Entered(d, i, routes[i]), routes, i + 1)
  {
  }

  lemma BlankFills(routes: seq<Route>)
    ensures Fills(Blank(|routes|), routes, 0)
  {
  }

  lemma {:induction false} DraftFills(routes: seq<Route>, k: nat)
    requires k <= |routes|
    ensures Fills(Drafted(routes, k), routes, k)
  {
    if k == 0 {
      BlankFills(routes);
    } else {
      DraftFills(routes, k - 1);
      FillsOn(Drafted(routes, k - 1), Drafted(routes, k), routes, k - 1);
    }
  }

  function Pruned(d: Draft): GroupPlan {
    GroupPlan(
      if d.hasPure then Some(d.lists.paths) else None, if d.hasPure then Some(d.lists.pure) else None,
      if d.hasCmp then Some(d.lists.cmp) else None, if d.hasFunc then Some(d.lists.func) else None)
  }

  lemma DraftIsPlan(routes: seq<Route>)
    ensures Pruned(Drafted(routes, |routes|)) == PlanFor(routes)
  {
    DraftFills(routes, |routes|);
    FilledIsLists(Drafted(routes, |routes|).lists, routes);
  }

  /** The loop fills lists of the full length and then drops those it left empty. */
  method BuildPlan(expressions: seq<Option<Expression>>, indices: seq<int>) returns (plan: GroupPlan)
    ensures plan == PlanOf(expressions, indices)
  {
    var n := |indices|;
    var l := Lists(seq(n, _ => ""), seq(n, _ => false), seq(n, _ => None), seq(n, _ => None));
    var hasPure, hasCmp, hasFunc := false, false, false;
    ghost var routes := Routes(expressions, indices);
    assert Draft(l, hasPure, hasCmp, hasFunc) == Blank(|routes|);
    for i := 0 to n
      invariant Sized(l, n) && Draft(l, hasPure, hasCmp, hasFunc) == Drafted(routes, i)
    {
      var idx := indices[i];
      assert routes[i] == RouteOf(ExpressionAt(expressions, idx));
      if idx < 0 || idx >= |expressions| {
        continue;
      }
      var e := expressions[idx];
      if e.None? {
        continue;
      }
      var expr := e.value;
      if expr.fastPath && |expr.paths| == 1 {
        l := l.(paths := l.paths[i := expr.paths[0]], pure := l.pure[i := true]);
        hasPure := true;
      } else if expr.cmpFast.Some? {
        l := l.(cmp := l.cmp[i := expr.cmpFast]);
        hasCmp := true;
      } else if expr.funcFast.Some? {
        l := l.(func := l.func[i := expr.funcFast]);
        hasFunc := true;
      }
    }
    DraftIsPlan(routes);
    return GroupPlan(
      if hasPure then Some(l.paths) else None, if hasPure then Some(l.pure) else None,
      if hasCmp then Some(l.cmp) else None, if hasFunc then Some(l.func) else None);
  }

  // ---------------------------------------------------------------------------
  // The evaluator
  // ---------------------------------------------------------------------------

  /** A cached plan is the one the expressions of now would be given. */
  ghost predicate Current(e: Entry<GroupPlan>, exprs: seq<Option<Expression>>) {
    exists schema, indices :: e.key == PlanCacheKey(schema, indices) && e.plan == PlanOf(exprs, indices)
  }

  lemma CurrentHit(e: Entry<GroupPlan>, exprs: seq<Option<Expression>>, schema: string, indices: seq<int>)
    requires Current(e, exprs) && e.key == PlanCacheKey(schema, indices)
    ensures e.plan == PlanOf(exprs, indices)
  {
    var schema', indices' :| e.key == PlanCacheKey(schema', indices') && e.plan == PlanOf(exprs, indices');
    PlanCacheKeyIsInjective(schema, indices, schema', indices');
  }

  class StreamEvaluator {
    var exprs: seq<Option<Expression>>
    const cache: Cache<GroupPlan>

    ghost predicate Valid()
      reads this, cache, cache.entries
    {
      cache.Valid() && forall e :: e in cache.snapshot ==> Current(e, exprs)
    }

    constructor (expressions: seq<Option<Expression>>, maxSchemas: int)
      ensures Valid() && exprs == expressions && cache.snapshot == []
      ensures fresh(cache) && fresh(cache.entries)
    {
      exprs := expressions;
      cache := new Cache(maxSchemas);
    }

    /** Appends; earlier indices keep their expressions. */
    method Add(expr: Option<Expression>) returns (idx: nat)
      requires Valid()
      modifies this, cache, cache.entries
      ensures Valid() && exprs == old(exprs) + [expr] && idx == |old(exprs)| && cache.snapshot == []
    {
      idx := |exprs|;
      exprs := exprs + [expr];
      cache.Invalidate();
    }

    method Replace(idx: int, expr: Option<Expression>) returns (ok: bool)
      requires Valid()
      modifies this, cache, cache.entries
      ensures Valid() && (ok <==> 0 <= idx < |old(exprs)|)
      ensures ok ==> exprs == old(exprs)[idx := expr] && cache.snapshot == []
      ensures !ok ==> exprs == old(exprs) && cache.snapshot == old(cache.snapshot)
    {
      if idx < 0 || idx >= |exprs| {
        return false;
      }
      exprs := exprs[idx := expr];
      cache.Invalidate();
      return true;
    }

    /** The index stays taken. */
    method Remove(idx: int) returns (ok: bool)
      requires Valid()
      modifies this, cache, cache.entries
      ensures Valid() && (ok <==> 0 <= idx < |old(exprs)|)
      ensures ok ==> exprs == old(exprs)[idx := None] && cache.snapshot == []
      ensures !ok ==> exprs == old(exprs) && cache.snapshot == old(cache.snapshot)
    {
      ok := Replace(idx, None);
    }

    method Reset()
      requires Valid()
      modifies this, cache, cache.entries
      ensures Valid() && exprs == [] && cache.snapshot == []
    {
      exprs := [];
      cache.Invalidate();
    }

    /** The plan an evaluation runs by is that of the expressions of now, cached or not. */
    method PlanOfEvaluation(schemaKey: string, exprIndices: seq<int>) returns (plan: Option<GroupPlan>)
      requires Valid()
      modifies this, cache, cache.entries
      ensures Valid() && exprs == old(exprs)
      ensures plan == if exprIndices == [] then None else Some(PlanOf(exprs, exprIndices))
      ensures cache.snapshot ==
              if exprIndices == [] || schemaKey == "" then old(cache.snapshot)
              else Put(old(cache.snapshot), cache.capacity, Entry(PlanCacheKey(schemaKey, exprIndices), plan.value))
    {
      if exprIndices == [] {
        return None;
      }
      if schemaKey == "" {
        var built := BuildPlan(exprs, exprIndices);
        return Some(built);
      }
      var cacheKey := PlanCacheKey(schemaKey, exprIndices);
      plan := cache.Get(cacheKey);
      if plan.Some? {
        CurrentHit(Entry(cacheKey, plan.value), exprs, schemaKey, exprIndices);
      } else {
        var built := BuildPlan(exprs, exprIndices);
        ghost var entry := Entry(cacheKey, built);
        assert Current(entry, exprs);
        PutKeepsQueue(cache.snapshot, cache.capacity, entry);
        var _ := cache.Set(cacheKey, built);
        plan := Some(built);
      }
    }
  }
}
