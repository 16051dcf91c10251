/** Predicates on the value of a tail call: where tail-call rewriting goes wrong. */
module TailFilters {
  import opened Options
  import opened TailCalls

  // The rewriting leaves a call alone that a predicate follows, but it enters a block or condition
  // that one follows.  There the predicate is applied to the thunk instead of the call's value.

  // ---------------------------------------------------------------------------
  // When a predicate meets a thunk
  // ---------------------------------------------------------------------------

  /** What the parser produces, with predicates anywhere. */
  predicate Parsed(e: Expr)
    decreases e, 1
  {
    match e
    case Lit(_) => true
    case Variable(_) => true
    case Lambda(_, body, thunk) => !thunk && Parsed(body)
    case Call(p, args) => Parsed(p) && ParsedAll(args)
    case Condition(c, t, f) => Parsed(c) && Parsed(t) && (f.Some? ==> Parsed(f.value))
    case Block(es) => ParsedAll(es)
    case Bind(_, rhs) => Parsed(rhs)
    case Filtered(o, p) => Parsed(o) && Parsed(p)
  }

  predicate ParsedAll(es: seq<Expr>)
    decreases es, 0
  {
    es == [] || (Parsed(es[0]) && ParsedAll(es[1..]))
  }

  /** Some way through the expression ends in a thunk. */
  predicate YieldsThunk(e: Expr) {
    match e
    case Lambda(_, _, thunk) => thunk
    case Condition(_, t, f) => YieldsThunk(t) || (f.Some? && YieldsThunk(f.value))
    case Block(es) => es != [] && YieldsThunk(es[|es| - 1])
    case Filtered(o, _) => YieldsThunk(o)
    case _ => false
  }

  /** Somewhere a predicate follows what may be a thunk. */
  predicate FiltersThunk(e: Expr)
    decreases e, 1
  {
    match e
    case Lit(_) => false
    case Variable(_) => false
    case Lambda(_, body, _) => FiltersThunk(body)
    case Call(p, args) => FiltersThunk(p) || FiltersThunkIn(args)
    case Condition(c, t, f) => FiltersThunk(c) || FiltersThunk(t) || (f.Some? && FiltersThunk(f.value))
    case Block(es) => FiltersThunkIn(es)
    case Bind(_, rhs) => FiltersThunk(rhs)
    case Filtered(o, p) => YieldsThunk(o) || FiltersThunk(o) || FiltersThunk(p)
  }

  predicate FiltersThunkIn(es: seq<Expr>)
    decreases es, 0
  {
    es != [] && (FiltersThunk(es[0]) || FiltersThunkIn(es[1..]))
  }

  lemma {:induction false} FiltersThunkAtEnd(es: seq<Expr>, last: Expr)
    ensures FiltersThunkIn(es + [last]) <==> FiltersThunkIn(es) || FiltersThunk(last)
  {
    if es == [] {
      assert [last][1..] == [] && [] + [last] == [last];
    } else {
      assert (es + [last])[1..] == es[1..] + [last];
      FiltersThunkAtEnd(es[1..], last);
    }
  }

  /** A call in tail position becomes a thunk, and nothing else does. */
  lemma {:induction false} RewritingYields(e: Expr)
    ensures YieldsThunk(TailCallOptimize(e)) <==> EndsInCall(e) || YieldsThunk(e)
  {
    match e {
      case Condition(_, t, f) =>
        RewritingYields(t);
        if f.Some? {
          RewritingYields(f.value);
        }
      case Block(es) =>
        if es != [] {
          RewritingYields(es[|es| - 1]);
        }
      case Filtered(o, _) => RewritingYields(o);
      case _ =>
    }
  }

  lemma {:induction false} FilteredEnds(e: Expr)
    requires FiltersTailCall(e)
    ensures EndsInCall(e)
  {
    match e {
      case Condition(_, t, f) => FilteredEnds(if FiltersTailCall(t) then t else f.value);
      case Block(es) => FilteredEnds(es[|es| - 1]);
      case Filtered(_, _) =>
    }
  }

  lemma {:induction false} RewritingFilters(e: Expr)
    ensures FiltersThunk(TailCallOptimize(e)) <==> FiltersThunk(e) || FiltersTailCall(e)
  {
    match e {
      case Condition(_, t, f) =>
        RewritingFilters(t);
        if f.Some? {
          RewritingFilters(f.value);
        }
      case Block(es) =>
        if es != [] {
          var front, last := es[..|es| - 1], es[|es| - 1];
          RewritingFilters(last);
          assert es == front + [last];
          FiltersThunkAtEnd(front, last);
          FiltersThunkAtEnd(front, TailCallOptimize(last));
        }
      case Filtered(o, _) =>
        RewritingFilters(o);
        RewritingYields(o);
        if FiltersTailCall(o) {
          FilteredEnds(o);
        }
      case _ =>
    }
  }

  /** Processing moves no call into or out of tail position. */
  lemma {:induction false} ProcessedEnds(e: Expr)
    requires Parsed(e)
    ensures EndsInCall(Process(e)) <==> EndsInCall(e)
    ensures FiltersTailCall(Process(e)) <==> FiltersTailCall(e)
    ensures !YieldsThunk(Process(e))
  {
    match e {
      case Condition(_, t, f) =>
        ProcessedEnds(t);
        if f.Some? {
          ProcessedEnds(f.value);
        }
      case Block(es) =>
        if es != [] {
          ProcessedLast(es);
          ParsedLast(es);
          ProcessedEnds(es[|es| - 1]);
        }
      case Filtered(o, _) => ProcessedEnds(o);
      case _ =>
    }
  }

  lemma {:induction false} ParsedLast(es: seq<Expr>)
    requires es != [] && ParsedAll(es)
    ensures Parsed(es[|es| - 1])
  {
    if |es| > 1 {
      ParsedLast(es[1..]);
    }
  }

  /** The rewritten program lets a predicate see a thunk exactly when a lambda body filters a tail call. */
  lemma {:induction false} ThunksAreFilteredExactlyOutsideSource(e: Expr)
    requires Parsed(e)
    ensures FiltersThunk(Process(e)) <==> !Source(e)
    decreases e, 1
  {
    match e {
      case Lit(_) =>
      case Variable(_) =>
      case Lambda(_, body, _) =>
        ThunksAreFilteredExactlyOutsideSource(body);
        RewritingFilters(Process(body));
        ProcessedEnds(body);
      case Call(p, args) =>
        ThunksAreFilteredExactlyOutsideSource(p);
        ThunksInSequence(args);
      case Condition(c, t, f) =>
        ThunksAreFilteredExactlyOutsideSource(c);
        ThunksAreFilteredExactlyOutsideSource(t);
        if f.Some? {
          ThunksAreFilteredExactlyOutsideSource(f.value);
        }
      case Block(es) => ThunksInSequence(es);
      case Bind(_, rhs) => ThunksAreFilteredExactlyOutsideSource(rhs);
      case Filtered(o, p) =>
        ThunksAreFilteredExactlyOutsideSource(o);
        ThunksAreFilteredExactlyOutsideSource(p);
        ProcessedEnds(o);
    }
  }

  lemma {:induction false} ThunksInSequence(es: seq<Expr>)
    requires ParsedAll(es)
    ensures FiltersThunkIn(ProcessAll(es)) <==> !SourceAll(es)
    decreases es, 0
  {
    if es != [] {
      ThunksAreFilteredExactlyOutsideSource(es[0]);
      ThunksInSequence(es[1..]);
      assert ProcessAll(es)[1..] == ProcessAll(es[1..]);
    }
  }

  // ---------------------------------------------------------------------------
  // What the rewriting leaves alone
  // ---------------------------------------------------------------------------

  /** Without its thunks. */
  function Restored(e: Expr): Expr
    decreases e, 1
  {
    match e
    case Lit(_) => e
    case Variable(_) => e
    case Lambda(ps, body, thunk) => if thunk then Restored(body) else Lambda(ps, Restored(body), false)
    case Call(p, args) => Call(Restored(p), RestoredAll(args))
    case Condition(c, t, f) => Condition(Restored(c), Restored(t), if f.Some? then Some(Restored(f.value)) else None)
    case Block(es) => Block(RestoredAll(es))
    case Bind(x, rhs) => Bind(x, Restored(rhs))
    case Filtered(o, p) => Filtered(Restored(o), Restored(p))
  }

  function RestoredAll(es: seq<Expr>): (r: seq<Expr>)
    ensures |r| == |es|
    decreases es, 0
  {
    if es == [] then [] else [Restored(es[0])] + RestoredAll(es[1..])
  }

  lemma {:induction false} RestoredAtEnd(es: seq<Expr>, last: Expr)
    ensures RestoredAll(es + [last]) == RestoredAll(es) + [Restored(last)]
  {
    if es == [] {
      assert [last][1..] == [] && [] + [last] == [last];
    } else {
      assert (es + [last])[1..] == es[1..] + [last];
      RestoredAtEnd(es[1..], last);
    }
  }

  lemma {:induction false} RewritingIsRestored(e: Expr)
    ensures Restored(TailCallOptimize(e)) == Restored(e)
  {
    match e {
      case Condition(_, t, f) =>
        RewritingIsRestored(t);
        if f.Some? {
          RewritingIsRestored(f.value);
        }
      case Block(es) =>
        if es != [] {
          var front, last := es[..|es| - 1], es[|es| - 1];
          RewritingIsRestored(last);
          assert es == front + [last];
          RestoredAtEnd(front, last);
          RestoredAtEnd(front, TailCallOptimize(last));
        }
      case Filtered(o, _) => RewritingIsRestored(o);
      case _ =>
    }
  }

  /** Processing builds thunks around calls and changes nothing else. */
  lemma {:induction false} ProcessingOnlyBuildsThunks(e: Expr)
    requires Parsed(e)
    ensures Restored(Process(e)) == e
    decreases e, 1
  {
    match e {
      case Lit(_) =>
      case Variable(_) =>
      case Lambda(_, body, _) =>
        ProcessingOnlyBuildsThunks(body);
        RewritingIsRestored(Process(body));
      case Call(p, args) =>
        ProcessingOnlyBuildsThunks(p);
        SequencesAreRestored(args);
      case Condition(c, t, f) =>
        ProcessingOnlyBuildsThunks(c);
        ProcessingOnlyBuildsThunks(t);
        if f.Some? {
          ProcessingOnlyBuildsThunks(f.value);
        }
      case Block(es) => SequencesAreRestored(es);
      case Bind(_, rhs) => ProcessingOnlyBuildsThunks(rhs);
      case Filtered(o, p) =>
        ProcessingOnlyBuildsThunks(o);
        ProcessingOnlyBuildsThunks(p);
    }
  }

  lemma {:induction false} SequencesAreRestored(es: seq<Expr>)
    requires ParsedAll(es)
    ensures RestoredAll(ProcessAll(es)) == es
    decreases es, 0
  {
    if es != [] {
      ProcessingOnlyBuildsThunks(es[0]);
      SequencesAreRestored(es[1..]);
      assert ProcessAll(es)[1..] == ProcessAll(es[1..]);
    }
  }

  // ---------------------------------------------------------------------------
  // A value that changes
  // ---------------------------------------------------------------------------

  const EMPTY: Store := [Frame(None, map[])]
  const TRUE: Expr := Lambda([], Lit(Bool(true)), false)
  const THUNK: Expr := Lambda([], Call(TRUE, []), true)

  /** (last)[$] */
  function FilteredByItself(last: Expr): Expr {
    Filtered(Block([last]), Variable(""))
  }

  /** function() { (last)[$] }() */
  function KeepsTrue(last: Expr): Expr {
    Call(Lambda([], FilteredByItself(last), false), [])
  }

  lemma KeepsTrueIsProcessed()
    ensures var e := KeepsTrue(Call(TRUE, []));
            Parsed(e) && !Source(e) && Process(e) == KeepsTrue(THUNK)
  {
    var call := Call(TRUE, []);
    assert [call][1..] == [] && ParsedAll([call]) && ProcessAll([call]) == [Process(call)];
    assert Process(TRUE) == TRUE && ProcessAll([]) == [];
    assert Process(call) == call;
    var body := FilteredByItself(call);
    assert Process(body) == body && Parsed(body) && FiltersTailCall(body);
    assert [call][..0] == [] && [] + [TailCallOptimize(call)] == [THUNK];
    assert TailCallOptimize(body) == FilteredByItself(THUNK);
    assert ParsedAll([]) && SourceAll([]);
  }

  /** Where the last expression delivers, the predicate sees what it delivered. */
  lemma FilteredByItselfRuns(last: Expr, v: Value, st: Store, st1: Store)
    requires Eval(5, last, Undefined, |st|, st + [Frame(Some(1), map[])]) == Ok(v, st1)
    ensures Eval(8, FilteredByItself(last), Undefined, 1, st) == Ok(Selected(v, v), st1)
  {
    var inner := st + [Frame(Some(1), map[])];
    assert [last][1..] == [];
    assert EvalBlock(6, [last], Undefined, Undefined, |st|, inner) == Ok(v, st1);
    assert Eval(7, Block([last]), Undefined, 1, st) == Ok(v, st1);
    assert Eval(7, Variable(""), v, 1, st1) == Ok(v, st1);
  }

  lemma KeepsTrueRuns(last: Expr, v: Value, st1: Store)
    requires Eval(8, FilteredByItself(last), Undefined, 1, EMPTY + [Frame(Some(0), map[])]) == Ok(v, st1)
    requires !IsFunction(v)
    ensures Eval(11, KeepsTrue(last), Undefined, 0, EMPTY) == Ok(v, st1)
  {
    var f := Closure(Undefined, 0, [], FilteredByItself(last), false);
    assert Eval(10, Lambda([], FilteredByItself(last), false), Undefined, 0, EMPTY) == Ok(f, EMPTY);
    assert BindParams([], []) == map[];
    ClosureApplied(10, f, [], EMPTY);
  }

  lemma TrueIsCalled(st: Store)
    ensures Eval(5, Call(TRUE, []), Undefined, 2, st) == Ok(Const(Bool(true)), st + [Frame(Some(2), map[])])
  {
    var f := Closure(Undefined, 2, [], Lit(Bool(true)), false);
    assert Eval(4, TRUE, Undefined, 2, st) == Ok(f, st);
    assert BindParams([], []) == map[];
    ClosureApplied(4, f, [], st);
  }

  lemma ThunkIsBuilt(st: Store)
    ensures Eval(5, THUNK, Undefined, 2, st) == Ok(Closure(Undefined, 2, [], Call(TRUE, []), true), st)
  {
  }

  /** The plain program delivers true.  In the rewritten one the predicate sees a function, and so it delivers nothing. */
  lemma ValuesDiffer()
    ensures var e := KeepsTrue(Call(TRUE, []));
            && Parsed(e) && !Source(e)
            && Eval(11, e, Undefined, 0, EMPTY).Ok? && Eval(11, e, Undefined, 0, EMPTY).value == Const(Bool(true))
            && Eval(11, Process(e), Undefined, 0, EMPTY).Ok? && Eval(11, Process(e), Undefined, 0, EMPTY).value == Undefined
  {
    hide Eval, Parsed, Source, Process, KeepsTrue, FilteredByItself;
    KeepsTrueIsProcessed();
    var st := EMPTY + [Frame(Some(0), map[])];
    var inner := st + [Frame(Some(1), map[])];
    TrueIsCalled(inner);
    FilteredByItselfRuns(Call(TRUE, []), Const(Bool(true)), st, inner + [Frame(Some(2), map[])]);
    KeepsTrueRuns(Call(TRUE, []), Const(Bool(true)), inner + [Frame(Some(2), map[])]);
    var thunk := Closure(Undefined, 2, [], Call(TRUE, []), true);
    ThunkIsBuilt(inner);
    FilteredByItselfRuns(THUNK, thunk, st, inner);
    KeepsTrueRuns(THUNK, Undefined, inner);
  }
}
