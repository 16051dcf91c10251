/** What tail-call rewriting does to failures. */
module TailFailures {
  import opened Options
  import opened TailCalls

  // The trampoline writes a position onto the procedure of a tail call before it evaluates the
  // arguments or checks for a function.  So the failure code changes exactly at tail calls of what
  // is no function, and a failure can come where the plain run never ends.

  /**
   The failure of the rewritten run: a host error if the plain run reaches a tail call of what is no
   function, and otherwise the plain one's.
   */
  lemma FaultsAgree(n: nat, e: Expr, input: Value, winput: Value, env: nat, st: Store, ts: Store)
    requires Source(e) && Same(input, winput) && SameStore(st, ts)
    requires Eval(n, e, input, env, st).Fail?
    ensures var site := BadTail(n, false, e, input, env, st);
            var fault := Eval(n, e, input, env, st).fault;
            && Eval(n, Process(e), winput, env, ts) == Fail(if site.Some? then HostTypeError else fault)
            && (Eval(n, Process(e), winput, env, ts) == Fail(fault) <==> fault == HostTypeError || site.None?)
  {
    PreservedEval(n, e, input, winput, env, st, ts);
  }

  // ---------------------------------------------------------------------------
  // Failures of the rewritten program
  // ---------------------------------------------------------------------------

  /** Once the arguments of the call end, so does the plain run: by failing. */
  lemma {:induction false} SiteEnds(n: nat, tail: bool, e: Expr, input: Value, env: nat, st: Store) returns (m: nat)
    requires BadTail(n, tail, e, input, env, st).Some? && ArgumentsFinish(BadTail(n, tail, e, input, env, st).value)
    ensures m >= n && Eval(m, e, input, env, st).Fail?
    decreases n
  {
    match e {
      case Bind(_, rhs) =>
        m := SiteEnds(n - 1, false, rhs, input, env, st);
        m := m + 1;
      case Condition(_, _, _) => m := SiteEndsInCondition(n, tail, e, input, env, st);
      case Filtered(o, p) => m := SiteEndsInFilter(n, tail, o, p, input, env, st);
      case Block(es) =>
        m := SiteEndsInBlock(n - 1, tail, es, Undefined, input, |st|, st + [Frame(Some(env), map[])]);
        m := m + 1;
      case Call(p, args) =>
        if BadTail(n - 1, false, p, input, env, st).Some? {
          m := SiteEnds(n - 1, false, p, input, env, st);
          m := m + 1;
        } else {
          var r := Eval(n - 1, p, input, env, st);
          m := SiteEndsInCall(n, tail, r.value, args, input, env, r.store);
          MoreFuelEval(n - 1, m - 1, p, input, env, st);
          assert Eval(m, e, input, env, st) == CallWith(m, r.value, args, true, input, env, r.store);
        }
    }
  }

  lemma {:induction false} SiteEndsInCondition(n: nat, tail: bool, e: Expr, input: Value, env: nat, st: Store) returns (m: nat)
    requires e.Condition? && BadTail(n, tail, e, input, env, st).Some?
    requires ArgumentsFinish(BadTail(n, tail, e, input, env, st).value)
    ensures m >= n && Eval(m, e, input, env, st).Fail?
    decreases n, 0
  {
    var Condition(c, t, f) := e;
    if BadTail(n - 1, false, c, input, env, st).Some? {
      m := SiteEnds(n - 1, false, c, input, env, st);
    } else {
      var r := Eval(n - 1, c, input, env, st);
      m := SiteEnds(n - 1, tail, if Truthy(r.value) then t else f.value, input, env, r.store);
      MoreFuelEval(n - 1, m, c, input, env, st);
    }
    m := m + 1;
  }

  lemma {:induction false} SiteEndsInFilter(n: nat, tail: bool, o: Expr, p: Expr, input: Value, env: nat, st: Store)
    returns (m: nat)
    requires BadTail(n, tail, Filtered(o, p), input, env, st).Some?
    requires ArgumentsFinish(BadTail(n, tail, Filtered(o, p), input, env, st).value)
    ensures m >= n && Eval(m, Filtered(o, p), input, env, st).Fail?
    decreases n, 0
  {
    if BadTail(n - 1, false, o, input, env, st).Some? {
      m := SiteEnds(n - 1, false, o, input, env, st);
    } else {
      var r := Eval(n - 1, o, input, env, st);
      m := SiteEnds(n - 1, false, p, r.value, env, r.store);
      MoreFuelEval(n - 1, m, o, input, env, st);
    }
    m := m + 1;
  }

  lemma {:induction false} SiteEndsInBlock(n: nat, tail: bool, es: seq<Expr>, last: Value, input: Value,
                                           env: nat, st: Store) returns (m: nat)
    requires BadTailInBlock(n, tail, es, input, env, st).Some?
    requires ArgumentsFinish(BadTailInBlock(n, tail, es, input, env, st).value)
    ensures m >= n && EvalBlock(m, es, last, input, env, st).Fail?
    decreases n
  {
    if BadTail(n - 1, tail && |es| == 1, es[0], input, env, st).Some? {
      m := SiteEnds(n - 1, tail && |es| == 1, es[0], input, env, st);
    } else {
      var r := Eval(n - 1, es[0], input, env, st);
      m := SiteEndsInBlock(n - 1, tail, es[1..], r.value, input, env, r.store);
      MoreFuelEval(n - 1, m, es[0], input, env, st);
    }
    m := m + 1;
  }

  lemma {:induction false} SiteEndsInCall(n: nat, tail: bool, f: Value, args: seq<Expr>, input: Value,
                                          env: nat, st: Store) returns (m: nat)
    requires n > 0 && BadTailInCall(n, tail, f, args, input, env, st).Some?
    requires ArgumentsFinish(BadTailInCall(n, tail, f, args, input, env, st).value)
    ensures m >= n && CallWith(m, f, args, true, input, env, st).Fail?
    decreases n - 1, 1
  {
    if tail && !IsFunction(f) {
      m := UncallableFails(n, f, args, input, env, st);
    } else if BadTailInArgs(n - 1, args, input, env, st).Some? {
      m := SiteEndsInArgs(n - 1, args, input, env, st);
      m := m + 1;
    } else {
      var r := EvalArgs(n - 1, args, true, input, env, st);
      m := SiteEndsInApply(n - 1, f, r.value, r.store);
      MoreFuelArgs(n - 1, m, args, true, input, env, st);
      m := m + 1;
    }
  }

  lemma UncallableFails(n: nat, f: Value, args: seq<Expr>, input: Value, env: nat, st: Store) returns (m: nat)
    requires !IsFunction(f) && ArgumentsFinish(Site(args, input, env, st))
    ensures m >= n && m > 0 && CallWith(m, f, args, true, input, env, st).Fail?
  {
    var k: nat :| !EvalArgs(k, args, true, input, env, st).Timeout?;
    var top := Max(Max(n, k), 2);
    MoreFuelArgs(k, top, args, true, input, env, st);
    m := top + 1;
    var r := EvalArgs(top, args, true, input, env, st);
    if r.Ok? {
      assert ApplyInner(top - 1, f, r.value, r.store) == Fail(T1006);
    }
  }

  lemma {:induction false} SiteEndsInArgs(n: nat, es: seq<Expr>, input: Value, env: nat, st: Store) returns (m: nat)
    requires BadTailInArgs(n, es, input, env, st).Some? && ArgumentsFinish(BadTailInArgs(n, es, input, env, st).value)
    ensures m >= n && EvalArgs(m, es, true, input, env, st).Fail?
    decreases n, 0
  {
    if BadTail(n - 1, false, es[0], input, env, st).Some? {
      m := SiteEnds(n - 1, false, es[0], input, env, st);
    } else {
      var r := Eval(n - 1, es[0], input, env, st);
      m := SiteEndsInArgs(n - 1, es[1..], input, env, r.store);
      MoreFuelEval(n - 1, m, es[0], input, env, st);
    }
    m := m + 1;
  }

  lemma {:induction false} SiteEndsInApply(n: nat, f: Value, args: seq<Value>, st: Store) returns (m: nat)
    requires BadTailInApply(n, f, args, st).Some? && ArgumentsFinish(BadTailInApply(n, f, args, st).value)
    ensures m >= n && Apply(m, f, args, st).Fail?
    decreases n, 0
  {
    match f {
      case Closure(input, env, ps, body, _) =>
        m := SiteEnds(n - 2, true, body, input, |st|, st + [Frame(Some(env), BindParams(ps, args))]);
        m := m + 2;
        ClosureApplied(m, f, args, st);
      case Wrapper(u) =>
        m := SiteEndsInApply(n - 2, u, args, st);
        m := m + 2;
        WrapperApplied(m, u, args, st);
    }
  }

  predicate Fails(n: nat, e: Expr, input: Value, env: nat, st: Store) {
    Eval(n, e, input, env, st).Fail?
  }

  /** Every tail call of what is no function that the plain run reaches has arguments that end. */
  ghost predicate SitesEnd(e: Expr, input: Value, env: nat, st: Store) {
    forall n: nat :: BadTail(n, false, e, input, env, st).Some? ==> ArgumentsFinish(BadTail(n, false, e, input, env, st).value)
  }

  lemma FailingRunEndsSites(m: nat, n: nat, e: Expr, input: Value, env: nat, st: Store)
    requires Fails(m, e, input, env, st) && BadTail(n, false, e, input, env, st).Some?
    ensures ArgumentsFinish(BadTail(n, false, e, input, env, st).value)
  {
    var top := Max(m, n);
    MoreFuelEval(m, top, e, input, env, st);
    MoreBadTail(n, top, false, e, input, env, st);
    SiteFails(top, false, e, input, env, st);
  }

  /**
   When the rewritten program fails, the plain one fails too, exactly if the arguments of the tail
   calls of what is no function that it reaches end; the trampoline never evaluates them.
   */
  lemma FailuresReflect(n: nat, e: Expr, input: Value, winput: Value, env: nat, st: Store, ts: Store)
    requires Source(e) && Same(input, winput) && SameStore(st, ts)
    requires Fails(n, Process(e), winput, env, ts)
    ensures (exists m :: Fails(m, e, input, env, st)) <==> SitesEnd(e, input, env, st)
  {
    if m :| Fails(m, e, input, env, st) {
      forall k: nat | BadTail(k, false, e, input, env, st).Some?
        ensures ArgumentsFinish(BadTail(k, false, e, input, env, st).value)
      {
        FailingRunEndsSites(m, k, e, input, env, st);
      }
    }
    var m := ReflectedEval(n, e, input, winput, env, st, ts);
    if SitesEnd(e, input, env, st) {
      if BadTail(m, false, e, input, env, st).Some? {
        m := SiteEnds(m, false, e, input, env, st);
      }
      assert Fails(m, e, input, env, st);
    }
  }

  // ---------------------------------------------------------------------------
  // Programs that keep their failures
  // ---------------------------------------------------------------------------

  /** Tail calls, if any, call lambda literals. */
  predicate CallsLambdas(e: Expr) {
    match e
    case Call(p, _) => p.Lambda?
    case Condition(_, t, f) => CallsLambdas(t) && (f.Some? ==> CallsLambdas(f.value))
    case Block(es) => es != [] ==> CallsLambdas(es[|es| - 1])
    case _ => true
  }

  /** The bodies of all lambdas do so. */
  predicate Guarded(e: Expr)
    decreases e, 1
  {
    match e
    case Lit(_) => true
    case Variable(_) => true
    case Lambda(_, body, thunk) => !thunk && CallsLambdas(body) && Guarded(body)
    case Call(p, args) => Guarded(p) && GuardedAll(args)
    case Condition(c, t, f) => Guarded(c) && Guarded(t) && (f.Some? ==> Guarded(f.value))
    case Block(es) => GuardedAll(es)
    case Bind(_, rhs) => Guarded(rhs)
    case Filtered(o, p) => Guarded(o) && Guarded(p)
  }

  predicate GuardedAll(es: seq<Expr>)
    decreases es, 0
  {
    es == [] || (Guarded(es[0]) && GuardedAll(es[1..]))
  }

  predicate GuardedValue(v: Value) {
    match v
    case Closure(input, _, _, body, thunk) => !thunk && CallsLambdas(body) && Guarded(body) && GuardedValue(input)
    case Wrapper(u) => GuardedValue(u)
    case _ => true
  }

  ghost predicate GuardedValues(vs: seq<Value>) {
    forall i :: 0 <= i < |vs| ==> GuardedValue(vs[i])
  }

  ghost predicate GuardedFrame(f: Frame) {
    forall x :: x in f.bindings ==> GuardedValue(f.bindings[x])
  }

  ghost predicate GuardedStore(st: Store) {
    forall i :: 0 <= i < |st| ==> GuardedFrame(st[i])
  }

  ghost predicate GuardedOutcome(r: Outcome<Value>) {
    r.Ok? ==> GuardedValue(r.value) && GuardedStore(r.store)
  }

  lemma {:induction false} GuardedLookup(st: Store, env: nat, x: string)
    requires GuardedStore(st)
    ensures GuardedValue(Lookup(st, env, x))
    decreases env
  {
    if env < |st| {
      assert GuardedFrame(st[env]);
      if x !in st[env].bindings && st[env].parent.Some? && st[env].parent.value < env {
        GuardedLookup(st, st[env].parent.value, x);
      }
    }
  }

  lemma GuardedBind(st: Store, env: nat, x: string, v: Value)
    requires GuardedStore(st) && GuardedValue(v)
    ensures GuardedStore(BindIn(st, env, x, v))
  {
    if env < |st| {
      assert GuardedFrame(st[env]);
    }
  }

  lemma {:induction false} GuardedParams(ps: seq<string>, vs: seq<Value>)
    requires GuardedValues(vs)
    ensures forall x :: x in BindParams(ps, vs) ==> GuardedValue(BindParams(ps, vs)[x])
  {
    if ps != [] {
      GuardedParams(ps[..|ps| - 1], vs);
    }
  }

  lemma {:induction false} NoBadTail(n: nat, tail: bool, e: Expr, input: Value, env: nat, st: Store)
    requires Guarded(e) && (tail ==> CallsLambdas(e)) && GuardedValue(input) && GuardedStore(st)
    ensures BadTail(n, tail, e, input, env, st).None? && GuardedOutcome(Eval(n, e, input, env, st))
    decreases n
  {
    if n > 0 {
      match e {
        case Lit(_) =>
        case Variable(x) => GuardedLookup(st, env, x);
        case Lambda(_, _, _) =>
        case Bind(x, rhs) =>
          NoBadTail(n - 1, false, rhs, input, env, st);
          var r := Eval(n - 1, rhs, input, env, st);
          if r.Ok? {
            GuardedBind(r.store, env, x, r.value);
          }
        case Condition(_, _, _) => NoBadTailInCondition(n, tail, e, input, env, st);
        case Filtered(o, p) => NoBadTailInFilter(n, tail, o, p, input, env, st);
        case Block(es) =>
          NoBadTailInBlock(n - 1, tail, es, Undefined, input, |st|, st + [Frame(Some(env), map[])]);
        case Call(p, args) =>
          NoBadTail(n - 1, false, p, input, env, st);
          var r := Eval(n - 1, p, input, env, st);
          if r.Ok? {
            NoBadTailInCall(n, tail, r.value, args, input, env, r.store);
          }
      }
    }
  }

  lemma {:induction false} NoBadTailInCondition(n: nat, tail: bool, e: Expr, input: Value, env: nat, st: Store)
    requires n > 0 && e.Condition? && Guarded(e) && (tail ==> CallsLambdas(e)) && GuardedValue(input) && GuardedStore(st)
    ensures BadTail(n, tail, e, input, env, st).None? && GuardedOutcome(Eval(n, e, input, env, st))
    decreases n, 0
  {
    hide GuardedStore;
    var Condition(c, t, f) := e;
    NoBadTail(n - 1, false, c, input, env, st);
    var r := Eval(n - 1, c, input, env, st);
    if r.Ok? && (Truthy(r.value) || f.Some?) {
      NoBadTail(n - 1, tail, if Truthy(r.value) then t else f.value, input, env, r.store);
    }
  }

  lemma {:induction false} NoBadTailInFilter(n: nat, tail: bool, o: Expr, p: Expr, input: Value, env: nat, st: Store)
    requires n > 0 && Guarded(o) && Guarded(p) && GuardedValue(input) && GuardedStore(st)
    ensures BadTail(n, tail, Filtered(o, p), input, env, st).None?
    ensures GuardedOutcome(Eval(n, Filtered(o, p), input, env, st))
    decreases n, 0
  {
    hide GuardedStore;
    NoBadTail(n - 1, false, o, input, env, st);
    var r := Eval(n - 1, o, input, env, st);
    if r.Ok? {
      NoBadTail(n - 1, false, p, r.value, env, r.store);
    }
  }

  lemma {:induction false} NoBadTailInBlock(n: nat, tail: bool, es: seq<Expr>, last: Value, input: Value, env: nat, st: Store)
    requires GuardedAll(es) && (tail && es != [] ==> CallsLambdas(es[|es| - 1]))
    requires GuardedValue(last) && GuardedValue(input) && GuardedStore(st)
    ensures BadTailInBlock(n, tail, es, input, env, st).None? && GuardedOutcome(EvalBlock(n, es, last, input, env, st))
    decreases n
  {
    if n > 0 && es != [] {
      NoBadTail(n - 1, tail && |es| == 1, es[0], input, env, st);
      var r := Eval(n - 1, es[0], input, env, st);
      if r.Ok? {
        NoBadTailInBlock(n - 1, tail, es[1..], r.value, input, env, r.store);
      }
    }
  }

  lemma {:induction false} NoBadTailInCall(n: nat, tail: bool, f: Value, args: seq<Expr>, input: Value, env: nat, st: Store)
    requires n > 0 && GuardedAll(args) && (tail ==> IsFunction(f))
    requires GuardedValue(f) && GuardedValue(input) && GuardedStore(st)
    ensures BadTailInCall(n, tail, f, args, input, env, st).None?
    ensures GuardedOutcome(CallWith(n, f, args, true, input, env, st))
    decreases n - 1, 1
  {
    NoBadTailInArgs(n - 1, args, input, env, st);
    var r := EvalArgs(n - 1, args, true, input, env, st);
    if r.Ok? {
      NoBadTailInApply(n - 1, f, r.value, r.store);
    }
  }

  lemma {:induction false} NoBadTailInArgs(n: nat, es: seq<Expr>, input: Value, env: nat, st: Store)
    requires GuardedAll(es) && GuardedValue(input) && GuardedStore(st)
    ensures BadTailInArgs(n, es, input, env, st).None?
    ensures var r := EvalArgs(n, es, true, input, env, st); r.Ok? ==> GuardedValues(r.value) && GuardedStore(r.store)
    decreases n, 0
  {
    if n > 0 && es != [] {
      NoBadTail(n - 1, false, es[0], input, env, st);
      var r := Eval(n - 1, es[0], input, env, st);
      if r.Ok? {
        NoBadTailInArgs(n - 1, es[1..], input, env, r.store);
      }
    }
  }

  lemma {:induction false} NoBadTailInApply(n: nat, f: Value, args: seq<Value>, st: Store)
    requires GuardedValue(f) && GuardedValues(args) && GuardedStore(st)
    ensures BadTailInApply(n, f, args, st).None? && GuardedOutcome(Apply(n, f, args, st))
    decreases n, 0
  {
    if n < 2 {
      ApplyNests(n, f, args, st);
    } else {
      match f {
        case Closure(input, env, ps, body, _) =>
          ClosureApplied(n, f, args, st);
          GuardedParams(ps, args);
          NoBadTail(n - 2, true, body, input, |st|, st + [Frame(Some(env), BindParams(ps, args))]);
        case Wrapper(u) =>
          WrapperApplied(n, u, args, st);
          NoBadTailInApply(n - 2, u, args, st);
        case _ =>
          assert ApplyInner(n - 1, f, args, st) == Fail(T1006);
      }
    }
  }

  /** Where tail calls call lambda literals, rewriting keeps values, stores and failure codes, and ends when the plain run does. */
  lemma GuardedProgramsKeepFaults(n: nat, e: Expr, input: Value, winput: Value, env: nat, st: Store, ts: Store)
    requires Source(e) && Same(input, winput) && SameStore(st, ts)
    requires Guarded(e) && GuardedValue(input) && GuardedStore(st)
    ensures !Eval(n, e, input, env, st).Timeout? ==>
              SameOutcome(Eval(n, e, input, env, st), Eval(n, Process(e), winput, env, ts))
    ensures !Eval(n, Process(e), winput, env, ts).Timeout? ==>
              exists m :: SameOutcome(Eval(m, e, input, env, st), Eval(n, Process(e), winput, env, ts))
  {
    hide Eval, Process, SameStore, Guarded, GuardedStore, Source;
    NoBadTail(n, false, e, input, env, st);
    if !Eval(n, e, input, env, st).Timeout? {
      PreservedEval(n, e, input, winput, env, st, ts);
    }
    if !Eval(n, Process(e), winput, env, ts).Timeout? {
      var m := ReflectedEval(n, e, input, winput, env, st, ts);
      NoBadTail(m, false, e, input, env, st);
      assert SameOutcome(Eval(m, e, input, env, st), Eval(n, Process(e), winput, env, ts));
    }
  }

  // ---------------------------------------------------------------------------
  // Programs that do not
  // ---------------------------------------------------------------------------

  const EMPTY: Store := [Frame(None, map[])]

  /** A lambda that calls a number in tail position, called. */
  function CallsNumber(args: seq<Expr>): Expr {
    Call(Lambda([], Call(Lit(Number(1)), args), false), [])
  }

  function InnerStore(st: Store, env: nat): Store {
    st + [Frame(Some(env), map[])]
  }

  lemma NumberIsReached(args: seq<Expr>, env: nat, st: Store)
    ensures BadTail(5, false, CallsNumber(args), Undefined, env, st) == Some(Site(args, Undefined, |st|, InnerStore(st, env)))
  {
    var body := Call(Lit(Number(1)), args);
    var f := Closure(Undefined, env, [], body, false);
    assert Eval(1, Lit(Number(1)), Undefined, |st|, InnerStore(st, env)) == Ok(Const(Number(1)), InnerStore(st, env));
    assert BadTail(2, true, body, Undefined, |st|, InnerStore(st, env)) == Some(Site(args, Undefined, |st|, InnerStore(st, env)));
    assert BindParams([], []) == map[];
    assert BadTailInApply(4, f, [], st) == Some(Site(args, Undefined, |st|, InnerStore(st, env)));
    assert Eval(4, Lambda([], body, false), Undefined, env, st) == Ok(f, st);
    assert BadTailInCall(5, false, f, [], Undefined, env, st) == BadTailInApply(4, f, [], st);
  }

  /** A failure code that changes: the plain program reports `T1006`, the rewritten one the host's error. */
  lemma FailureCodesDiffer()
    ensures var e := CallsNumber([]);
            Source(e) && Eval(9, e, Undefined, 0, EMPTY) == Fail(T1006) && Eval(9, Process(e), Undefined, 0, EMPTY) == Fail(HostTypeError)
  {
    var body := Call(Lit(Number(1)), []);
    var e, inner := CallsNumber([]), InnerStore(EMPTY, 0);
    var f := Closure(Undefined, 0, [], body, false);
    assert Eval(5, Lit(Number(1)), Undefined, 1, inner) == Ok(Const(Number(1)), inner);
    assert ApplyInner(4, Const(Number(1)), [], inner) == Fail(T1006);
    assert Eval(6, body, Undefined, 1, inner) == Fail(T1006);
    ClosureApplied(8, f, [], EMPTY);
    assert BindParams([], []) == map[];
    assert Eval(8, Lambda([], body, false), Undefined, 0, EMPTY) == Ok(f, EMPTY);
    NumberIsReached([], 0, EMPTY);
    MoreBadTail(5, 9, false, e, Undefined, 0, EMPTY);
    FaultsAgree(9, e, Undefined, Undefined, 0, EMPTY, EMPTY);
  }

  lemma LookupOfLater(st: Store, f: Frame, env: nat, x: string)
    requires env < |st|
    ensures Lookup(st + [f], env, x) == Lookup(st, env, x)
    decreases env
  {
    if x !in st[env].bindings && st[env].parent.Some? && st[env].parent.value < env {
      LookupOfLater(st, f, st[env].parent.value, x);
    }
  }

  const LOOP: Expr := Call(Variable("loop"), [])

  /** `loop` names a function that calls `loop`, here and where the function was made. */
  ghost predicate Looping(env: nat, st: Store) {
    var v := Lookup(st, env, "loop");
    v.Closure? && v.params == [] && v.body == LOOP && !v.thunk && v.env < |st| && Lookup(st, v.env, "loop") == v
  }

  lemma {:induction false} LoopNeverEnds(n: nat, input: Value, env: nat, st: Store)
    requires Looping(env, st)
    ensures Eval(n, LOOP, input, env, st) == Timeout
    decreases n
  {
    if n >= 2 {
      var v := Lookup(st, env, "loop");
      assert Eval(n - 1, Variable("loop"), input, env, st) == Ok(v, st);
      if n - 1 < 2 {
        ApplyNests(n - 1, v, [], st);
      } else {
        var frame := Frame(Some(v.env), map[]);
        ClosureApplied(n - 1, v, [], st);
        LookupOfLater(st, frame, v.env, "loop");
        assert Lookup(st + [frame], |st|, "loop") == v;
        LoopNeverEnds(n - 3, v.input, |st|, st + [frame]);
      }
    }
  }

  /** A loop is named, and then a number is called in tail position with the loop's value. */
  function CallsNumberWithLoop(): Expr {
    Block([Bind("loop", Lambda([], LOOP, false)), CallsNumber([LOOP])])
  }

  lemma LoopIsReached()
    ensures var s := BadTail(9, false, CallsNumberWithLoop(), Undefined, 0, EMPTY);
            s.Some? && s.value.arguments == [LOOP] && Looping(s.value.env, s.value.store)
  {
    var loop := Lambda([], LOOP, false);
    var es := [Bind("loop", loop), CallsNumber([LOOP])];
    var st0 := InnerStore(EMPTY, 0);
    var v := Closure(Undefined, 1, [], LOOP, false);
    var st1 := BindIn(st0, 1, "loop", v);
    assert Eval(6, loop, Undefined, 1, st0) == Ok(v, st0);
    assert Eval(7, es[0], Undefined, 1, st0) == Ok(v, st1);
    assert es[1..] == [CallsNumber([LOOP])];
    NumberIsReached([LOOP], 1, st1);
    MoreBadTail(5, 6, false, CallsNumber([LOOP]), Undefined, 1, st1);
    assert BadTailInBlock(7, false, es[1..], Undefined, 1, st1) == BadTail(6, false, CallsNumber([LOOP]), Undefined, 1, st1);
    assert BadTailInBlock(8, false, es, Undefined, 1, st0) == BadTailInBlock(7, false, es[1..], Undefined, 1, st1);
    var site := Site([LOOP], Undefined, 2, InnerStore(st1, 1));
    assert Lookup(site.store, 2, "loop") == Lookup(site.store, 1, "loop") == v;
  }

  /** A failure from nowhere: the plain program never ends, the rewritten one fails at once. */
  lemma RewrittenFailsAlone()
    ensures var e := CallsNumberWithLoop();
            && Source(e) && Eval(9, Process(e), Undefined, 0, EMPTY) == Fail(HostTypeError)
            && forall n: nat :: Eval(n, e, Undefined, 0, EMPTY) == Timeout
  {
    var e := CallsNumberWithLoop();
    LoopIsReached();
    SourceOfLoop();
    PreservedEval(9, e, Undefined, Undefined, 0, EMPTY, EMPTY);
    var s := BadTail(9, false, e, Undefined, 0, EMPTY).value;
    forall n: nat
      ensures Eval(n, e, Undefined, 0, EMPTY) == Timeout
    {
      var top := Max(n, 9);
      MoreBadTail(9, top, false, e, Undefined, 0, EMPTY);
      SiteFails(top, false, e, Undefined, 0, EMPTY);
      LoopArgumentsNeverEnd(s);
      if Eval(n, e, Undefined, 0, EMPTY) != Timeout {
        MoreFuelEval(n, top, e, Undefined, 0, EMPTY);
      }
    }
  }

  lemma SourceOfLoop()
    ensures Source(CallsNumberWithLoop())
  {
    var es := [Bind("loop", Lambda([], LOOP, false)), CallsNumber([LOOP])];
    assert Source(LOOP);
    assert SourceAll([LOOP]) by {
      assert [LOOP][1..] == [];
    }
    assert Source(Call(Lit(Number(1)), [LOOP]));
    assert Source(Lambda([], Call(Lit(Number(1)), [LOOP]), false));
    assert SourceAll([]);
    assert Source(CallsNumber([LOOP]));
    assert SourceAll(es[1..]) by {
      assert es[1..] == [CallsNumber([LOOP])] && es[1..][1..] == [];
    }
  }

  lemma LoopArgumentsNeverEnd(s: Site)
    requires s.arguments == [LOOP] && Looping(s.env, s.store)
    ensures !ArgumentsFinish(s)
  {
    forall k: nat
      ensures EvalArgs(k, s.arguments, true, s.input, s.env, s.store).Timeout?
    {
      if k > 0 {
        LoopNeverEnds(k - 1, s.input, s.env, s.store);
      }
    }
  }
}
