/** What the constructs of the JavaScript evaluator mean, one by one. */
module JsLaws {
  import opened Options
  import opened Parameters
  import opened TailCalls

  // Each law tells what a construct does from what its parts do, in terms of values and stores alone.
  // The rewriting theorems relate two runs of one evaluator; these say which evaluator it is.

  // ---------------------------------------------------------------------------
  // Literals, lambdas and variables
  // ---------------------------------------------------------------------------

  /** Constants, the context and closures: nothing is evaluated and nothing is stored. */
  lemma AtomsAreImmediate(n: nat, c: Literal, ps: seq<string>, body: Expr, input: Value, env: nat, st: Store)
    requires n > 0
    ensures Eval(n, Lit(c), input, env, st) == Ok(Const(c), st)
    ensures Eval(n, Variable(""), input, env, st) == Ok(input, st)
    ensures Eval(n, Lambda(ps, body, false), input, env, st) == Ok(Closure(input, env, ps, body, false), st)
  {
  }

  /** The frames from `env` outwards, each the parent of the one before, none but the last binding `x`. */
  ghost predicate Outward(st: Store, env: nat, x: string, path: seq<nat>) {
    && path != [] && path[0] == env
    && (forall i :: 0 <= i < |path| ==> path[i] < |st|)
    && (forall i :: 0 <= i < |path| - 1 ==>
          x !in st[path[i]].bindings && st[path[i]].parent == Some(path[i + 1]) && path[i + 1] < path[i])
  }

  /** A variable has the value of the innermost binding around it, and none without one. */
  lemma {:induction false} VariablesAreLexical(n: nat, x: string, input: Value, env: nat, st: Store, path: seq<nat>)
    requires n > 0 && x != "" && Outward(st, env, x, path)
    ensures var frame := st[path[|path| - 1]];
            && (x in frame.bindings ==> Eval(n, Variable(x), input, env, st) == Ok(frame.bindings[x], st))
            && (x !in frame.bindings && frame.parent.None? ==> Eval(n, Variable(x), input, env, st) == Ok(Undefined, st))
    decreases |path|
  {
    if |path| > 1 {
      var rest := path[1..];
      assert forall i :: 0 <= i < |rest| ==> rest[i] == path[i + 1];
      VariablesAreLexical(n, x, input, path[1], st, rest);
    }
  }

  /** A binding yields its value, is seen in its frame afterwards, and changes nothing else. */
  lemma BindingsAreLocal(n: nat, x: string, rhs: Expr, input: Value, env: nat, st: Store, v: Value, st1: Store)
    requires n > 0 && Eval(n - 1, rhs, input, env, st) == Ok(v, st1) && env < |st1|
    ensures var r := Eval(n, Bind(x, rhs), input, env, st);
            && r.Ok? && r.value == v && |r.store| == |st1| && r.store[env].parent == st1[env].parent
            && (forall i :: 0 <= i < |st1| && i != env ==> r.store[i] == st1[i])
            && (forall y :: y != x ==> (y in r.store[env].bindings <==> y in st1[env].bindings))
            && (forall y :: y != x && y in st1[env].bindings ==> r.store[env].bindings[y] == st1[env].bindings[y])
            && x in r.store[env].bindings && r.store[env].bindings[x] == v
  {
  }

  // ---------------------------------------------------------------------------
  // Conditions and predicates
  // ---------------------------------------------------------------------------

  /** True, numbers but zero and texts but the empty one choose the first branch; all else the second, or nothing. */
  lemma ConditionsChoose(n: nat, c: Expr, t: Expr, f: Option<Expr>, input: Value, env: nat, st: Store, v: Value, st1: Store)
    requires n > 0 && Eval(n - 1, c, input, env, st) == Ok(v, st1)
    ensures (v == Const(Bool(true)) || (exists i :: i != 0 && v == Const(Number(i)))
             || (exists s :: s != "" && v == Const(Text(s))) || (exists s, i :: v == Const(Carrier(s, i)))) ==>
              Eval(n, Condition(c, t, f), input, env, st) == Eval(n - 1, t, input, env, st1)
    ensures v in {Undefined, Const(Null), Const(Bool(false)), Const(Number(0)), Const(Text(""))} || v.Closure? || v.Wrapper? ==>
              Eval(n, Condition(c, t, f), input, env, st) ==
              if f.Some? then Eval(n - 1, f.value, input, env, st1) else Ok(Undefined, st1)
  {
  }

  /** A predicate sees the item as its context; the item stays if the outcome is its index or is true. */
  lemma PredicatesFilter(n: nat, o: Expr, p: Expr, input: Value, env: nat, st: Store, v: Value, st1: Store, k: Value, st2: Store)
    requires n > 0 && Eval(n - 1, o, input, env, st) == Ok(v, st1) && Eval(n - 1, p, v, env, st1) == Ok(k, st2)
    ensures k in {Const(Number(0)), Const(Number(-1)), Const(Bool(true))} || (exists s :: s != "" && k == Const(Text(s))) ==>
              Eval(n, Filtered(o, p), input, env, st) == Ok(v, st2)
    ensures k in {Undefined, Const(Null), Const(Bool(false)), Const(Text(""))} || k.Closure? || k.Wrapper?
            || (exists i :: i != 0 && i != -1 && k == Const(Number(i))) ==>
              Eval(n, Filtered(o, p), input, env, st) == Ok(Undefined, st2)
    ensures k.Const? && k.lit.Carrier? ==>
              Eval(n, Filtered(o, p), input, env, st) == Ok(if -1 <= k.lit.floor <= 0 then v else Undefined, st2)
  {
  }

  // ---------------------------------------------------------------------------
  // Blocks and arguments: one after the other
  // ---------------------------------------------------------------------------

  /** The expressions evaluate one after the other, each in the store the one before left. */
  ghost predicate InTurn(n: nat, es: seq<Expr>, input: Value, env: nat, vs: seq<Value>, stores: seq<Store>) {
    && |vs| == |es| && |stores| == |es| + 1 && |es| <= n
    && forall i :: 0 <= i < |es| ==> Eval(n - 1 - i, es[i], input, env, stores[i]) == Ok(vs[i], stores[i + 1])
  }

  lemma InTurnShape(n: nat, es: seq<Expr>, input: Value, env: nat, vs: seq<Value>, stores: seq<Store>)
    requires InTurn(n, es, input, env, vs, stores)
    ensures |vs| == |es| && |stores| == |es| + 1 && |es| <= n
  {
  }

  lemma InTurnRest(n: nat, es: seq<Expr>, input: Value, env: nat, vs: seq<Value>, stores: seq<Store>)
    requires InTurn(n, es, input, env, vs, stores) && es != []
    ensures InTurn(n - 1, es[1..], input, env, vs[1..], stores[1..])
    ensures Eval(n - 1, es[0], input, env, stores[0]) == Ok(vs[0], stores[1])
  {
    hide Eval;
    assert Eval(n - 1 - 0, es[0], input, env, stores[0]) == Ok(vs[0], stores[1]);
    forall i | 0 <= i < |es| - 1
      ensures Eval(n - 1 - 1 - i, es[1..][i], input, env, stores[1..][i]) == Ok(vs[1..][i], stores[1..][i + 1])
    {
      assert Eval(n - 1 - (i + 1), es[i + 1], input, env, stores[i + 1]) == Ok(vs[i + 1], stores[i + 2]);
    }
  }

  lemma {:induction false} SequencesRun(n: nat, es: seq<Expr>, last: Value, input: Value, env: nat, vs: seq<Value>, stores: seq<Store>)
    requires InTurn(n, es, input, env, vs, stores)
    ensures EvalBlock(n, es, last, input, env, stores[0]) == Ok(if es == [] then last else vs[|es| - 1], stores[|es|])
    decreases |es|
  {
    if es != [] {
      InTurnRest(n, es, input, env, vs, stores);
      SequencesRun(n - 1, es[1..], vs[0], input, env, vs[1..], stores[1..]);
    }
  }

  /** A block runs in a new frame inside the present one and has the value of its last expression. */
  lemma BlocksRun(n: nat, es: seq<Expr>, input: Value, env: nat, st: Store, vs: seq<Value>, stores: seq<Store>)
    requires n > 0 && InTurn(n - 1, es, input, |st|, vs, stores) && stores[0] == st + [Frame(Some(env), map[])]
    ensures Eval(n, Block(es), input, env, st) == Ok(if es == [] then Undefined else vs[|es| - 1], stores[|es|])
  {
    SequencesRun(n - 1, es, Undefined, input, |st|, vs, stores);
  }

  /** Arguments are evaluated from left to right; a direct call wraps the functions among them. */
  lemma {:induction false} ArgumentsRun(n: nat, es: seq<Expr>, wrap: bool, input: Value, env: nat, vs: seq<Value>, stores: seq<Store>)
    requires InTurn(n, es, input, env, vs, stores)
    ensures var r := EvalArgs(n, es, wrap, input, env, stores[0]);
            && r.Ok? && r.store == stores[|es|] && |r.value| == |es|
            && forall i :: 0 <= i < |es| ==>
                 r.value[i] == if wrap && (vs[i].Closure? || vs[i].Wrapper?) then Wrapper(vs[i]) else vs[i]
    decreases |es|
  {
    hide InTurn, Eval;
    InTurnShape(n, es, input, env, vs, stores);
    if es != [] {
      InTurnRest(n, es, input, env, vs, stores);
      ArgumentsRun(n - 1, es[1..], wrap, input, env, vs[1..], stores[1..]);
    }
  }

  // ---------------------------------------------------------------------------
  // Application
  // ---------------------------------------------------------------------------

  lemma {:induction false} ParametersBind(params: seq<string>, args: seq<Value>)
    ensures BindsByPosition(params, args, Undefined, BindParams(params, args))
  {
    if params != [] {
      var front, last := params[..|params| - 1], |params| - 1;
      ParametersBind(front, args);
      ParameterJoins(params, args, Undefined, BindParams(front, args));
    }
  }

  predicate Thunk(r: Outcome<Value>) {
    r.Ok? && r.value.Closure? && r.value.thunk
  }

  /**
   A call evaluates its procedure, then its arguments, and then the body of the closure: with the
   context the closure was made in, in a new frame inside the frame it was made in, where each
   parameter has the argument of its position.
   */
  lemma CallsRunBodies(n: nat, p: Expr, es: seq<Expr>, input: Value, env: nat, st: Store, f: Value, vs: seq<Value>,
                       stores: seq<Store>, args: seq<Value>, bindings: map<string, Value>)
    requires n > 3 && InTurn(n - 1, es, input, env, vs, stores)
    requires Eval(n - 1, p, input, env, st) == Ok(f, stores[0]) && f.Closure?
    requires |args| == |vs|
    requires forall i :: 0 <= i < |vs| ==> args[i] == if vs[i].Closure? || vs[i].Wrapper? then Wrapper(vs[i]) else vs[i]
    requires BindsByPosition(f.params, args, Undefined, bindings)
    ensures var st1 := stores[|es|];
            var r := Eval(n - 3, f.body, f.input, |st1|, st1 + [Frame(Some(f.env), bindings)]);
            !Thunk(r) ==> Eval(n, Call(p, es), input, env, st) == r
  {
    hide EvalArgs, BindParams;
    ArgumentsRun(n - 1, es, true, input, env, vs, stores);
    assert EvalArgs(n - 1, es, true, input, env, stores[0]).value == args;
    ParametersBind(f.params, args);
    BindingsAreDetermined(f.params, args, Undefined, bindings, BindParams(f.params, args));
    ClosureApplied(n - 1, f, args, stores[|es|]);
  }

  /** In particular a function that returns its i-th parameter returns the i-th argument. */
  lemma CallsPassArguments(n: nat, params: seq<string>, i: nat, es: seq<Expr>, input: Value, env: nat, vs: seq<Value>, stores: seq<Store>)
    requires n > 3 && InTurn(n - 1, es, input, env, vs, stores)
    requires NamesLast(params, i) && params[i] != ""
    ensures var r := Eval(n, Call(Lambda(params, Variable(params[i]), false), es), input, env, stores[0]);
            && r.Ok?
            && r.value == if i >= |es| then Undefined
                          else if vs[i].Closure? || vs[i].Wrapper? then Wrapper(vs[i]) else vs[i]
  {
    var body, st := Variable(params[i]), stores[|es|];
    var f := Closure(input, env, params, body, false);
    AtomsAreImmediate(n - 1, Null, params, body, input, env, stores[0]);
    ArgumentsRun(n - 1, es, true, input, env, vs, stores);
    var args := EvalArgs(n - 1, es, true, input, env, stores[0]).value;
    var b := BindParams(params, args);
    ParametersBind(params, args);
    CallsRunBodies(n, Lambda(params, body, false), es, input, env, stores[0], f, vs, stores, args, b);
    VariablesAreLexical(n - 3, params[i], input, |st|, st + [Frame(Some(env), b)], [|st|]);
  }

  /** A function passed as an argument is the function: the wrapper adds nesting and nothing else. */
  lemma WrappersAreTransparent(n: nat, u: Value, args: seq<Value>, st: Store)
    requires n >= 2 && !Thunk(Apply(n - 2, u, args, st))
    ensures Apply(n, Wrapper(u), args, st) == Apply(n - 2, u, args, st)
  {
    WrapperApplied(n, u, args, st);
  }

  /** What is no function is refused, with its arguments evaluated. */
  lemma OnlyFunctionsAreCalled(n: nat, p: Expr, es: seq<Expr>, input: Value, env: nat, st: Store, f: Value, vs: seq<Value>, stores: seq<Store>)
    requires n > 2 && InTurn(n - 1, es, input, env, vs, stores) && Eval(n - 1, p, input, env, st) == Ok(f, stores[0])
    ensures f == Const(Null) || (f.Const? && f.lit.Carrier?) ==> Eval(n, Call(p, es), input, env, st) == Fail(HostTypeError)
    ensures f.Undefined? || (f.Const? && (f.lit.Bool? || f.lit.Number? || f.lit.Text?)) ==>
              Eval(n, Call(p, es), input, env, st) == Fail(T1006)
  {
    hide EvalArgs;
    ArgumentsRun(n - 1, es, true, input, env, vs, stores);
    var r := EvalArgs(n - 1, es, true, input, env, stores[0]);
    if !(f.Closure? || f.Wrapper?) {
      assert ApplyInner(n - 2, f, r.value, r.store) == Fail(T1006);
    }
  }

  // ---------------------------------------------------------------------------
  // Failures
  // ---------------------------------------------------------------------------

  /** The first part that fails decides, and nothing after it is evaluated. */
  lemma FailuresSpread(n: nat, e: Expr, x: string, t: Expr, f: Option<Expr>, es: seq<Expr>, input: Value, env: nat, st: Store, fault: Fault)
    requires n > 0 && Eval(n - 1, e, input, env, st) == Fail(fault)
    ensures Eval(n, Bind(x, e), input, env, st) == Fail(fault)
    ensures Eval(n, Condition(e, t, f), input, env, st) == Fail(fault)
    ensures Eval(n, Filtered(e, t), input, env, st) == Fail(fault)
    ensures Eval(n, Call(e, es), input, env, st) == Fail(fault)
  {
  }

  /** The expressions before the k-th evaluate, and the k-th fails. */
  ghost predicate FailsAt(n: nat, es: seq<Expr>, k: nat, input: Value, env: nat, vs: seq<Value>, stores: seq<Store>, fault: Fault) {
    && k < |es| && k < n && InTurn(n, es[..k], input, env, vs, stores)
    && Eval(n - 1 - k, es[k], input, env, stores[k]) == Fail(fault)
  }

  lemma {:induction false} SequencesFail(n: nat, es: seq<Expr>, k: nat, last: Value, wrap: bool, input: Value, env: nat, vs: seq<Value>,
                                         stores: seq<Store>, fault: Fault)
    requires FailsAt(n, es, k, input, env, vs, stores, fault)
    ensures EvalBlock(n, es, last, input, env, stores[0]) == Fail(fault)
    ensures EvalArgs(n, es, wrap, input, env, stores[0]) == Fail(fault)
    decreases k
  {
    if k > 0 {
      InTurnRest(n, es[..k], input, env, vs, stores);
      assert es[..k][1..] == es[1..][..k - 1] && es[..k][0] == es[0];
      SequencesFail(n - 1, es[1..], k - 1, vs[0], wrap, input, env, vs[1..], stores[1..], fault);
    }
  }

  lemma BlocksFail(n: nat, es: seq<Expr>, k: nat, input: Value, env: nat, st: Store, vs: seq<Value>, stores: seq<Store>, fault: Fault)
    requires n > 0 && FailsAt(n - 1, es, k, input, |st|, vs, stores, fault) && stores[0] == st + [Frame(Some(env), map[])]
    ensures Eval(n, Block(es), input, env, st) == Fail(fault)
  {
    hide EvalBlock;
    SequencesFail(n - 1, es, k, Undefined, true, input, |st|, vs, stores, fault);
  }

  lemma CallsFail(n: nat, p: Expr, es: seq<Expr>, k: nat, input: Value, env: nat, st: Store, f: Value, vs: seq<Value>,
                  stores: seq<Store>, fault: Fault)
    requires n > 0 && FailsAt(n - 1, es, k, input, env, vs, stores, fault) && Eval(n - 1, p, input, env, st) == Ok(f, stores[0])
    ensures Eval(n, Call(p, es), input, env, st) == Fail(fault)
  {
    hide EvalArgs;
    SequencesFail(n - 1, es, k, Undefined, true, input, env, vs, stores, fault);
  }
}
