/** What the constructs of the Go evaluator mean, one by one. */
module GoLaws {
  import opened Options
  import opened Parameters
  import opened GoCalls

  // Termination, cost and the containment of the sentinel hold whatever a condition chooses or a
  // parameter is bound to.  These laws say what they do, in terms of values and stores alone.

  // ---------------------------------------------------------------------------
  // Literals, lambdas and variables
  // ---------------------------------------------------------------------------

  lemma AtomsAreImmediate(max: nat, depth: nat, c: Const, ps: seq<string>, body: Node, focus: Value, env: nat, st: Store)
    requires depth <= max
    ensures Eval(max, depth, Literal(c), focus, env, st) == Outcome(Ok(Constant(c)), st, 1)
    ensures Eval(max, depth, Variable(""), focus, env, st) == Outcome(Ok(focus), st, 1)
    ensures Eval(max, depth, LambdaNode(ps, body), focus, env, st) == Outcome(Ok(Lambda(ps, body, env, focus)), st, 1)
  {
  }

  /** The frames from `env` outwards, each the parent of the one before, none but the last binding `x`. */
  ghost predicate Outward(st: Store, env: nat, x: string, path: seq<nat>) {
    && path != [] && path[0] == env
    && (forall i :: 0 <= i < |path| ==> path[i] < |st|)
    && (forall i :: 0 <= i < |path| - 1 ==>
          x !in st[path[i]].bindings && st[path[i]].parent == Some(path[i + 1]) && path[i + 1] < path[i])
  }

  /** A variable has the value of the innermost binding around it, and none without one. */
  lemma {:induction false} VariablesAreLexical(max: nat, depth: nat, x: string, focus: Value, env: nat, st: Store, path: seq<nat>)
    requires depth <= max && x != "" && Outward(st, env, x, path)
    ensures var frame := st[path[|path| - 1]];
            && (x in frame.bindings ==>
                  Eval(max, depth, Variable(x), focus, env, st) == Outcome(Ok(frame.bindings[x]), st, 1))
            && (x !in frame.bindings && frame.parent.None? ==>
                  Eval(max, depth, Variable(x), focus, env, st) == Outcome(Ok(Undefined), st, 1))
    decreases |path|
  {
    if |path| > 1 {
      var rest := path[1..];
      assert forall i :: 0 <= i < |rest| ==> rest[i] == path[i + 1];
      VariablesAreLexical(max, depth, x, focus, path[1], st, rest);
    }
  }

  /** A binding yields its value, is seen in its frame afterwards, and changes nothing else; an error passes through. */
  lemma BindingsAreLocal(max: nat, depth: nat, x: string, right: Node, focus: Value, env: nat, st: Store)
    requires depth <= max && env < |Eval(max, depth, right, focus, env, st).store|
    ensures var o := Eval(max, depth, right, focus, env, st);
            var r := Eval(max, depth, Bind(x, right), focus, env, st);
            && r.result == o.result && r.evals == o.evals + 1
            && (o.result.Err? ==> r.store == o.store)
            && (o.result.Ok? ==>
                  && |r.store| == |o.store| && r.store[env].parent == o.store[env].parent
                  && (forall i :: 0 <= i < |o.store| && i != env ==> r.store[i] == o.store[i])
                  && (forall y :: y != x ==> (y in r.store[env].bindings <==> y in o.store[env].bindings))
                  && (forall y :: y != x && y in o.store[env].bindings ==>
                        r.store[env].bindings[y] == o.store[env].bindings[y])
                  && x in r.store[env].bindings && r.store[env].bindings[x] == o.result.value)
  {
  }

  // ---------------------------------------------------------------------------
  // Conditions
  // ---------------------------------------------------------------------------

  /** True, numbers but zero and texts but the empty one choose the first branch; all else the second, or nothing. */
  lemma ConditionsChoose(max: nat, depth: nat, c: Node, t: Node, e: Option<Node>, focus: Value, env: nat, st: Store, v: Value)
    requires depth <= max && Eval(max, depth, c, focus, env, st).result == Ok(v)
    ensures var o := Eval(max, depth, c, focus, env, st);
            var r := Eval(max, depth, Condition(c, t, e), focus, env, st);
            var first := Eval(max, depth, t, focus, env, o.store);
            v == Constant(Bool(true)) || (exists i :: i != 0 && v == Constant(Number(i)))
            || (exists s :: s != "" && v == Constant(Text(s))) ==>
              r == Outcome(first.result, first.store, o.evals + first.evals + 1)
    ensures var o := Eval(max, depth, c, focus, env, st);
            var r := Eval(max, depth, Condition(c, t, e), focus, env, st);
            v in {Undefined, Constant(Null), Constant(Bool(false)), Constant(Number(0)), Constant(Text(""))}
            || v.Lambda? || v.TailCall? ==>
              if e.None? then r == Outcome(Ok(Undefined), o.store, o.evals + 1)
              else
                var second := Eval(max, depth, e.value, focus, env, o.store);
                r == Outcome(second.result, second.store, o.evals + second.evals + 1)
  {
  }

  lemma ConditionsFail(max: nat, depth: nat, c: Node, t: Node, e: Option<Node>, focus: Value, env: nat, st: Store)
    requires depth <= max && Eval(max, depth, c, focus, env, st).result.Err?
    ensures var o := Eval(max, depth, c, focus, env, st);
            Eval(max, depth, Condition(c, t, e), focus, env, st) == Outcome(o.result, o.store, o.evals + 1)
  {
  }

  // ---------------------------------------------------------------------------
  // Blocks and arguments: one after the other
  // ---------------------------------------------------------------------------

  predicate Delivers(o: Outcome, v: Value, st: Store) {
    o.result == Ok(v) && o.store == st
  }

  /** The nodes evaluate one after the other, each in the store the one before left. */
  ghost predicate InTurn(max: nat, depth: nat, es: seq<Node>, focus: Value, env: nat, vs: seq<Value>, stores: seq<Store>) {
    && depth <= max && |vs| == |es| && |stores| == |es| + 1
    && forall i :: 0 <= i < |es| ==>
         Delivers(Eval(max, depth, es[i], focus, env, stores[i]), vs[i], stores[i + 1])
  }

  lemma InTurnRest(max: nat, depth: nat, es: seq<Node>, focus: Value, env: nat, vs: seq<Value>, stores: seq<Store>)
    requires InTurn(max, depth, es, focus, env, vs, stores) && es != []
    ensures InTurn(max, depth, es[1..], focus, env, vs[1..], stores[1..])
    ensures Delivers(Eval(max, depth, es[0], focus, env, stores[0]), vs[0], stores[1])
  {
    hide Eval, Delivers;
    forall i | 0 <= i < |es| - 1
      ensures Delivers(Eval(max, depth, es[1..][i], focus, env, stores[1..][i]), vs[1..][i], stores[1..][i + 1])
    {
      var j := i + 1;
      assert Delivers(Eval(max, depth, es[j], focus, env, stores[j]), vs[j], stores[j + 1]);
      assert es[1..][i] == es[j] && stores[1..][i] == stores[j] && stores[1..][i + 1] == stores[j + 1];
    }
  }

  lemma {:induction false} SequencesRun(max: nat, depth: nat, es: seq<Node>, last: Value, focus: Value, env: nat, vs: seq<Value>, stores: seq<Store>)
    requires InTurn(max, depth, es, focus, env, vs, stores)
    ensures var o := EvalBlock(max, depth, es, last, focus, env, stores[0]);
            o.result == Ok(if es == [] then last else vs[|es| - 1]) && o.store == stores[|es|]
    decreases |es|
  {
    hide Eval;
    if es != [] {
      InTurnRest(max, depth, es, focus, env, vs, stores);
      SequencesRun(max, depth, es[1..], vs[0], focus, env, vs[1..], stores[1..]);
    }
  }

  /** A block runs in a new frame inside the present one and has the value of its last expression. */
  lemma BlocksRun(max: nat, depth: nat, es: seq<Node>, focus: Value, env: nat, st: Store, vs: seq<Value>, stores: seq<Store>)
    requires InTurn(max, depth, es, focus, |st|, vs, stores) && stores[0] == st + [Frame(Some(env), map[])]
    ensures var o := Eval(max, depth, Block(es), focus, env, st);
            o.result == Ok(if es == [] then Undefined else vs[|es| - 1]) && o.store == stores[|es|]
  {
    hide EvalBlock;
    SequencesRun(max, depth, es, Undefined, focus, |st|, vs, stores);
  }

  /** Arguments are evaluated from left to right. */
  lemma {:induction false} ArgumentsRun(max: nat, depth: nat, es: seq<Node>, focus: Value, env: nat, vs: seq<Value>, stores: seq<Store>)
    requires InTurn(max, depth, es, focus, env, vs, stores)
    ensures var a := EvalArgs(max, depth, es, focus, env, stores[0]);
            a.result == Values(vs) && a.store == stores[|es|]
    decreases |es|
  {
    hide Eval;
    if es != [] {
      InTurnRest(max, depth, es, focus, env, vs, stores);
      ArgumentsRun(max, depth, es[1..], focus, env, vs[1..], stores[1..]);
      assert vs == [vs[0]] + vs[1..];
    }
  }

  /** The nodes before the k-th evaluate, and the k-th fails. */
  ghost predicate FailsAt(max: nat, depth: nat, es: seq<Node>, k: nat, focus: Value, env: nat, vs: seq<Value>, stores: seq<Store>, code: Code) {
    && k < |es| && InTurn(max, depth, es[..k], focus, env, vs, stores)
    && Eval(max, depth, es[k], focus, env, stores[k]).result == Err(code)
  }

  lemma {:induction false} SequencesFail(max: nat, depth: nat, es: seq<Node>, k: nat, last: Value, focus: Value, env: nat, vs: seq<Value>,
                                         stores: seq<Store>, code: Code)
    requires FailsAt(max, depth, es, k, focus, env, vs, stores, code)
    ensures EvalBlock(max, depth, es, last, focus, env, stores[0]).result == Err(code)
    ensures EvalArgs(max, depth, es, focus, env, stores[0]).result == Fault(code)
    decreases k
  {
    hide Eval;
    if k > 0 {
      InTurnRest(max, depth, es[..k], focus, env, vs, stores);
      assert es[..k][1..] == es[1..][..k - 1] && es[..k][0] == es[0];
      SequencesFail(max, depth, es[1..], k - 1, vs[0], focus, env, vs[1..], stores[1..], code);
    }
  }

  lemma BlocksFail(max: nat, depth: nat, es: seq<Node>, k: nat, focus: Value, env: nat, st: Store, vs: seq<Value>, stores: seq<Store>, code: Code)
    requires FailsAt(max, depth, es, k, focus, |st|, vs, stores, code) && stores[0] == st + [Frame(Some(env), map[])]
    ensures Eval(max, depth, Block(es), focus, env, st).result == Err(code)
  {
    hide EvalBlock;
    SequencesFail(max, depth, es, k, Undefined, focus, |st|, vs, stores, code);
  }

  // ---------------------------------------------------------------------------
  // Calls
  // ---------------------------------------------------------------------------

  lemma {:induction false} ParametersBind(params: seq<string>, args: seq<Value>)
    ensures BindsByPosition(params, args, Undefined, BindParams(params, args))
  {
    if params != [] {
      var front, last := params[..|params| - 1], |params| - 1;
      ParametersBind(front, args);
      ParameterJoins(params, args, Undefined, BindParams(front, args));
    }
  }

  /**
   One round of the trampoline: the body runs a level deeper, in a new frame inside the frame the closure
   was made in, where each parameter has the argument of its position.  Its context is the caller's,
   or the one the closure was made in when there are neither parameters nor arguments.  A sentinel
   is called in the next round, up to ten thousand rounds for each level the limit allows.
   */
  lemma RoundsRunBodies(max: nat, depth: nat, iter: nat, f: Value, args: seq<Value>, focus: Value, st: Store, bindings: map<string, Value>)
    requires depth < max && iter <= max * 10000 && f.Lambda? && BindsByPosition(f.params, args, Undefined, bindings)
    ensures var context := if |f.params| + |args| == 0 then f.focus else focus;
            var o := Eval(max, depth + 1, f.body, context, |st|, st + [Frame(Some(f.closure), bindings)]);
            var r := CallFunction(max, depth, iter, f, args, focus, st);
            if o.result.Ok? && o.result.value.TailCall? then
              if iter == max * 10000 then r == Outcome(Err(U1001), o.store, o.evals)
              else
                var next := CallFunction(max, depth, iter + 1, o.result.value.fn, o.result.value.args, focus, o.store);
                r == Outcome(next.result, next.store, o.evals + next.evals)
            else r == o
  {
    hide Eval, BindParams;
    ParametersBind(f.params, args);
    BindingsAreDetermined(f.params, args, Undefined, bindings, BindParams(f.params, args));
  }

  /** At the depth limit no body runs, and what is no lambda is not called. */
  lemma CallsAreRefused(max: nat, depth: nat, iter: nat, f: Value, args: seq<Value>, focus: Value, st: Store)
    requires depth <= max && iter <= max * 10000
    ensures depth == max && f.Lambda? ==> CallFunction(max, depth, iter, f, args, focus, st) == Outcome(Err(U1001), st, 0)
    ensures f.Undefined? || f.Constant? || f.TailCall? ==>
              CallFunction(max, depth, iter, f, args, focus, st) == Outcome(Err(T1006), st, 0)
  {
  }

  /** A call evaluates its procedure and then its arguments; a marked call of a lambda hands both back. */
  lemma CallsApply(max: nat, depth: nat, p: Node, es: seq<Node>, thunk: bool, focus: Value, env: nat, st: Store, f: Value,
                   vs: seq<Value>, stores: seq<Store>)
    requires InTurn(max, depth, es, focus, env, vs, stores)
    requires Eval(max, depth, p, focus, env, st).result == Ok(f) && Eval(max, depth, p, focus, env, st).store == stores[0]
    ensures var r := Eval(max, depth, Call(p, es, thunk), focus, env, st);
            if thunk && f.Lambda? then r.result == Ok(TailCall(f, vs)) && r.store == stores[|es|]
            else
              var o := CallFunction(max, depth, 0, f, vs, focus, stores[|es|]);
              r.result == o.result && r.store == o.store && r.evals > o.evals
  {
    hide EvalArgs, CallFunction;
    ArgumentsRun(max, depth, es, focus, env, vs, stores);
  }

  lemma CallsFail(max: nat, depth: nat, p: Node, es: seq<Node>, thunk: bool, k: nat, focus: Value, env: nat, st: Store,
                  vs: seq<Value>, stores: seq<Store>, code: Code)
    requires depth <= max
    ensures Eval(max, depth, p, focus, env, st).result == Err(code) ==>
              Eval(max, depth, Call(p, es, thunk), focus, env, st).result == Err(code)
    ensures FailsAt(max, depth, es, k, focus, env, vs, stores, code) && Eval(max, depth, p, focus, env, st).result.Ok?
            && Eval(max, depth, p, focus, env, st).store == stores[0] ==>
              Eval(max, depth, Call(p, es, thunk), focus, env, st).result == Err(code)
  {
    hide EvalArgs, CallFunction;
    if FailsAt(max, depth, es, k, focus, env, vs, stores, code) {
      SequencesFail(max, depth, es, k, Undefined, focus, env, vs, stores, code);
    }
  }

  /** In particular a function that returns its i-th parameter returns the i-th argument. */
  lemma CallsPassArguments(max: nat, depth: nat, params: seq<string>, i: nat, es: seq<Node>, focus: Value, env: nat,
                           vs: seq<Value>, stores: seq<Store>)
    requires depth < max && InTurn(max, depth, es, focus, env, vs, stores)
    requires NamesLast(params, i) && params[i] != "" && (i < |vs| ==> !vs[i].TailCall?)
    ensures Eval(max, depth, Call(LambdaNode(params, Variable(params[i])), es, false), focus, env, stores[0]).result
            == Ok(if i < |es| then vs[i] else Undefined)
  {
    var body, st := Variable(params[i]), stores[|es|];
    var f, b := Lambda(params, body, env, focus), BindParams(params, vs);
    AtomsAreImmediate(max, depth, Null, params, body, focus, env, stores[0]);
    CallsApply(max, depth, LambdaNode(params, body), es, false, focus, env, stores[0], f, vs, stores);
    ParametersBind(params, vs);
    VariablesAreLexical(max, depth + 1, params[i], focus, |st|, st + [Frame(Some(env), b)], [|st|]);
    RoundsRunBodies(max, depth, 0, f, vs, focus, st, b);
  }

  // ---------------------------------------------------------------------------
  // How far calls may go
  // ---------------------------------------------------------------------------

  /** A function that calls a function, and so on, k deep; the calls marked or not. */
  function Tower(k: nat, c: Const, marked: bool): Node {
    if k == 0 then Literal(c) else Call(LambdaNode([], Tower(k - 1, c, marked)), [], marked)
  }

  /** Nested calls go as deep as the limit allows. */
  lemma {:induction false} CallsNest(max: nat, depth: nat, k: nat, c: Const, focus: Value, env: nat, st: Store)
    requires depth <= max
    ensures Eval(max, depth, Tower(k, c, false), focus, env, st).result == if depth + k <= max then Ok(Constant(c)) else Err(U1001)
    decreases k
  {
    hide Eval, CallFunction;
    if k > 0 {
      var body := Tower(k - 1, c, false);
      var f := Lambda([], body, env, focus);
      AtomsAreImmediate(max, depth, c, [], body, focus, env, st);
      CallsApply(max, depth, LambdaNode([], body), [], false, focus, env, st, f, [], [st]);
      if depth < max {
        RoundsRunBodies(max, depth, 0, f, [], focus, st, map[]);
        CallsNest(max, depth + 1, k - 1, c, focus, |st|, st + [Frame(Some(env), map[])]);
      } else {
        CallsAreRefused(max, depth, 0, f, [], focus, st);
      }
    } else {
      AtomsAreImmediate(max, depth, c, [], Literal(c), focus, env, st);
    }
  }

  /** Marked calls do not nest: however many, they need one level, up to ten thousand rounds for each level of the limit. */
  lemma {:induction false} TailCallsLoop(max: nat, depth: nat, iter: nat, k: nat, c: Const, focus: Value, env: nat, st: Store)
    requires depth < max && iter <= max * 10000
    ensures CallFunction(max, depth, iter, Lambda([], Tower(k, c, true), env, focus), [], focus, st).result
            == if iter + k <= max * 10000 then Ok(Constant(c)) else Err(U1001)
    decreases k
  {
    hide Eval, CallFunction;
    var body, inner := Tower(k, c, true), st + [Frame(Some(env), map[])];
    var f := Lambda([], body, env, focus);
    RoundsRunBodies(max, depth, iter, f, [], focus, st, map[]);
    if k == 0 {
      AtomsAreImmediate(max, depth + 1, c, [], body, focus, |st|, inner);
    } else {
      var next := Lambda([], Tower(k - 1, c, true), |st|, focus);
      AtomsAreImmediate(max, depth + 1, c, [], Tower(k - 1, c, true), focus, |st|, inner);
      CallsApply(max, depth + 1, LambdaNode([], Tower(k - 1, c, true)), [], true, focus, |st|, inner, next, [], [inner]);
      if iter < max * 10000 {
        TailCallsLoop(max, depth, iter + 1, k - 1, c, focus, |st|, inner);
      }
    }
  }

  // ---------------------------------------------------------------------------
  // How much is counted
  // ---------------------------------------------------------------------------

  /** No calls, no functions and no choices: each node is evaluated once. */
  predicate Straight(n: Node)
    decreases n, 1
  {
    match n
    case Literal(_) => true
    case Variable(_) => true
    case Block(es) => StraightAll(es)
    case Bind(_, r) => Straight(r)
    case _ => false
  }

  predicate StraightAll(ns: seq<Node>)
    decreases ns, 0
  {
    ns == [] || (Straight(ns[0]) && StraightAll(ns[1..]))
  }

  /** A straight program evaluates exactly as many nodes as it has, so sizes are counts of nodes. */
  lemma {:induction false} StraightProgramsCountNodes(max: nat, depth: nat, n: Node, focus: Value, env: nat, st: Store)
    requires depth <= max && Straight(n)
    ensures Eval(max, depth, n, focus, env, st).result.Ok? && Eval(max, depth, n, focus, env, st).evals == Size(n)
    decreases n, 1
  {
    match n {
      case Literal(_) =>
      case Variable(_) =>
      case Block(es) => StraightBlocksCountNodes(max, depth, es, Undefined, focus, |st|, st + [Frame(Some(env), map[])]);
      case Bind(_, r) => StraightProgramsCountNodes(max, depth, r, focus, env, st);
    }
  }

  lemma {:induction false} StraightBlocksCountNodes(max: nat, depth: nat, es: seq<Node>, last: Value, focus: Value, env: nat, st: Store)
    requires depth <= max && StraightAll(es)
    ensures EvalBlock(max, depth, es, last, focus, env, st).result.Ok?
    ensures EvalBlock(max, depth, es, last, focus, env, st).evals == SizeAll(es)
    decreases es, 0
  {
    if es != [] {
      StraightProgramsCountNodes(max, depth, es[0], focus, env, st);
      var o := Eval(max, depth, es[0], focus, env, st);
      StraightBlocksCountNodes(max, depth, es[1..], o.result.value, focus, env, o.store);
    }
  }

  /** With a level of nesting less a call costs nothing; with one more, ten thousand rounds and one for each level of the limit. */
  lemma CallCostGrows(max: nat, d: nat, b: nat)
    ensures CallCost(max, 0, b) == 0
    ensures CallCost(max, d + 1, b) == (10000 * max + 1) * (b * (1 + CallCost(max, d, b)))
    ensures CallCost(max, 1, b) == (10000 * max + 1) * b
  {
    assert BodyCost(max, 0, b) == b * 1 == b;
  }

  // ---------------------------------------------------------------------------
  // Marks
  // ---------------------------------------------------------------------------

  /** The nodes whose value is the node's value: branches, last expressions and what is bound last. */
  function Ends(n: Node): seq<Node> {
    match n
    case Condition(_, t, e) => Ends(t) + if e.Some? then Ends(e.value) else []
    case Block(es) => if es == [] then [n] else Ends(es[|es| - 1])
    case Bind(_, r) => Ends(r)
    case _ => [n]
  }

  /** Marking a body marks the calls among its ends, all of them, and leaves the other ends as they are. */
  lemma {:induction false} MarkingReachesEveryEnd(n: Node)
    ensures var before, after := Ends(n), Ends(MarkTailPosition(n));
            && |after| == |before|
            && forall i :: 0 <= i < |before| ==>
                 after[i] == if before[i].Call? then before[i].(thunk := true) else before[i]
  {
    match n {
      case Condition(_, t, e) =>
        MarkingReachesEveryEnd(t);
        if e.Some? {
          MarkingReachesEveryEnd(e.value);
        }
      case Block(es) =>
        if es != [] {
          MarkingReachesEveryEnd(es[|es| - 1]);
        }
      case Bind(_, r) => MarkingReachesEveryEnd(r);
      case _ =>
    }
  }

  /** Apart from marks the walk changes nothing. */
  function Erased(n: Node): Node
    decreases n, 1
  {
    match n
    case Literal(_) => n
    case Variable(_) => n
    case LambdaNode(ps, body) => LambdaNode(ps, Erased(body))
    case Call(p, args, _) => Call(Erased(p), ErasedAll(args), false)
    case Condition(c, t, e) => Condition(Erased(c), Erased(t), if e.Some? then Some(Erased(e.value)) else None)
    case Block(es) => Block(ErasedAll(es))
    case Bind(x, r) => Bind(x, Erased(r))
  }

  function ErasedAll(ns: seq<Node>): (r: seq<Node>)
    ensures |r| == |ns|
    decreases ns, 0
  {
    if ns == [] then [] else [Erased(ns[0])] + ErasedAll(ns[1..])
  }

  lemma {:induction false} ErasedAtEnd(ns: seq<Node>, last: Node)
    ensures ErasedAll(ns + [last]) == ErasedAll(ns) + [Erased(last)]
  {
    if ns == [] {
      assert [last][1..] == [] && [] + [last] == [last];
    } else {
      assert (ns + [last])[1..] == ns[1..] + [last];
      ErasedAtEnd(ns[1..], last);
    }
  }

  lemma {:induction false} MarkingOnlyMarks(n: Node)
    ensures Erased(MarkTailPosition(n)) == Erased(n)
  {
    match n {
      case Condition(_, t, e) =>
        MarkingOnlyMarks(t);
        if e.Some? {
          MarkingOnlyMarks(e.value);
        }
      case Block(es) =>
        if es != [] {
          var front, last := es[..|es| - 1], es[|es| - 1];
          MarkingOnlyMarks(last);
          assert es == front + [last];
          ErasedAtEnd(front, last);
          ErasedAtEnd(front, MarkTailPosition(last));
        }
      case Bind(_, r) => MarkingOnlyMarks(r);
      case _ =>
    }
  }

  lemma {:induction false} WalkOnlyMarks(n: Node)
    ensures Erased(MarkAll(n)) == Erased(n)
    decreases n, 1
  {
    match n {
      case Literal(_) =>
      case Variable(_) =>
      case LambdaNode(_, body) =>
        WalkOnlyMarks(body);
        MarkingOnlyMarks(MarkAll(body));
      case Call(p, args, _) =>
        WalkOnlyMarks(p);
        WalkOnlyMarksAll(args);
      case Condition(c, t, e) =>
        WalkOnlyMarks(c);
        WalkOnlyMarks(t);
        if e.Some? {
          WalkOnlyMarks(e.value);
        }
      case Block(es) => WalkOnlyMarksAll(es);
      case Bind(_, r) => WalkOnlyMarks(r);
    }
  }

  lemma {:induction false} WalkOnlyMarksAll(ns: seq<Node>)
    ensures ErasedAll(MarkAllIn(ns)) == ErasedAll(ns)
    decreases ns, 0
  {
    if ns != [] {
      WalkOnlyMarks(ns[0]);
      WalkOnlyMarksAll(ns[1..]);
    }
  }
}
