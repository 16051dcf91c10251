/** Function calls in the Go evaluator: the depth counter, the trampoline and its iteration limit. */
module GoCalls {
  import opened Options

  // Functions of this language recurse without restriction, yet every evaluation ends.  The evaluator
  // below carries no fuel: what decreases is the source's own budget, first `max - depth`, then the
  // size of the node, then the iterations the trampoline has left.

  datatype Const = Null | Bool(b: bool) | Number(n: int) | Text(s: string)

  datatype Node =
    | Literal(c: Const)
    | Variable(name: string)
    | LambdaNode(params: seq<string>, body: Node)
    | Call(procedure: Node, arguments: seq<Node>, thunk: bool)
    | Condition(cond: Node, thenNode: Node, elseNode: Option<Node>)
    | Block(expressions: seq<Node>)
    | Bind(name: string, right: Node)

  /** `TailCall` is the sentinel that a marked call returns instead of calling. */
  datatype Value =
    | Undefined
    | Constant(c: Const)
    | Lambda(params: seq<string>, body: Node, closure: nat, focus: Value)
    | TailCall(fn: Value, args: seq<Value>)

  datatype Frame = Frame(parent: Option<nat>, bindings: map<string, Value>)

  type Store = seq<Frame>

  datatype Code = T1006 | U1001

  datatype Result = Ok(value: Value) | Err(code: Code)

  /** A result, the frames afterwards, and how many nodes were evaluated on the way. */
  datatype Outcome = Outcome(result: Result, store: Store, evals: nat)

  datatype Many = Values(values: seq<Value>) | Fault(code: Code)

  datatype ManyOutcome = ManyOutcome(result: Many, store: Store, evals: nat)

  // ---------------------------------------------------------------------------
  // Sizes
  // ---------------------------------------------------------------------------

  function Size(n: Node): nat
    decreases n, 1
  {
    1 + match n
        case Literal(_) => 0
        case Variable(_) => 0
        case LambdaNode(_, body) => Size(body)
        case Call(p, args, _) => Size(p) + SizeAll(args)
        case Condition(c, t, e) => Size(c) + Size(t) + (if e.Some? then Size(e.value) else 0)
        case Block(es) => SizeAll(es)
        case Bind(_, r) => Size(r)
  }

  function SizeAll(ns: seq<Node>): nat
    decreases ns, 0
  {
    if ns == [] then 0 else Size(ns[0]) + SizeAll(ns[1..])
  }

  // ---------------------------------------------------------------------------
  // Environments
  // ---------------------------------------------------------------------------

  function Lookup(st: Store, env: nat, name: string): Value
    decreases env
  {
    if env >= |st| then Undefined
    else if name in st[env].bindings then st[env].bindings[name]
    else if st[env].parent.Some? && st[env].parent.value < env then Lookup(st, st[env].parent.value, name)
    else Undefined
  }

  function BindIn(st: Store, env: nat, name: string, v: Value): Store {
    if env >= |st| then st
    else st[env := Frame(st[env].parent, st[env].bindings[name := v])]
  }

  function BindParams(params: seq<string>, args: seq<Value>): map<string, Value> {
    if params == [] then map[]
    else
      var last := |params| - 1;
      BindParams(params[..last], args)[params[last] := if last < |args| then args[last] else Undefined]
  }

  function ToBoolean(v: Value): bool {
    match v
    case Constant(Bool(b)) => b
    case Constant(Number(n)) => n != 0
    case Constant(Text(s)) => s != ""
    case _ => false
  }

  function MaxIterations(max: nat): nat {
    max * 10000
  }

  // ---------------------------------------------------------------------------
  // The evaluator, as a function
  // ---------------------------------------------------------------------------

  function Eval(max: nat, depth: nat, node: Node, focus: Value, env: nat, st: Store): Outcome
    requires depth <= max
    decreases max - depth, Size(node), 0
  {
    match node
    case Literal(c) => Outcome(Ok(Constant(c)), st, 1)
    case Variable(x) => Outcome(Ok(if x == "" then focus else Lookup(st, env, x)), st, 1)
    case LambdaNode(ps, body) => Outcome(Ok(Lambda(ps, body, env, focus)), st, 1)
    case Bind(x, r) =>
      var o := Eval(max, depth, r, focus, env, st);
      if o.result.Ok? then Outcome(o.result, BindIn(o.store, env, x, o.result.value), o.evals + 1)
      else Outcome(o.result, o.store, o.evals + 1)
    case Condition(c, t, e) =>
      var o := Eval(max, depth, c, focus, env, st);
      if o.result.Err? then Outcome(o.result, o.store, o.evals + 1)
      else if ToBoolean(o.result.value) then
        var p := Eval(max, depth, t, focus, env, o.store);
        Outcome(p.result, p.store, o.evals + p.evals + 1)
      else if e.Some? then
        var p := Eval(max, depth, e.value, focus, env, o.store);
        Outcome(p.result, p.store, o.evals + p.evals + 1)
      else Outcome(Ok(Undefined), o.store, o.evals + 1)
    case Block(es) =>
      var o := EvalBlock(max, depth, es, Undefined, focus, |st|, st + [Frame(Some(env), map[])]);
      Outcome(o.result, o.store, o.evals + 1)
    case Call(p, args, thunk) =>
      var o := Eval(max, depth, p, focus, env, st);
      if o.result.Err? then Outcome(o.result, o.store, o.evals + 1)
      else
        var a := EvalArgs(max, depth, args, focus, env, o.store);
        if a.result.Fault? then Outcome(Err(a.result.code), a.store, o.evals + a.evals + 1)
        else if thunk && o.result.value.Lambda? then
          Outcome(Ok(TailCall(o.result.value, a.result.values)), a.store, o.evals + a.evals + 1)
        else
          var c := CallFunction(max, depth, 0, o.result.value, a.result.values, focus, a.store);
          Outcome(c.result, c.store, o.evals + a.evals + c.evals + 1)
  }

  function EvalBlock(max: nat, depth: nat, es: seq<Node>, last: Value, focus: Value, env: nat, st: Store): Outcome
    requires depth <= max
    decreases max - depth, SizeAll(es), 1
  {
    if es == [] then Outcome(Ok(last), st, 0)
    else
      var o := Eval(max, depth, es[0], focus, env, st);
      if o.result.Err? then o
      else
        var p := EvalBlock(max, depth, es[1..], o.result.value, focus, env, o.store);
        Outcome(p.result, p.store, o.evals + p.evals)
  }

  function EvalArgs(max: nat, depth: nat, es: seq<Node>, focus: Value, env: nat, st: Store): ManyOutcome
    requires depth <= max
    decreases max - depth, SizeAll(es), 1
  {
    if es == [] then ManyOutcome(Values([]), st, 0)
    else
      var o := Eval(max, depth, es[0], focus, env, st);
      if o.result.Err? then ManyOutcome(Fault(o.result.code), o.store, o.evals)
      else
        var p := EvalArgs(max, depth, es[1..], focus, env, o.store);
        ManyOutcome(if p.result.Values? then Values([o.result.value] + p.result.values) else p.result,
                    p.store, o.evals + p.evals)
  }

  /** The trampoline from its `iter`-th round on. */
  function CallFunction(max: nat, depth: nat, iter: nat, fn: Value, args: seq<Value>, focus: Value, st: Store): Outcome
    requires depth <= max && iter <= MaxIterations(max)
    decreases max - depth, 0, MaxIterations(max) - iter
  {
    if !fn.Lambda? then Outcome(Err(T1006), st, 0)
    else if depth + 1 > max then Outcome(Err(U1001), st, 0)
    else
      var bodyFocus := if fn.params == [] && args == [] then fn.focus else focus;
      var o := Eval(max, depth + 1, fn.body, bodyFocus, |st|, st + [Frame(Some(fn.closure), BindParams(fn.params, args))]);
      if !(o.result.Ok? && o.result.value.TailCall?) then o
      else if iter + 1 > MaxIterations(max) then Outcome(Err(U1001), o.store, o.evals)
      else
        var p := CallFunction(max, depth, iter + 1, o.result.value.fn, o.result.value.args, focus, o.store);
        Outcome(p.result, p.store, o.evals + p.evals)
  }

  // ---------------------------------------------------------------------------
  // The evaluator, as it runs: a shared counter, mutable scopes, loops
  // ---------------------------------------------------------------------------

  class Machine {
    const max: nat
    var depth: nat
    var frames: Store
    ghost var evals: nat

    constructor (max: nat)
      ensures this.max == max && depth == 0 && frames == [] && evals == 0
    {
      this.max, depth, frames, evals := max, 0, [], 0;
    }

    /** The machine is where the outcome says, and the depth counter is back where it was. */
    twostate predicate Reached(o: Outcome, r: Result)
      reads this
    {
      r == o.result && frames == o.store && evals == old(evals) + o.evals && depth == old(depth)
    }

    method Evaluate(node: Node, focus: Value, env: nat) returns (r: Result)
      requires depth <= max
      modifies this
      ensures Reached(Eval(max, old(depth), node, focus, env, old(frames)), r)
      decreases max - depth, Size(node), 0
    {
      evals := evals + 1;
      match node
      case Literal(c) => r := Ok(Constant(c));
      case Variable(x) => r := Ok(if x == "" then focus else Lookup(frames, env, x));
      case LambdaNode(ps, body) => r := Ok(Lambda(ps, body, env, focus));
      case Bind(x, right) =>
        r := Evaluate(right, focus, env);
        if r.Ok? {
          frames := BindIn(frames, env, x, r.value);
        }
      case Condition(c, t, e) =>
        r := Evaluate(c, focus, env);
        if r.Ok? {
          if ToBoolean(r.value) {
            r := Evaluate(t, focus, env);
          } else if e.Some? {
            r := Evaluate(e.value, focus, env);
          } else {
            r := Ok(Undefined);
          }
        }
      case Block(es) => r := EvaluateBlock(es, focus, env);
      case Call(_, _, _) => r := EvaluateCall(node, focus, env);
    }

    method EvaluateCall(node: Node, focus: Value, env: nat) returns (r: Result)
      requires depth <= max && node.Call?
      modifies this
      ensures var o := Eval(max, old(depth), node, focus, env, old(frames));
              Reached(o.(evals := o.evals - 1), r)
      decreases max - depth, Size(node) - 1, 3
    {
      r := Evaluate(node.procedure, focus, env);
      if r.Err? {
        return;
      }
      var fn := r.value;
      var args := EvaluateArgs(node.arguments, focus, env);
      if args.Fault? {
        return Err(args.code);
      }
      if node.thunk && fn.Lambda? {
        return Ok(TailCall(fn, args.values));
      }
      r := Invoke(fn, args.values, focus);
    }

    method EvaluateBlock(es: seq<Node>, focus: Value, env: nat) returns (r: Result)
      requires depth <= max
      modifies this
      ensures Reached(EvalBlock(max, old(depth), es, Undefined, focus, |old(frames)|, old(frames) + [Frame(Some(env), map[])]), r)
      decreases max - depth, SizeAll(es), 2
    {
      var child := |frames|;
      frames := frames + [Frame(Some(env), map[])];
      ghost var start := frames;
      var last := Undefined;
      var k := 0;
      while k < |es|
        invariant 0 <= k <= |es| && depth == old(depth) && SizeAll(es[k..]) <= SizeAll(es)
        invariant var all := EvalBlock(max, depth, es, Undefined, focus, child, start);
                  var rest := EvalBlock(max, depth, es[k..], last, focus, child, frames);
                  && all.result == rest.result && all.store == rest.store
                  && all.evals == evals - old(evals) + rest.evals
      {
        assert es[k..][1..] == es[k + 1..];
        r := Evaluate(es[k], focus, child);
        if r.Err? {
          return;
        }
        last := r.value;
        k := k + 1;
      }
      r := Ok(last);
    }

    method EvaluateArgs(es: seq<Node>, focus: Value, env: nat) returns (r: Many)
      requires depth <= max
      modifies this
      ensures var o := EvalArgs(max, old(depth), es, focus, env, old(frames));
              r == o.result && frames == o.store && evals == old(evals) + o.evals && depth == old(depth)
      decreases max - depth, SizeAll(es), 2
    {
      hide Eval, Size;
      var vs := [];
      var k := 0;
      while k < |es|
        invariant 0 <= k <= |es| && depth == old(depth) && SizeAll(es[k..]) <= SizeAll(es)
        invariant var all := EvalArgs(max, depth, es, focus, env, old(frames));
                  var rest := EvalArgs(max, depth, es[k..], focus, env, frames);
                  && all.store == rest.store && all.evals == evals - old(evals) + rest.evals
                  && all.result == if rest.result.Values? then Values(vs + rest.result.values) else rest.result
      {
        assert es[k..][1..] == es[k + 1..];
        var v := Evaluate(es[k], focus, env);
        if v.Err? {
          return Fault(v.code);
        }
        vs := vs + [v.value];
        k := k + 1;
      }
      r := Values(vs);
    }

    /** `callFunction`: nesting is counted, and tail calls loop instead of nesting. */
    method Invoke(f: Value, arguments: seq<Value>, focus: Value) returns (r: Result)
      requires depth <= max
      modifies this
      ensures Reached(CallFunction(max, old(depth), 0, f, arguments, focus, old(frames)), r)
      decreases max - depth, 0, MaxIterations(max) + 1
    {
      hide Eval, BindParams, MaxIterations;
      var fn, args := f, arguments;
      var iter := 0;
      while true
        invariant iter <= MaxIterations(max) && depth == old(depth)
        invariant var all := CallFunction(max, depth, 0, f, arguments, focus, old(frames));
                  var rest := CallFunction(max, depth, iter, fn, args, focus, frames);
                  && all.result == rest.result && all.store == rest.store
                  && all.evals == evals - old(evals) + rest.evals
        decreases MaxIterations(max) - iter
      {
        if !fn.Lambda? {
          return Err(T1006);
        }
        depth := depth + 1;
        if depth > max {
          depth := depth - 1;
          return Err(U1001);
        }
        var child := |frames|;
        frames := frames + [Frame(Some(fn.closure), BindParams(fn.params, args))];
        var bodyFocus := focus;
        if fn.params == [] && args == [] {
          bodyFocus := fn.focus;
        }
        r := Evaluate(fn.body, bodyFocus, child);
        depth := depth - 1;
        if !(r.Ok? && r.value.TailCall?) {
          return;
        }
        if iter + 1 > MaxIterations(max) {
          return Err(U1001);
        }
        iter := iter + 1;
        fn, args := r.value.fn, r.value.args;
      }
    }
  }

  // ---------------------------------------------------------------------------
  // How much work an evaluation can be
  // ---------------------------------------------------------------------------

  /** Every function the value carries has a body of at most `b` nodes. */
  predicate Within(v: Value, b: nat) {
    match v
    case Lambda(_, body, _, focus) => Size(body) <= b && Within(focus, b)
    case TailCall(fn, args) => Within(fn, b) && forall i :: 0 <= i < |args| ==> Within(args[i], b)
    case _ => true
  }

  predicate WithinStore(st: Store, b: nat) {
    forall i :: 0 <= i < |st| ==> WithinFrame(st[i], b)
  }

  predicate WithinFrame(f: Frame, b: nat) {
    forall x :: x in f.bindings ==> Within(f.bindings[x], b)
  }

  predicate WithinAll(vs: seq<Value>, b: nat) {
    forall i :: 0 <= i < |vs| ==> Within(vs[i], b)
  }

  /** What one call may cost with `d` levels of nesting left. */
  function CallCost(max: nat, d: nat, b: nat): nat
    decreases d, 0
  {
    if d == 0 then 0 else (MaxIterations(max) + 1) * BodyCost(max, d - 1, b)
  }

  function BodyCost(max: nat, d: nat, b: nat): nat
    decreases d, 1
  {
    b * (1 + CallCost(max, d, b))
  }

  lemma {:induction false} WithinLookup(st: Store, env: nat, x: string, b: nat)
    requires WithinStore(st, b)
    ensures Within(Lookup(st, env, x), b)
    decreases env
  {
    if env < |st| {
      assert WithinFrame(st[env], b);
      if x !in st[env].bindings && st[env].parent.Some? && st[env].parent.value < env {
        WithinLookup(st, st[env].parent.value, x, b);
      }
    }
  }

  lemma WithinBind(st: Store, env: nat, x: string, v: Value, b: nat)
    requires WithinStore(st, b) && Within(v, b)
    ensures WithinStore(BindIn(st, env, x, v), b)
  {
    if env < |st| {
      assert WithinFrame(st[env], b);
    }
  }

  lemma WithinPush(st: Store, f: Frame, b: nat)
    requires WithinStore(st, b) && WithinFrame(f, b)
    ensures WithinStore(st + [f], b)
  {
  }

  lemma {:induction false} WithinParams(ps: seq<string>, vs: seq<Value>, b: nat)
    requires WithinAll(vs, b)
    ensures forall parent :: WithinFrame(Frame(parent, BindParams(ps, vs)), b)
  {
    if ps != [] {
      WithinParams(ps[..|ps| - 1], vs, b);
      var none: Option<nat> := None;
      assert WithinFrame(Frame(none, BindParams(ps[..|ps| - 1], vs)), b);
    }
  }

  lemma SplitProduct(a: nat, c: nat, k: nat)
    ensures (a + c) * k == a * k + c * k
  {
  }

  lemma MoreProduct(a: nat, c: nat, k: nat)
    requires a <= c
    ensures a * k <= c * k
  {
  }

  lemma {:induction false} CostOfEval(max: nat, depth: nat, node: Node, focus: Value, env: nat, st: Store, b: nat)
    requires depth <= max && Size(node) <= b && Within(focus, b) && WithinStore(st, b)
    ensures var o := Eval(max, depth, node, focus, env, st);
            && o.evals <= Size(node) * (1 + CallCost(max, max - depth, b))
            && WithinStore(o.store, b) && (o.result.Ok? ==> Within(o.result.value, b))
    decreases max - depth, Size(node), 0
  {
    var k := 1 + CallCost(max, max - depth, b);
    match node {
      case Literal(_) =>
      case Variable(x) => WithinLookup(st, env, x, b);
      case LambdaNode(_, _) => MoreProduct(1, Size(node), k);
      case Bind(x, r) =>
        CostOfEval(max, depth, r, focus, env, st, b);
        var o := Eval(max, depth, r, focus, env, st);
        SplitProduct(1, Size(r), k);
        if o.result.Ok? {
          WithinBind(o.store, env, x, o.result.value, b);
        }
      case Condition(_, _, _) => CostOfCondition(max, depth, node, focus, env, st, b);
      case Block(es) =>
        CostOfBlock(max, depth, es, Undefined, focus, |st|, st + [Frame(Some(env), map[])], b);
        SplitProduct(1, SizeAll(es), k);
      case Call(_, _, _) => CostOfCall(max, depth, node, focus, env, st, b);
    }
  }

  lemma NothingWithin(b: nat)
    ensures Within(Undefined, b)
  {
  }

  lemma {:induction false} CostOfCondition(max: nat, depth: nat, node: Node, focus: Value, env: nat, st: Store, b: nat)
    requires node.Condition?
    requires depth <= max && Size(node) <= b && Within(focus, b) && WithinStore(st, b)
    ensures var o := Eval(max, depth, node, focus, env, st);
            && o.evals <= Size(node) * (1 + CallCost(max, max - depth, b))
            && WithinStore(o.store, b) && (o.result.Ok? ==> Within(o.result.value, b))
    decreases max - depth, Size(node) - 1, 3
  {
    hide CallCost, WithinStore, Within;
    var k := 1 + CallCost(max, max - depth, b);
    var Condition(c, t, e) := node;
    CostOfEval(max, depth, c, focus, env, st, b);
    var o := Eval(max, depth, c, focus, env, st);
    if o.result.Ok? && (ToBoolean(o.result.value) || e.Some?) {
      var branch := if ToBoolean(o.result.value) then t else e.value;
      CostOfEval(max, depth, branch, focus, env, o.store, b);
      BranchWork(Size(c), Size(branch), Size(node), k, o.evals, Eval(max, depth, branch, focus, env, o.store).evals);
    } else {
      NothingWithin(b);
      BranchWork(Size(c), 0, Size(node), k, o.evals, 0);
    }
  }

  lemma BranchWork(c: nat, branch: nat, all: nat, k: nat, ofCondition: nat, ofBranch: nat)
    requires ofCondition <= c * k && ofBranch <= branch * k && 1 + c + branch <= all && k > 0
    ensures ofCondition + ofBranch + 1 <= all * k
  {
    SplitProduct(c, branch, k);
    SplitProduct(1, c + branch, k);
    MoreProduct(1 + c + branch, all, k);
  }

  lemma {:induction false} CostOfCall(max: nat, depth: nat, node: Node, focus: Value, env: nat, st: Store, b: nat)
    requires node.Call?
    requires depth <= max && Size(node) <= b && Within(focus, b) && WithinStore(st, b)
    ensures var o := Eval(max, depth, node, focus, env, st);
            && o.evals <= Size(node) * (1 + CallCost(max, max - depth, b))
            && WithinStore(o.store, b) && (o.result.Ok? ==> Within(o.result.value, b))
    decreases max - depth, Size(node) - 1, 3
  {
    hide Eval, CallCost, LoopCost, WithinStore;
    LoopCostStart(max, max - depth, b);
    var k := 1 + CallCost(max, max - depth, b);
    var Call(p, args, thunk) := node;
    CallRun(max, depth, p, args, thunk, focus, env, st);
    CostOfEval(max, depth, p, focus, env, st, b);
    var o := Eval(max, depth, p, focus, env, st);
    if o.result.Ok? {
      CostOfArgs(max, depth, args, focus, env, o.store, b);
      var a := EvalArgs(max, depth, args, focus, env, o.store);
      if a.result.Values? {
        CostOfInvoke(max, depth, 0, o.result.value, a.result.values, focus, a.store, b);
        var c := CallFunction(max, depth, 0, o.result.value, a.result.values, focus, a.store);
        CallWork(Size(p), SizeAll(args), k, o.evals, a.evals, c.evals);
      }
      CallWork(Size(p), SizeAll(args), k, o.evals, a.evals, 0);
    } else {
      CallWork(Size(p), SizeAll(args), k, o.evals, 0, 0);
    }
  }

  /** The run of a call: its procedure, its arguments, and then either the sentinel or the call proper. */
  lemma CallRun(max: nat, depth: nat, p: Node, args: seq<Node>, thunk: bool, focus: Value, env: nat, st: Store)
    requires depth <= max
    ensures var run := Eval(max, depth, Call(p, args, thunk), focus, env, st);
            var o := Eval(max, depth, p, focus, env, st);
            if o.result.Err? then run == Outcome(o.result, o.store, o.evals + 1)
            else
              var a := EvalArgs(max, depth, args, focus, env, o.store);
              if a.result.Fault? then run == Outcome(Err(a.result.code), a.store, o.evals + a.evals + 1)
              else if thunk && o.result.value.Lambda? then
                run == Outcome(Ok(TailCall(o.result.value, a.result.values)), a.store, o.evals + a.evals + 1)
              else
                var c := CallFunction(max, depth, 0, o.result.value, a.result.values, focus, a.store);
                run == Outcome(c.result, c.store, o.evals + a.evals + c.evals + 1)
  {
    hide EvalArgs, EvalBlock, CallFunction, BindIn, Lookup, ToBoolean, Size, SizeAll;
  }

  lemma CallWork(p: nat, args: nat, k: nat, ofProcedure: nat, ofArguments: nat, ofCall: nat)
    requires ofProcedure <= p * k && (ofArguments == 0 || ofArguments <= args * k) && ofCall < k
    ensures ofProcedure + ofArguments + ofCall + 1 <= (1 + p + args) * k
  {
    SplitProduct(p, args, k);
    SplitProduct(1, p + args, k);
    MoreProduct(p, p + args, k);
  }

  lemma {:induction false} CostOfBlock(max: nat, depth: nat, es: seq<Node>, last: Value, focus: Value, env: nat, st: Store, b: nat)
    requires depth <= max && SizeAll(es) <= b && Within(focus, b) && Within(last, b) && WithinStore(st, b)
    ensures var o := EvalBlock(max, depth, es, last, focus, env, st);
            && o.evals <= SizeAll(es) * (1 + CallCost(max, max - depth, b))
            && WithinStore(o.store, b) && (o.result.Ok? ==> Within(o.result.value, b))
    decreases max - depth, SizeAll(es), 1
  {
    if es != [] {
      var k := 1 + CallCost(max, max - depth, b);
      CostOfEval(max, depth, es[0], focus, env, st, b);
      var o := Eval(max, depth, es[0], focus, env, st);
      SplitProduct(Size(es[0]), SizeAll(es[1..]), k);
      if o.result.Ok? {
        CostOfBlock(max, depth, es[1..], o.result.value, focus, env, o.store, b);
      }
    }
  }

  lemma {:induction false} CostOfArgs(max: nat, depth: nat, es: seq<Node>, focus: Value, env: nat, st: Store, b: nat)
    requires depth <= max && SizeAll(es) <= b && Within(focus, b) && WithinStore(st, b)
    ensures var o := EvalArgs(max, depth, es, focus, env, st);
            && o.evals <= SizeAll(es) * (1 + CallCost(max, max - depth, b))
            && WithinStore(o.store, b) && (o.result.Values? ==> WithinAll(o.result.values, b))
    decreases max - depth, SizeAll(es), 1
  {
    if es != [] {
      var k := 1 + CallCost(max, max - depth, b);
      CostOfEval(max, depth, es[0], focus, env, st, b);
      var o := Eval(max, depth, es[0], focus, env, st);
      SplitProduct(Size(es[0]), SizeAll(es[1..]), k);
      if o.result.Ok? {
        CostOfArgs(max, depth, es[1..], focus, env, o.store, b);
      }
    }
  }

  /** What the trampoline may cost from its `iter`-th round on. */
  function LoopCost(max: nat, d: nat, iter: nat, b: nat): nat
    requires iter <= MaxIterations(max)
  {
    if d == 0 then 0 else (MaxIterations(max) - iter + 1) * BodyCost(max, d - 1, b)
  }

  lemma LoopCostStart(max: nat, d: nat, b: nat)
    ensures LoopCost(max, d, 0, b) == CallCost(max, d, b)
  {
  }

  lemma LoopCostNext(max: nat, d: nat, iter: nat, b: nat)
    requires d > 0 && iter <= MaxIterations(max)
    ensures LoopCost(max, d, iter, b) >= BodyCost(max, d - 1, b)
    ensures iter < MaxIterations(max) ==> LoopCost(max, d, iter, b) == BodyCost(max, d - 1, b) + LoopCost(max, d, iter + 1, b)
  {
    SplitProduct(1, MaxIterations(max) - iter, BodyCost(max, d - 1, b));
  }

  lemma {:induction false} CostOfInvoke(max: nat, depth: nat, iter: nat, fn: Value, args: seq<Value>, focus: Value, st: Store, b: nat)
    requires depth <= max && iter <= MaxIterations(max)
    requires Within(fn, b) && WithinAll(args, b) && Within(focus, b) && WithinStore(st, b)
    ensures var o := CallFunction(max, depth, iter, fn, args, focus, st);
            && o.evals <= LoopCost(max, max - depth, iter, b)
            && WithinStore(o.store, b) && (o.result.Ok? ==> Within(o.result.value, b))
    decreases max - depth, 0, MaxIterations(max) - iter
  {
    if fn.Lambda? && depth < max {
      var o := Eval(max, depth + 1, fn.body, if fn.params == [] && args == [] then fn.focus else focus, |st|,
                    st + [Frame(Some(fn.closure), BindParams(fn.params, args))]);
      CostOfBody(max, depth, fn, args, focus, st, b);
      LoopCostNext(max, max - depth, iter, b);
      if o.result.Ok? && o.result.value.TailCall? && iter + 1 <= MaxIterations(max) {
        CostOfInvoke(max, depth, iter + 1, o.result.value.fn, o.result.value.args, focus, o.store, b);
      }
    }
  }

  lemma {:induction false} CostOfBody(max: nat, depth: nat, fn: Value, args: seq<Value>, focus: Value, st: Store, b: nat)
    requires fn.Lambda? && depth < max
    requires Within(fn, b) && WithinAll(args, b) && Within(focus, b) && WithinStore(st, b)
    ensures var o := Eval(max, depth + 1, fn.body, if fn.params == [] && args == [] then fn.focus else focus, |st|,
                          st + [Frame(Some(fn.closure), BindParams(fn.params, args))]);
            && o.evals <= BodyCost(max, max - depth - 1, b)
            && WithinStore(o.store, b) && (o.result.Ok? ==> Within(o.result.value, b))
    decreases max - depth - 1, Size(fn.body), 1
  {
    hide Eval, CallCost, WithinStore, WithinFrame;
    var bodyFocus := if fn.params == [] && args == [] then fn.focus else focus;
    WithinParams(fn.params, args, b);
    var inner := st + [Frame(Some(fn.closure), BindParams(fn.params, args))];
    WithinPush(st, Frame(Some(fn.closure), BindParams(fn.params, args)), b);
    CostOfEval(max, depth + 1, fn.body, bodyFocus, |st|, inner, b);
    MoreProduct(Size(fn.body), b, 1 + CallCost(max, max - depth - 1, b));
  }

  /** Any program, however it recurses, is done after a number of steps its size and the limit fix. */
  lemma ProgramsAreBounded(max: nat, program: Node)
    ensures Eval(max, 0, program, Undefined, 0, [Frame(None, map[])]).evals
              <= Size(program) * (1 + CallCost(max, max, Size(program)))
  {
    CostOfEval(max, 0, program, Undefined, 0, [Frame(None, map[])], Size(program));
  }

  /** `callFunction` never hands the sentinel to its caller, and no body starts beyond the limit. */
  lemma {:induction false} InvokeResults(max: nat, depth: nat, iter: nat, fn: Value, args: seq<Value>, focus: Value, st: Store)
    requires depth <= max && iter <= MaxIterations(max)
    ensures var o := CallFunction(max, depth, iter, fn, args, focus, st);
            && (o.result.Ok? ==> !o.result.value.TailCall?)
            && (depth == max ==> o == Outcome(Err(if fn.Lambda? then U1001 else T1006), st, 0))
    decreases MaxIterations(max) - iter
  {
    if fn.Lambda? && depth < max {
      var bodyFocus := if fn.params == [] && args == [] then fn.focus else focus;
      var o := Eval(max, depth + 1, fn.body, bodyFocus, |st|, st + [Frame(Some(fn.closure), BindParams(fn.params, args))]);
      if o.result.Ok? && o.result.value.TailCall? && iter + 1 <= MaxIterations(max) {
        InvokeResults(max, depth, iter + 1, o.result.value.fn, o.result.value.args, focus, o.store);
      }
    }
  }

  // ---------------------------------------------------------------------------
  // Marking tail calls, and where the marks may go
  // ---------------------------------------------------------------------------

  function MarkTailPosition(n: Node): Node {
    match n
    case Call(p, args, _) => Call(p, args, true)
    case Condition(c, t, e) =>
      Condition(c, MarkTailPosition(t), if e.Some? then Some(MarkTailPosition(e.value)) else None)
    case Block(es) => if es == [] then n else Block(es[..|es| - 1] + [MarkTailPosition(es[|es| - 1])])
    case Bind(x, r) => Bind(x, MarkTailPosition(r))
    case _ => n
  }

  /** A call in tail position, also through bindings. */
  predicate HasTailCall(n: Node) {
    match n
    case Call(_, _, _) => true
    case Condition(_, t, e) => HasTailCall(t) || (e.Some? && HasTailCall(e.value))
    case Block(es) => es != [] && HasTailCall(es[|es| - 1])
    case Bind(_, r) => HasTailCall(r)
    case _ => false
  }

  /** A binding in tail position whose right-hand side ends in a call. */
  predicate BindsTailCall(n: Node) {
    match n
    case Condition(_, t, e) => BindsTailCall(t) || (e.Some? && BindsTailCall(e.value))
    case Block(es) => es != [] && BindsTailCall(es[|es| - 1])
    case Bind(_, r) => HasTailCall(r)
    case _ => false
  }

  /** Marks stand only where their sentinel goes straight back to the trampoline. */
  predicate Clean(n: Node, tail: bool)
    decreases n, 1
  {
    match n
    case Literal(_) => true
    case Variable(_) => true
    case LambdaNode(_, body) => Clean(body, true)
    case Call(p, args, thunk) => (thunk ==> tail) && Clean(p, false) && CleanAll(args, false)
    case Condition(c, t, e) => Clean(c, false) && Clean(t, tail) && (e.Some? ==> Clean(e.value, tail))
    case Block(es) => CleanAll(es, tail)
    case Bind(_, r) => Clean(r, false)
  }

  /** Only the last node may carry marks in tail position. */
  predicate CleanAll(ns: seq<Node>, tail: bool)
    decreases ns, 0
  {
    ns == [] || (Clean(ns[0], tail && |ns| == 1) && CleanAll(ns[1..], tail))
  }

  lemma {:induction false} CleanLast(ns: seq<Node>, last: Node, tail: bool)
    requires ns != [] && CleanAll(ns, false)
    ensures CleanAll(ns[..|ns| - 1] + [last], tail) <==> Clean(last, tail)
    ensures Clean(ns[|ns| - 1], false)
  {
    var marked := ns[..|ns| - 1] + [last];
    if |ns| > 1 {
      CleanLast(ns[1..], last, tail);
      assert marked[1..] == ns[1..][..|ns| - 2] + [last];
    } else {
      assert marked == [last] && marked[1..] == [];
    }
  }

  lemma {:induction false} UnmarkedTail(n: Node)
    requires Clean(n, false) && !HasTailCall(n)
    ensures MarkTailPosition(n) == n
  {
    match n {
      case Condition(_, t, e) =>
        UnmarkedTail(t);
        if e.Some? {
          UnmarkedTail(e.value);
        }
      case Block(es) =>
        if es != [] {
          CleanLast(es, es[|es| - 1], false);
          UnmarkedTail(es[|es| - 1]);
          assert es[..|es| - 1] + [es[|es| - 1]] == es;
        }
      case Bind(_, r) => UnmarkedTail(r);
      case _ =>
    }
  }

  lemma {:induction false} MarkedTail(n: Node)
    requires Clean(n, false) && HasTailCall(n)
    ensures !Clean(MarkTailPosition(n), false)
  {
    match n {
      case Condition(_, t, e) =>
        if HasTailCall(t) {
          MarkedTail(t);
        } else {
          MarkedTail(e.value);
        }
      case Block(es) =>
        CleanLast(es, MarkTailPosition(es[|es| - 1]), false);
        MarkedTail(es[|es| - 1]);
      case Bind(_, r) => MarkedTail(r);
      case _ =>
    }
  }

  /**
   Marking a lambda body leaves every mark where the trampoline will see it, unless the body ends
   in a binding of a call; then one mark lands under the binding.
   */
  lemma {:induction false} MarkingIsCleanUnlessABindingEndsInACall(body: Node)
    requires Clean(body, false)
    ensures Clean(MarkTailPosition(body), true) <==> !BindsTailCall(body)
  {
    match body {
      case Condition(_, t, e) =>
        MarkingIsCleanUnlessABindingEndsInACall(t);
        if e.Some? {
          MarkingIsCleanUnlessABindingEndsInACall(e.value);
        }
      case Block(es) =>
        if es != [] {
          CleanLast(es, MarkTailPosition(es[|es| - 1]), true);
          MarkingIsCleanUnlessABindingEndsInACall(es[|es| - 1]);
        }
      case Bind(_, r) =>
        if HasTailCall(r) {
          MarkedTail(r);
        } else {
          UnmarkedTail(r);
        }
      case _ =>
    }
  }

  // ---------------------------------------------------------------------------
  // The whole walk: every lambda body is marked, innermost first
  // ---------------------------------------------------------------------------

  function MarkAll(n: Node): Node
    decreases n, 1
  {
    match n
    case Literal(_) => n
    case Variable(_) => n
    case LambdaNode(ps, body) => LambdaNode(ps, MarkTailPosition(MarkAll(body)))
    case Call(p, args, thunk) => Call(MarkAll(p), MarkAllIn(args), thunk)
    case Condition(c, t, e) => Condition(MarkAll(c), MarkAll(t), if e.Some? then Some(MarkAll(e.value)) else None)
    case Block(es) => Block(MarkAllIn(es))
    case Bind(x, r) => Bind(x, MarkAll(r))
  }

  function MarkAllIn(ns: seq<Node>): (r: seq<Node>)
    ensures |r| == |ns|
    decreases ns, 0
  {
    if ns == [] then [] else [MarkAll(ns[0])] + MarkAllIn(ns[1..])
  }

  /** What the parser hands to the walk: no call is marked. */
  predicate Unmarked(n: Node)
    decreases n, 1
  {
    match n
    case Literal(_) => true
    case Variable(_) => true
    case LambdaNode(_, body) => Unmarked(body)
    case Call(p, args, thunk) => !thunk && Unmarked(p) && UnmarkedAll(args)
    case Condition(c, t, e) => Unmarked(c) && Unmarked(t) && (e.Some? ==> Unmarked(e.value))
    case Block(es) => UnmarkedAll(es)
    case Bind(_, r) => Unmarked(r)
  }

  predicate UnmarkedAll(ns: seq<Node>)
    decreases ns, 0
  {
    ns == [] || (Unmarked(ns[0]) && UnmarkedAll(ns[1..]))
  }

  /** No lambda body ends in a binding of a call. */
  predicate Tame(n: Node)
    decreases n, 1
  {
    match n
    case Literal(_) => true
    case Variable(_) => true
    case LambdaNode(_, body) => !BindsTailCall(body) && Tame(body)
    case Call(p, args, _) => Tame(p) && TameAll(args)
    case Condition(c, t, e) => Tame(c) && Tame(t) && (e.Some? ==> Tame(e.value))
    case Block(es) => TameAll(es)
    case Bind(_, r) => Tame(r)
  }

  predicate TameAll(ns: seq<Node>)
    decreases ns, 0
  {
    ns == [] || (Tame(ns[0]) && TameAll(ns[1..]))
  }

  lemma {:induction false} MarkAllLast(ns: seq<Node>)
    requires ns != []
    ensures MarkAllIn(ns)[|ns| - 1] == MarkAll(ns[|ns| - 1])
  {
    if |ns| > 1 {
      MarkAllLast(ns[1..]);
    }
  }

  /** Marking inner lambdas does not change how a body ends. */
  lemma {:induction false} MarkAllKeepsEnding(n: Node)
    ensures HasTailCall(MarkAll(n)) == HasTailCall(n) && BindsTailCall(MarkAll(n)) == BindsTailCall(n)
  {
    match n {
      case Condition(_, t, e) =>
        MarkAllKeepsEnding(t);
        if e.Some? {
          MarkAllKeepsEnding(e.value);
        }
      case Block(es) =>
        if es != [] {
          MarkAllLast(es);
          MarkAllKeepsEnding(es[|es| - 1]);
        }
      case Bind(_, r) => MarkAllKeepsEnding(r);
      case _ =>
    }
  }

  lemma {:induction false} CleanParts(front: seq<Node>, last: Node, tail: bool)
    ensures CleanAll(front + [last], tail) <==> CleanAll(front, false) && Clean(last, tail)
  {
    if front == [] {
      assert front + [last] == [last] && [last][1..] == [];
    } else {
      assert (front + [last])[1..] == front[1..] + [last];
      CleanParts(front[1..], last, tail);
    }
  }

  /** No marks but inside lambda bodies. */
  predicate Bare(n: Node) {
    match n
    case Call(_, _, thunk) => !thunk
    case Condition(_, t, e) => Bare(t) && (e.Some? ==> Bare(e.value))
    case Block(es) => es != [] ==> Bare(es[|es| - 1])
    case _ => true
  }

  lemma {:induction false} MarkAllIsBare(n: Node)
    requires Unmarked(n)
    ensures Bare(MarkAll(n))
  {
    match n {
      case Condition(_, t, e) =>
        MarkAllIsBare(t);
        if e.Some? {
          MarkAllIsBare(e.value);
        }
      case Block(es) =>
        if es != [] {
          MarkAllLast(es);
          UnmarkedLast(es);
          MarkAllIsBare(es[|es| - 1]);
        }
      case _ =>
    }
  }

  lemma {:induction false} UnmarkedLast(ns: seq<Node>)
    requires ns != [] && UnmarkedAll(ns)
    ensures Unmarked(ns[|ns| - 1])
  {
    if |ns| > 1 {
      UnmarkedLast(ns[1..]);
    }
  }

  /** A body that is clean once marked was clean before. */
  lemma {:induction false} CleanBeforeMarking(n: Node, tail: bool)
    requires Bare(n) && Clean(MarkTailPosition(n), tail)
    ensures Clean(n, false)
  {
    match n {
      case Condition(_, t, e) =>
        CleanBeforeMarking(t, tail);
        if e.Some? {
          CleanBeforeMarking(e.value, tail);
        }
      case Block(es) =>
        if es != [] {
          var front, last := es[..|es| - 1], es[|es| - 1];
          CleanParts(front, MarkTailPosition(last), tail);
          CleanBeforeMarking(last, tail);
          CleanParts(front, last, false);
          assert es == front + [last];
        }
      case Bind(_, r) => CleanAnywhere(r);
      case _ =>
    }
  }

  /** Below a binding marking leaves a clean node alone or spoils it. */
  lemma {:induction false} CleanAnywhere(n: Node)
    requires Clean(MarkTailPosition(n), false)
    ensures Clean(n, false)
  {
    match n {
      case Condition(_, t, e) =>
        CleanAnywhere(t);
        if e.Some? {
          CleanAnywhere(e.value);
        }
      case Block(es) =>
        if es != [] {
          var front, last := es[..|es| - 1], es[|es| - 1];
          CleanParts(front, MarkTailPosition(last), false);
          CleanAnywhere(last);
          CleanParts(front, last, false);
          assert es == front + [last];
        }
      case Bind(_, r) => CleanAnywhere(r);
      case _ =>
    }
  }

  /** The walk puts all marks where the trampoline sees them, exactly when no lambda body ends in a binding of a call. */
  lemma {:induction false} WalkIsCleanExactlyIfTame(n: Node)
    requires Unmarked(n)
    ensures Clean(MarkAll(n), false) <==> Tame(n)
    decreases n, 1
  {
    match n {
      case Literal(_) =>
      case Variable(_) =>
      case LambdaNode(_, body) =>
        WalkIsCleanExactlyIfTame(body);
        MarkAllKeepsEnding(body);
        MarkAllIsBare(body);
        if Clean(MarkAll(body), false) {
          MarkingIsCleanUnlessABindingEndsInACall(MarkAll(body));
        } else if Clean(MarkTailPosition(MarkAll(body)), true) {
          CleanBeforeMarking(MarkAll(body), true);
        }
      case Call(p, args, _) =>
        WalkIsCleanExactlyIfTame(p);
        WalkIsCleanInAll(args);
      case Condition(c, t, e) =>
        WalkIsCleanExactlyIfTame(c);
        WalkIsCleanExactlyIfTame(t);
        if e.Some? {
          WalkIsCleanExactlyIfTame(e.value);
        }
      case Block(es) => WalkIsCleanInAll(es);
      case Bind(_, r) => WalkIsCleanExactlyIfTame(r);
    }
  }

  lemma {:induction false} WalkIsCleanInAll(ns: seq<Node>)
    requires UnmarkedAll(ns)
    ensures CleanAll(MarkAllIn(ns), false) <==> TameAll(ns)
    decreases ns, 0
  {
    if ns != [] {
      WalkIsCleanExactlyIfTame(ns[0]);
      WalkIsCleanInAll(ns[1..]);
    }
  }

  // ---------------------------------------------------------------------------
  // With clean marks the sentinel stays inside the trampoline
  // ---------------------------------------------------------------------------

  predicate CleanValue(v: Value) {
    match v
    case Lambda(_, body, _, focus) => Clean(body, true) && CleanValue(focus)
    case TailCall(_, _) => false
    case _ => true
  }

  predicate CleanValues(vs: seq<Value>) {
    forall i :: 0 <= i < |vs| ==> CleanValue(vs[i])
  }

  /** In tail position a result may also be the sentinel for a call of clean values. */
  predicate CleanResult(v: Value, tail: bool) {
    CleanValue(v) || (tail && v.TailCall? && CleanValue(v.fn) && CleanValues(v.args))
  }

  predicate CleanFrame(f: Frame) {
    forall x :: x in f.bindings ==> CleanValue(f.bindings[x])
  }

  predicate CleanStore(st: Store) {
    forall i :: 0 <= i < |st| ==> CleanFrame(st[i])
  }

  predicate CleanOutcome(o: Outcome, tail: bool) {
    CleanStore(o.store) && (o.result.Ok? ==> CleanResult(o.result.value, tail))
  }

  lemma {:induction false} CleanLookup(st: Store, env: nat, x: string)
    requires CleanStore(st)
    ensures CleanValue(Lookup(st, env, x))
    decreases env
  {
    if env < |st| {
      assert CleanFrame(st[env]);
      if x !in st[env].bindings && st[env].parent.Some? && st[env].parent.value < env {
        CleanLookup(st, st[env].parent.value, x);
      }
    }
  }

  lemma CleanBind(st: Store, env: nat, x: string, v: Value)
    requires CleanStore(st) && CleanValue(v)
    ensures CleanStore(BindIn(st, env, x, v))
  {
    if env < |st| {
      assert CleanFrame(st[env]);
    }
  }

  lemma {:induction false} CleanParams(ps: seq<string>, vs: seq<Value>)
    requires CleanValues(vs)
    ensures forall parent :: CleanFrame(Frame(parent, BindParams(ps, vs)))
  {
    if ps != [] {
      CleanParams(ps[..|ps| - 1], vs);
      var none: Option<nat> := None;
      assert CleanFrame(Frame(none, BindParams(ps[..|ps| - 1], vs)));
    }
  }

  /** No frame ever holds the sentinel, and only a node in tail position may return it. */
  lemma {:induction false} SentinelStaysInside(max: nat, depth: nat, node: Node, tail: bool, focus: Value, env: nat, st: Store)
    requires depth <= max && Clean(node, tail) && CleanValue(focus) && CleanStore(st)
    ensures CleanOutcome(Eval(max, depth, node, focus, env, st), tail)
    decreases max - depth, Size(node), 0
  {
    match node {
      case Literal(_) =>
      case Variable(x) => CleanLookup(st, env, x);
      case LambdaNode(_, _) =>
      case Bind(x, r) =>
        SentinelStaysInside(max, depth, r, false, focus, env, st);
        var o := Eval(max, depth, r, focus, env, st);
        if o.result.Ok? {
          CleanBind(o.store, env, x, o.result.value);
        }
      case Condition(c, t, e) =>
        SentinelStaysInside(max, depth, c, false, focus, env, st);
        var o := Eval(max, depth, c, focus, env, st);
        if o.result.Ok? && (ToBoolean(o.result.value) || e.Some?) {
          SentinelStaysInside(max, depth, if ToBoolean(o.result.value) then t else e.value, tail, focus, env, o.store);
        }
      case Block(es) =>
        var inner := st + [Frame(Some(env), map[])];
        assert CleanStore(inner);
        SentinelStaysInsideBlock(max, depth, es, tail, Undefined, focus, |st|, inner);
      case Call(p, args, _) =>
        SentinelStaysInside(max, depth, p, false, focus, env, st);
        var o := Eval(max, depth, p, focus, env, st);
        if o.result.Ok? {
          SentinelStaysInsideArgs(max, depth, args, focus, env, o.store);
          var a := EvalArgs(max, depth, args, focus, env, o.store);
          if a.result.Values? {
            SentinelStaysInsideInvoke(max, depth, 0, o.result.value, a.result.values, focus, a.store);
          }
        }
    }
  }

  lemma {:induction false} SentinelStaysInsideBlock(max: nat, depth: nat, es: seq<Node>, tail: bool, last: Value,
                                                    focus: Value, env: nat, st: Store)
    requires depth <= max && CleanAll(es, tail) && CleanValue(focus) && CleanResult(last, tail && es == []) && CleanStore(st)
    ensures CleanOutcome(EvalBlock(max, depth, es, last, focus, env, st), tail)
    decreases max - depth, SizeAll(es), 1
  {
    if es != [] {
      SentinelStaysInside(max, depth, es[0], tail && |es| == 1, focus, env, st);
      var o := Eval(max, depth, es[0], focus, env, st);
      if o.result.Ok? {
        SentinelStaysInsideBlock(max, depth, es[1..], tail, o.result.value, focus, env, o.store);
      }
    }
  }

  lemma {:induction false} SentinelStaysInsideArgs(max: nat, depth: nat, es: seq<Node>, focus: Value, env: nat, st: Store)
    requires depth <= max && CleanAll(es, false) && CleanValue(focus) && CleanStore(st)
    ensures var o := EvalArgs(max, depth, es, focus, env, st);
            CleanStore(o.store) && (o.result.Values? ==> CleanValues(o.result.values))
    decreases max - depth, SizeAll(es), 1
  {
    if es != [] {
      SentinelStaysInside(max, depth, es[0], false, focus, env, st);
      var o := Eval(max, depth, es[0], focus, env, st);
      if o.result.Ok? {
        SentinelStaysInsideArgs(max, depth, es[1..], focus, env, o.store);
      }
    }
  }

  lemma {:induction false} SentinelStaysInsideInvoke(max: nat, depth: nat, iter: nat, fn: Value, args: seq<Value>,
                                                     focus: Value, st: Store)
    requires depth <= max && iter <= MaxIterations(max)
    requires CleanValue(fn) && CleanValues(args) && CleanValue(focus) && CleanStore(st)
    ensures CleanOutcome(CallFunction(max, depth, iter, fn, args, focus, st), false)
    decreases max - depth, 0, MaxIterations(max) - iter
  {
    if fn.Lambda? && depth < max {
      var bodyFocus := if fn.params == [] && args == [] then fn.focus else focus;
      CleanParams(fn.params, args);
      var inner := st + [Frame(Some(fn.closure), BindParams(fn.params, args))];
      assert CleanStore(inner);
      SentinelStaysInside(max, depth + 1, fn.body, true, bodyFocus, |st|, inner);
      var o := Eval(max, depth + 1, fn.body, bodyFocus, |st|, inner);
      if o.result.Ok? && o.result.value.TailCall? && iter + 1 <= MaxIterations(max) {
        SentinelStaysInsideInvoke(max, depth, iter + 1, o.result.value.fn, o.result.value.args, focus, o.store);
      }
    }
  }

  /** No run of a program the parser marked lets the sentinel out, if no lambda body ends in a binding of a call. */
  lemma MarkedProgramsContainTheSentinel(max: nat, program: Node)
    requires Unmarked(program) && Tame(program)
    ensures CleanOutcome(Eval(max, 0, MarkAll(program), Undefined, 0, [Frame(None, map[])]), false)
  {
    WalkIsCleanExactlyIfTame(program);
    SentinelStaysInside(max, 0, MarkAll(program), false, Undefined, 0, [Frame(None, map[])]);
  }

  // ---------------------------------------------------------------------------
  // Without: a program that ends, but in the wrong way
  // ---------------------------------------------------------------------------

  /** function($h) { $h() }, with its call marked or not. */
  function CallIt(marked: bool): Node {
    LambdaNode(["h"], Call(Variable("h"), [], marked))
  }

  /** function() { ($g := function() { $x }; $x := $f($g)) } */
  function BindResult(marked: bool): Node {
    LambdaNode([], Block([Bind("g", LambdaNode([], Variable("x"))),
                          Bind("x", Call(Variable("f"), [Variable("g")], marked))]))
  }

  function Leaky(marked: bool): Node {
    Block([Bind("f", CallIt(marked)), Call(BindResult(marked), [], false)])
  }

  function F(marked: bool): Value {
    Lambda(["h"], CallIt(marked).body, 1, Undefined)
  }

  const G: Value := Lambda([], Variable("x"), 3, Undefined)

  /** Once `$x` is bound to the sentinel, `$f` and `$g` hand the call to each other until the limit. */
  lemma {:induction false} Ping(max: nat, iter: nat, st: Store)
    requires max >= 1 && iter <= MaxIterations(max)
    requires |st| > 3 && "x" in st[3].bindings && st[3].bindings["x"] == TailCall(F(true), [G])
    ensures CallFunction(max, 0, iter, F(true), [G], Undefined, st).result == Err(U1001)
    decreases MaxIterations(max) - iter
  {
    var f := F(true);
    var frame := Frame(Some(1), BindParams(["h"], [G]));
    assert BindParams(["h"], [G]) == map["h" := G] by {
      assert ["h"][..0] == [];
    }
    var st1 := st + [frame];
    assert Eval(max, 1, Variable("h"), Undefined, |st|, st1).result == Ok(G);
    assert Eval(max, 1, f.body, Undefined, |st|, st1) == Outcome(Ok(TailCall(G, [])), st1, 2);
    if iter + 1 <= MaxIterations(max) {
      var st2 := st1 + [Frame(Some(3), map[])];
      assert BindParams([], []) == map[];
      assert Lookup(st2, 3, "x") == TailCall(f, [G]);
      assert Eval(max, 1, Variable("x"), Undefined, |st1|, st2).result == Ok(TailCall(f, [G]));
      if iter + 2 <= MaxIterations(max) {
        Ping(max, iter + 2, st2);
      }
    }
  }

  /** The store of `Leaky` when the body of its second lambda is about to bind `$x`. */
  function LeakyStore(marked: bool): Store {
    [Frame(None, map[]), Frame(Some(0), map["f" := F(marked)]), Frame(Some(1), map[]), Frame(Some(2), map["g" := G])]
  }

  lemma LeakyStart(max: nat, marked: bool, r: Outcome)
    requires max >= 1
    requires r == Eval(max, 1, BindResult(marked).body.expressions[1], Undefined, 3, LeakyStore(marked))
    ensures Eval(max, 1, BindResult(marked).body, Undefined, 2, LeakyStore(marked)[..3])
            == Outcome(r.result, r.store, r.evals + 3)
  {
    var st := LeakyStore(marked)[..3] + [Frame(Some(2), map[])];
    var es := BindResult(marked).body.expressions;
    assert Eval(max, 1, es[0], Undefined, 3, st) == Outcome(Ok(G), BindIn(st, 3, "g", G), 2);
    assert BindIn(st, 3, "g", G) == LeakyStore(marked);
    assert es[1..] == [es[1]] && es[1..][1..] == [];
    var v := if r.result.Ok? then r.result.value else Undefined;
    assert EvalBlock(max, 1, es[1..], G, Undefined, 3, LeakyStore(marked)).result == r.result;
  }

  lemma LeakyProgram(max: nat, marked: bool)
    requires max >= 1
    ensures var st := LeakyStore(marked)[..2];
            Eval(max, 0, Leaky(marked), Undefined, 0, [Frame(None, map[])]).result
              == CallFunction(max, 0, 0, Lambda([], BindResult(marked).body, 1, Undefined), [], Undefined, st).result
  {
    var st0: Store := [Frame(None, map[])];
    var st1 := st0 + [Frame(Some(0), map[])];
    var es := Leaky(marked).expressions;
    assert Eval(max, 0, es[0], Undefined, 1, st1) == Outcome(Ok(F(marked)), BindIn(st1, 1, "f", F(marked)), 2);
    var st2 := BindIn(st1, 1, "f", F(marked));
    assert st2 == LeakyStore(marked)[..2];
    var p := Lambda([], BindResult(marked).body, 1, Undefined);
    assert Eval(max, 0, BindResult(marked), Undefined, 1, st2) == Outcome(Ok(p), st2, 1);
    assert EvalArgs(max, 0, [], Undefined, 1, st2) == ManyOutcome(Values([]), st2, 0);
    var r := Eval(max, 0, es[1], Undefined, 1, st2);
    assert r.result == CallFunction(max, 0, 0, p, [], Undefined, st2).result;
    assert es[1..] == [es[1]] && es[1..][1..] == [];
    assert EvalBlock(max, 0, es[1..], F(marked), Undefined, 1, st2).result == r.result;
  }

  /**
   Marking below a binding changes what a program means: unmarked this one evaluates to undefined,
   marked it exhausts every limit, because the closure `$g` finds the sentinel where `$x` should be.
   */
  lemma MarkingBelowABindingLeaks(max: nat)
    requires max >= 3
    ensures Unmarked(Leaky(false)) && !Tame(Leaky(false)) && MarkAll(Leaky(false)) == Leaky(true)
    ensures Eval(max, 0, Leaky(false), Undefined, 0, [Frame(None, map[])]).result == Ok(Undefined)
    ensures Eval(max, 0, Leaky(true), Undefined, 0, [Frame(None, map[])]).result == Err(U1001)
  {
    LeakyProgram(max, false);
    LeakyProgram(max, true);
    LeakyUnmarked(max);
    LeakyMarked(max);
    LeakyIsMarked();
  }

  lemma WalkOfOne(a: Node)
    ensures MarkAllIn([a]) == [MarkAll(a)] && (UnmarkedAll([a]) <==> Unmarked(a)) && (TameAll([a]) <==> Tame(a))
  {
    assert [a][1..] == [];
  }

  lemma WalkOfTwo(a: Node, b: Node)
    ensures MarkAllIn([a, b]) == [MarkAll(a), MarkAll(b)]
    ensures (UnmarkedAll([a, b]) <==> Unmarked(a) && Unmarked(b)) && (TameAll([a, b]) <==> Tame(a) && Tame(b))
  {
    assert [a, b][1..] == [b];
    WalkOfOne(b);
  }

  lemma BindResultIsMarked()
    ensures var n := BindResult(false); Unmarked(n) && !Tame(n) && MarkAll(n) == BindResult(true)
  {
    var g, x := Bind("g", LambdaNode([], Variable("x"))), Bind("x", Call(Variable("f"), [Variable("g")], false));
    WalkOfOne(Variable("g"));
    WalkOfTwo(g, x);
    assert MarkAll(g) == g && MarkAll(x) == x;
    assert MarkAll(Block([g, x])) == Block([g, x]);
    assert [g, x][..1] == [g];
    assert MarkTailPosition(Block([g, x])) == Block([g, Bind("x", Call(Variable("f"), [Variable("g")], true))]);
  }

  lemma LeakyIsMarked()
    ensures Unmarked(Leaky(false)) && !Tame(Leaky(false)) && MarkAll(Leaky(false)) == Leaky(true)
  {
    BindResultIsMarked();
    hide BindResult, CallIt;
    var f, c := Bind("f", CallIt(false)), Call(BindResult(false), [], false);
    WalkOfBinding();
    assert MarkAllIn([]) == [] && UnmarkedAll([]);
    assert MarkAll(c) == Call(BindResult(true), [], false) && Unmarked(c) && !Tame(c);
    WalkOfTwo(f, c);
  }

  lemma WalkOfBinding()
    ensures var f := Bind("f", CallIt(false)); MarkAll(f) == Bind("f", CallIt(true)) && Unmarked(f)
  {
    assert MarkAllIn([]) == [] && UnmarkedAll([]);
  }

  /** What `$f($g)` calls, and with what. */
  lemma LeakyParts(max: nat, marked: bool)
    requires max >= 1
    ensures var st := LeakyStore(marked);
            && Eval(max, 1, Variable("f"), Undefined, 3, st) == Outcome(Ok(F(marked)), st, 1)
            && EvalArgs(max, 1, [Variable("g")], Undefined, 3, st) == ManyOutcome(Values([G]), st, 1)
  {
    var st := LeakyStore(marked);
    assert Lookup(st, 3, "f") == F(marked) && Lookup(st, 3, "g") == G by {
      assert Lookup(st, 1, "f") == F(marked);
      assert Lookup(st, 2, "f") == F(marked);
    }
    var args := [Variable("g")];
    assert args[1..] == [] && [G] + [] == [G];
    assert Eval(max, 1, args[0], Undefined, 3, st) == Outcome(Ok(G), st, 1);
    assert EvalArgs(max, 1, [], Undefined, 3, st) == ManyOutcome(Values([]), st, 0);
  }

  lemma LeakyMarked(max: nat)
    requires max >= 1
    ensures CallFunction(max, 0, 0, Lambda([], BindResult(true).body, 1, Undefined), [], Undefined, LeakyStore(true)[..2]).result
              == Err(U1001)
  {
    var st := LeakyStore(true);
    var call := Call(Variable("f"), [Variable("g")], true);
    LeakyParts(max, true);
    var sentinel := TailCall(F(true), [G]);
    assert Eval(max, 1, call, Undefined, 3, st) == Outcome(Ok(sentinel), st, 3);
    var bound := Eval(max, 1, Bind("x", call), Undefined, 3, st);
    assert bound == Outcome(Ok(sentinel), BindIn(st, 3, "x", sentinel), 4);
    LeakyStart(max, true, bound);
    assert BindParams([], []) == map[];
    assert st[..2] + [Frame(Some(1), map[])] == st[..3];
    Ping(max, 1, bound.store);
  }

  /** `$f($g)` two levels down, where `$x` is not yet bound. */
  lemma LeakyCall(max: nat)
    requires max >= 3
    ensures CallFunction(max, 1, 0, F(false), [G], Undefined, LeakyStore(false)).result == Ok(Undefined)
  {
    var st := LeakyStore(false);
    assert BindParams(["h"], [G]) == map["h" := G] by {
      assert ["h"][..0] == [];
    }
    var st1 := st + [Frame(Some(1), map["h" := G])];
    var st2 := st1 + [Frame(Some(3), map[])];
    assert BindParams([], []) == map[];
    assert Lookup(st2, 5, "x") == Undefined by {
      assert Lookup(st2, 0, "x") == Undefined;
      assert Lookup(st2, 1, "x") == Undefined;
      assert Lookup(st2, 2, "x") == Undefined;
      assert Lookup(st2, 3, "x") == Undefined;
    }
    assert Eval(max, 3, Variable("x"), Undefined, 5, st2) == Outcome(Ok(Undefined), st2, 1);
    assert CallFunction(max, 2, 0, G, [], Undefined, st1) == Outcome(Ok(Undefined), st2, 1);
    assert Eval(max, 2, Variable("h"), Undefined, 4, st1).result == Ok(G);
    assert EvalArgs(max, 2, [], Undefined, 4, st1) == ManyOutcome(Values([]), st1, 0);
    assert Eval(max, 2, F(false).body, Undefined, 4, st1).result == Ok(Undefined);
    assert CallFunction(max, 1, 0, F(false), [G], Undefined, st).result == Ok(Undefined);
  }

  lemma LeakyUnmarked(max: nat)
    requires max >= 3
    ensures CallFunction(max, 0, 0, Lambda([], BindResult(false).body, 1, Undefined), [], Undefined, LeakyStore(false)[..2]).result
              == Ok(Undefined)
  {
    var st := LeakyStore(false);
    var call := Call(Variable("f"), [Variable("g")], false);
    LeakyParts(max, false);
    LeakyCall(max);
    assert Eval(max, 1, call, Undefined, 3, st).result == Ok(Undefined);
    var bound := Eval(max, 1, Bind("x", call), Undefined, 3, st);
    assert bound.result == Ok(Undefined);
    LeakyStart(max, false, bound);
    assert st[..2] + [Frame(Some(1), map[])] == st[..3];
  }
}
