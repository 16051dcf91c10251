/** Calls and tail calls of the JavaScript evaluator. */
module TailCalls {
  import opened Options

  // The language is the core calculus: literals, variables, the context variable,
  // lambdas, calls, conditionals, blocks, variable binding and predicates.  Environments are
  // frames that `:=` updates, so a closure sees bindings made after it was built;
  // that is how a JSONata function comes to call itself.  Frames live in a store
  // and are named by their position in it.
  //
  // There is one interpreter.  The plain program and the program rewritten by
  // `tailCallOptimize` are two inputs to it, and the theorems relate the two runs.

  /** A number that no double equals is a `Carrier`, a frozen object of the host; `floor` is its floor. */
  datatype Literal = Null | Bool(b: bool) | Number(n: int) | Carrier(token: string, floor: int) | Text(s: string)

  /** A lambda with `thunk` set is what `tailCallOptimize` builds around a call. */
  datatype Expr =
    | Lit(lit: Literal)
    | Variable(name: string)
    | Lambda(params: seq<string>, body: Expr, thunk: bool)
    | Call(procedure: Expr, arguments: seq<Expr>)
    | Condition(condition: Expr, thenBranch: Expr, elseBranch: Option<Expr>)
    | Block(expressions: seq<Expr>)
    | Bind(lhs: string, rhs: Expr)
    | Filtered(operand: Expr, test: Expr)

  /** `Wrapper` is the host closure that a direct call builds around a function argument. */
  datatype Value =
    | Undefined
    | Const(lit: Literal)
    | Closure(input: Value, env: nat, params: seq<string>, body: Expr, thunk: bool)
    | Wrapper(inner: Value)

  datatype Frame = Frame(parent: Option<nat>, bindings: map<string, Value>)

  type Store = seq<Frame>

  /** T1006 is the evaluator's own error; HostTypeError is a strict-mode write to a primitive. */
  datatype Fault = T1006 | HostTypeError

  /** Timeout stands for "not finished within this much nesting", never for a result. */
  datatype Outcome<T> = Timeout | Fail(fault: Fault) | Ok(value: T, store: Store)

  predicate IsFunction(v: Value) {
    v.Closure? || v.Wrapper?
  }

  /** What the host takes for an object, yet refuses to write to. */
  predicate HostObject(v: Value) {
    v.Const? && (v.lit.Null? || v.lit.Carrier?)
  }

  function Truthy(v: Value): bool {
    match v
    case Const(Bool(b)) => b
    case Const(Number(n)) => n != 0
    case Const(Carrier(_, _)) => true
    case Const(Text(s)) => s != ""
    case _ => false
  }

  /** Whether a predicate with this outcome keeps a single item: numbers are indices, floored, negatives from the end. */
  predicate Keeps(v: Value) {
    match v
    case Const(Number(n)) => n == 0 || n == -1
    case Const(Carrier(_, floor)) => floor == 0 || floor == -1
    case _ => Truthy(v)
  }

  function Selected(k: Value, v: Value): Value {
    if Keeps(k) then v else Undefined
  }

  function Lookup(st: Store, env: nat, name: string): Value
    decreases env
  {
    if env >= |st| then Undefined
    else if name in st[env].bindings then st[env].bindings[name]
    else if st[env].parent.Some? && st[env].parent.value < env then Lookup(st, st[env].parent.value, name)
    else Undefined
  }

  function BindIn(st: Store, env: nat, name: string, v: Value): Store {
    if env >= |st| then st
    else st[env := Frame(st[env].parent, st[env].bindings[name := v])]
  }

  /** Parameters are bound in order; a missing argument binds undefined, a surplus one is dropped. */
  function BindParams(params: seq<string>, args: seq<Value>): map<string, Value> {
    if params == [] then map[]
    else
      var last := |params| - 1;
      BindParams(params[..last], args)[params[last] := if last < |args| then args[last] else Undefined]
  }

  // ---------------------------------------------------------------------------
  // The interpreter
  // ---------------------------------------------------------------------------

  function Eval(n: nat, e: Expr, input: Value, env: nat, st: Store): Outcome<Value>
    decreases n
  {
    if n == 0 then Timeout else
    match e
    case Lit(c) => Ok(Const(c), st)
    case Variable(x) => Ok(if x == "" then input else Lookup(st, env, x), st)
    case Lambda(ps, body, thunk) => Ok(Closure(input, env, ps, body, thunk), st)
    case Bind(x, rhs) =>
      (match Eval(n - 1, rhs, input, env, st)
       case Ok(v, st1) => Ok(v, BindIn(st1, env, x, v))
       case other => other)
    case Condition(c, t, f) =>
      (match Eval(n - 1, c, input, env, st)
       case Ok(v, st1) =>
         if Truthy(v) then Eval(n - 1, t, input, env, st1)
         else if f.Some? then Eval(n - 1, f.value, input, env, st1)
         else Ok(Undefined, st1)
       case other => other)
    case Block(es) =>
      EvalBlock(n - 1, es, Undefined, input, |st|, st + [Frame(Some(env), map[])])
    case Call(proc, args) =>
      (match Eval(n - 1, proc, input, env, st)
       case Ok(f, st1) =>
         (match EvalArgs(n - 1, args, true, input, env, st1)
          case Ok(vs, st2) =>
            if HostObject(f) then Fail(HostTypeError)
            else Apply(n - 1, f, vs, st2)
          case Fail(x) => Fail(x)
          case Timeout => Timeout)
       case other => other)
    case Filtered(o, p) =>
      (match Eval(n - 1, o, input, env, st)
       case Ok(v, st1) =>
         (match Eval(n - 1, p, v, env, st1)
          case Ok(k, st2) => Ok(Selected(k, v), st2)
          case other => other)
       case other => other)
  }

  function EvalBlock(n: nat, es: seq<Expr>, last: Value, input: Value, env: nat, st: Store): Outcome<Value>
    decreases n
  {
    if es == [] then Ok(last, st)
    else if n == 0 then Timeout else
    match Eval(n - 1, es[0], input, env, st)
    case Ok(v, st1) => EvalBlock(n - 1, es[1..], v, input, env, st1)
    case other => other
  }

  function Wrapped(wrap: bool, v: Value): Value {
    if wrap && IsFunction(v) then Wrapper(v) else v
  }

  /** `wrap` is true at a direct call, where function arguments are wrapped, and false in the trampoline. */
  function EvalArgs(n: nat, es: seq<Expr>, wrap: bool, input: Value, env: nat, st: Store): Outcome<seq<Value>>
    decreases n
  {
    if es == [] then Ok([], st)
    else if n == 0 then Timeout else
    match Eval(n - 1, es[0], input, env, st)
    case Timeout => Timeout
    case Fail(x) => Fail(x)
    case Ok(v, st1) =>
      (match EvalArgs(n - 1, es[1..], wrap, input, env, st1)
       case Ok(vs, st2) => Ok([Wrapped(wrap, v)] + vs, st2)
       case other => other)
  }

  function Apply(n: nat, f: Value, args: seq<Value>, st: Store): Outcome<Value>
    decreases n
  {
    if n == 0 then Timeout else
    match ApplyInner(n - 1, f, args, st)
    case Ok(v, st1) => Trampoline(n - 1, v, st1)
    case other => other
  }

  /** The loop of `apply`: run on while the result is a thunk. */
  function Trampoline(n: nat, v: Value, st: Store): Outcome<Value>
    decreases n
  {
    if !(v.Closure? && v.thunk) then Ok(v, st)
    else if n == 0 then Timeout
    else if !v.body.Call? then Fail(HostTypeError)
    else
      match Eval(n - 1, v.body.procedure, v.input, v.env, st)
      case Ok(f, st1) =>
        if !IsFunction(f) then Fail(HostTypeError)
        else
          (match EvalArgs(n - 1, v.body.arguments, false, v.input, v.env, st1)
           case Ok(vs, st2) => Apply(n - 1, f, vs, st2)
           case Fail(x) => Fail(x)
           case Timeout => Timeout)
      case other => other
  }

  function ApplyInner(n: nat, f: Value, args: seq<Value>, st: Store): Outcome<Value>
    decreases n
  {
    if n == 0 then Timeout else
    match f
    case Closure(input, env, params, body, _) =>
      Eval(n - 1, body, input, |st|, st + [Frame(Some(env), BindParams(params, args))])
    case Wrapper(inner) => Apply(n - 1, inner, args, st)
    case _ => Fail(T1006)
  }

  /** Application as it runs: a loop that calls on until the result is no thunk. */
  method ApplyLoop(n: nat, f: Value, args: seq<Value>, st: Store) returns (result: Outcome<Value>)
    ensures result == Apply(n, f, args, st)
  {
    if n == 0 {
      return Timeout;
    }
    var fuel: nat := n - 1;
    result := ApplyInner(fuel, f, args, st);
    while result.Ok? && result.value.Closure? && result.value.thunk
      invariant 0 <= fuel < n
      invariant Apply(n, f, args, st) == if result.Ok? then Trampoline(fuel, result.value, result.store) else result
      decreases fuel, result.Ok?
    {
      var thunk := result.value;
      if fuel == 0 {
        return Timeout;
      }
      if !thunk.body.Call? {
        return Fail(HostTypeError);
      }
      var next := Eval(fuel - 1, thunk.body.procedure, thunk.input, thunk.env, result.store);
      if !next.Ok? {
        return next;
      }
      if !IsFunction(next.value) {
        return Fail(HostTypeError);
      }
      var evaluated := EvalArgs(fuel - 1, thunk.body.arguments, false, thunk.input, thunk.env, next.store);
      match evaluated
      case Timeout =>
        return Timeout;
      case Fail(fault) =>
        return Fail(fault);
      case Ok(values, st2) =>
        if fuel == 1 {
          return Timeout;
        }
        fuel := fuel - 2;
        result := ApplyInner(fuel, next.value, values, st2);
    }
  }

  // ---------------------------------------------------------------------------
  // The rewriting
  // ---------------------------------------------------------------------------

  function TailCallOptimize(e: Expr): Expr {
    match e
    case Call(_, _) => Lambda([], e, true)
    case Condition(c, t, f) =>
      Condition(c, TailCallOptimize(t), if f.Some? then Some(TailCallOptimize(f.value)) else None)
    case Block(es) =>
      if es == [] then e
      else Block(es[..|es| - 1] + [TailCallOptimize(es[|es| - 1])])
    case Filtered(o, p) => if o.Call? then e else Filtered(TailCallOptimize(o), p)
    case _ => e
  }

  /** The post-parse walk: every lambda body is processed and then optimised. */
  function Process(e: Expr): Expr
    decreases e, 1
  {
    match e
    case Lit(_) => e
    case Variable(_) => e
    case Lambda(ps, body, thunk) => Lambda(ps, TailCallOptimize(Process(body)), thunk)
    case Call(p, args) => Call(Process(p), ProcessAll(args))
    case Condition(c, t, f) =>
      Condition(Process(c), Process(t), if f.Some? then Some(Process(f.value)) else None)
    case Block(es) => Block(ProcessAll(es))
    case Bind(x, rhs) => Bind(x, Process(rhs))
    case Filtered(o, p) => Filtered(Process(o), Process(p))
  }

  function ProcessAll(es: seq<Expr>): (r: seq<Expr>)
    ensures |r| == |es|
    decreases es, 0
  {
    if es == [] then [] else [Process(es[0])] + ProcessAll(es[1..])
  }

  /** Some way through ends in a call that the rewriting turns into a thunk; calls with a predicate are let be. */
  predicate EndsInCall(e: Expr) {
    match e
    case Call(_, _) => true
    case Condition(_, t, f) => EndsInCall(t) || (f.Some? && EndsInCall(f.value))
    case Block(es) => es != [] && EndsInCall(es[|es| - 1])
    case Filtered(o, _) => !o.Call? && EndsInCall(o)
    case _ => false
  }

  /** In tail position a predicate follows a block or condition that ends in a call. */
  predicate FiltersTailCall(e: Expr) {
    match e
    case Condition(_, t, f) => FiltersTailCall(t) || (f.Some? && FiltersTailCall(f.value))
    case Block(es) => es != [] && FiltersTailCall(es[|es| - 1])
    case Filtered(o, _) => !o.Call? && EndsInCall(o)
    case _ => false
  }

  /** What the parser produces: no lambda is a thunk yet.  And no lambda body applies a predicate to a tail call. */
  predicate Source(e: Expr)
    decreases e, 1
  {
    match e
    case Lit(_) => true
    case Variable(_) => true
    case Lambda(_, body, thunk) => !thunk && Source(body) && !FiltersTailCall(body)
    case Call(p, args) => Source(p) && SourceAll(args)
    case Condition(c, t, f) => Source(c) && Source(t) && (f.Some? ==> Source(f.value))
    case Block(es) => SourceAll(es)
    case Bind(_, rhs) => Source(rhs)
    case Filtered(o, p) => Source(o) && Source(p)
  }

  predicate SourceAll(es: seq<Expr>)
    decreases es, 0
  {
    es == [] || (Source(es[0]) && SourceAll(es[1..]))
  }

  // ---------------------------------------------------------------------------
  // When a plain run and a rewritten run agree
  // ---------------------------------------------------------------------------

  /** `w` is `v` with closure bodies rewritten and possibly fewer wrappers; neither is a thunk. */
  predicate Same(v: Value, w: Value) {
    match v
    case Undefined => w == v
    case Const(_) => w == v
    case Closure(input, env, ps, body, thunk) =>
      && w.Closure? && !thunk && !w.thunk
      && w.env == env && w.params == ps
      && Source(body) && !FiltersTailCall(body) && w.body == TailCallOptimize(Process(body))
      && Same(input, w.input)
    case Wrapper(u) => IsFunction(u) && (Same(u, w) || (w.Wrapper? && Same(u, w.inner)))
  }

  predicate SameFrame(f: Frame, g: Frame) {
    && f.parent == g.parent
    && f.bindings.Keys == g.bindings.Keys
    && forall x :: x in f.bindings ==> Same(f.bindings[x], g.bindings[x])
  }

  predicate SameStore(st: Store, ts: Store) {
    |st| == |ts| && forall i :: 0 <= i < |st| ==> SameFrame(st[i], ts[i])
  }

  predicate SameArgs(vs: seq<Value>, ws: seq<Value>) {
    |vs| == |ws| && forall i :: 0 <= i < |vs| ==> Same(vs[i], ws[i])
  }

  /** Same value in the same store, or the same failure. */
  predicate SameOutcome(r: Outcome<Value>, q: Outcome<Value>) {
    || (r.Ok? && q.Ok? && Same(r.value, q.value) && SameStore(r.store, q.store))
    || (r.Fail? && q == Fail(r.fault))
  }

  /** What `apply` does with the outcome of a rewritten body. */
  function Finish(n: nat, r: Outcome<Value>): Outcome<Value> {
    if r.Ok? then Trampoline(n, r.value, r.store) else r
  }

  // ---------------------------------------------------------------------------
  // More nesting never changes a finished run
  // ---------------------------------------------------------------------------

  lemma {:induction false} MoreFuelEval(n: nat, m: nat, e: Expr, input: Value, env: nat, st: Store)
    requires n <= m
    requires !Eval(n, e, input, env, st).Timeout?
    ensures Eval(m, e, input, env, st) == Eval(n, e, input, env, st)
    decreases n
  {
    match e {
      case Lit(_) =>
      case Variable(_) =>
      case Lambda(_, _, _) =>
      case Bind(_, rhs) => MoreFuelEval(n - 1, m - 1, rhs, input, env, st);
      case Condition(c, t, f) =>
        MoreFuelEval(n - 1, m - 1, c, input, env, st);
        var r := Eval(n - 1, c, input, env, st);
        if r.Ok? {
          if Truthy(r.value) {
            MoreFuelEval(n - 1, m - 1, t, input, env, r.store);
          } else if f.Some? {
            MoreFuelEval(n - 1, m - 1, f.value, input, env, r.store);
          }
        }
      case Block(es) => MoreFuelBlock(n - 1, m - 1, es, Undefined, input, |st|, st + [Frame(Some(env), map[])]);
      case Filtered(o, p) => MoreFuelFilter(n, m, o, p, input, env, st);
      case Call(p, args) => MoreFuelCall(n, m, p, args, input, env, st);
    }
  }

  lemma {:induction false} MoreFuelCall(n: nat, m: nat, p: Expr, args: seq<Expr>, input: Value, env: nat, st: Store)
    requires n <= m
    requires !Eval(n, Call(p, args), input, env, st).Timeout?
    ensures Eval(m, Call(p, args), input, env, st) == Eval(n, Call(p, args), input, env, st)
    decreases n, 0
  {
    MoreFuelEval(n - 1, m - 1, p, input, env, st);
    var r := Eval(n - 1, p, input, env, st);
    if r.Ok? {
      MoreFuelArgs(n - 1, m - 1, args, true, input, env, r.store);
      var q := EvalArgs(n - 1, args, true, input, env, r.store);
      if q.Ok? && !HostObject(r.value) {
        MoreFuelApply(n - 1, m - 1, r.value, q.value, q.store);
      }
    }
  }

  lemma {:induction false} MoreFuelFilter(n: nat, m: nat, o: Expr, p: Expr, input: Value, env: nat, st: Store)
    requires n <= m
    requires !Eval(n, Filtered(o, p), input, env, st).Timeout?
    ensures Eval(m, Filtered(o, p), input, env, st) == Eval(n, Filtered(o, p), input, env, st)
    decreases n, 0
  {
    MoreFuelEval(n - 1, m - 1, o, input, env, st);
    var r := Eval(n - 1, o, input, env, st);
    if r.Ok? {
      MoreFuelEval(n - 1, m - 1, p, r.value, env, r.store);
    }
  }

  lemma {:induction false} MoreFuelBlock(n: nat, m: nat, es: seq<Expr>, last: Value, input: Value, env: nat, st: Store)
    requires n <= m
    requires !EvalBlock(n, es, last, input, env, st).Timeout?
    ensures EvalBlock(m, es, last, input, env, st) == EvalBlock(n, es, last, input, env, st)
    decreases n
  {
    if es != [] {
      MoreFuelEval(n - 1, m - 1, es[0], input, env, st);
      var r := Eval(n - 1, es[0], input, env, st);
      if r.Ok? {
        MoreFuelBlock(n - 1, m - 1, es[1..], r.value, input, env, r.store);
      }
    }
  }

  lemma {:induction false} MoreFuelArgs(n: nat, m: nat, es: seq<Expr>, wrap: bool, input: Value, env: nat, st: Store)
    requires n <= m
    requires !EvalArgs(n, es, wrap, input, env, st).Timeout?
    ensures EvalArgs(m, es, wrap, input, env, st) == EvalArgs(n, es, wrap, input, env, st)
    decreases n
  {
    if es != [] {
      MoreFuelEval(n - 1, m - 1, es[0], input, env, st);
      var r := Eval(n - 1, es[0], input, env, st);
      if r.Ok? {
        MoreFuelArgs(n - 1, m - 1, es[1..], wrap, input, env, r.store);
      }
    }
  }

  lemma {:induction false} MoreFuelApply(n: nat, m: nat, f: Value, args: seq<Value>, st: Store)
    requires n <= m
    requires !Apply(n, f, args, st).Timeout?
    ensures Apply(m, f, args, st) == Apply(n, f, args, st)
    decreases n
  {
    MoreFuelInner(n - 1, m - 1, f, args, st);
    var r := ApplyInner(n - 1, f, args, st);
    if r.Ok? {
      MoreFuelTrampoline(n - 1, m - 1, r.value, r.store);
    }
  }

  lemma {:induction false} MoreFuelTrampoline(n: nat, m: nat, v: Value, st: Store)
    requires n <= m
    requires !Trampoline(n, v, st).Timeout?
    ensures Trampoline(m, v, st) == Trampoline(n, v, st)
    decreases n
  {
    if v.Closure? && v.thunk && v.body.Call? {
      MoreFuelEval(n - 1, m - 1, v.body.procedure, v.input, v.env, st);
      var r := Eval(n - 1, v.body.procedure, v.input, v.env, st);
      if r.Ok? && IsFunction(r.value) {
        MoreFuelArgs(n - 1, m - 1, v.body.arguments, false, v.input, v.env, r.store);
        var q := EvalArgs(n - 1, v.body.arguments, false, v.input, v.env, r.store);
        if q.Ok? {
          MoreFuelApply(n - 1, m - 1, r.value, q.value, q.store);
        }
      }
    }
  }

  lemma {:induction false} MoreFuelInner(n: nat, m: nat, f: Value, args: seq<Value>, st: Store)
    requires n <= m
    requires !ApplyInner(n, f, args, st).Timeout?
    ensures ApplyInner(m, f, args, st) == ApplyInner(n, f, args, st)
    decreases n
  {
    match f {
      case Closure(input, env, ps, body, _) =>
        MoreFuelEval(n - 1, m - 1, body, input, |st|, st + [Frame(Some(env), BindParams(ps, args))]);
      case Wrapper(u) => MoreFuelApply(n - 1, m - 1, u, args, st);
      case _ =>
    }
  }

  // ---------------------------------------------------------------------------
  // Tail calls of what is no function
  // ---------------------------------------------------------------------------

  /** A tail call whose procedure turned out to be no function, before its arguments are evaluated. */
  datatype Site = Site(arguments: seq<Expr>, input: Value, env: nat, store: Store)

  /** The first such call that the plain run reaches; `tail` tells whether `e` ends a lambda body. */
  function BadTail(n: nat, tail: bool, e: Expr, input: Value, env: nat, st: Store): Option<Site>
    decreases n
  {
    if n == 0 then None else
    match e
    case Bind(_, rhs) => BadTail(n - 1, false, rhs, input, env, st)
    case Condition(c, t, f) =>
      var s := BadTail(n - 1, false, c, input, env, st);
      var r := Eval(n - 1, c, input, env, st);
      if s.Some? || !r.Ok? then s
      else if Truthy(r.value) then BadTail(n - 1, tail, t, input, env, r.store)
      else if f.Some? then BadTail(n - 1, tail, f.value, input, env, r.store)
      else None
    case Block(es) => BadTailInBlock(n - 1, tail, es, input, |st|, st + [Frame(Some(env), map[])])
    case Call(p, args) =>
      var s := BadTail(n - 1, false, p, input, env, st);
      var r := Eval(n - 1, p, input, env, st);
      if s.Some? || !r.Ok? then s else BadTailInCall(n, tail, r.value, args, input, env, r.store)
    case Filtered(o, p) =>
      var s := BadTail(n - 1, false, o, input, env, st);
      var r := Eval(n - 1, o, input, env, st);
      if s.Some? || !r.Ok? then s else BadTail(n - 1, false, p, r.value, env, r.store)
    case _ => None
  }

  function BadTailInBlock(n: nat, tail: bool, es: seq<Expr>, input: Value, env: nat, st: Store): Option<Site>
    decreases n
  {
    if n == 0 || es == [] then None else
    var s := BadTail(n - 1, tail && |es| == 1, es[0], input, env, st);
    var r := Eval(n - 1, es[0], input, env, st);
    if s.Some? || !r.Ok? then s else BadTailInBlock(n - 1, tail, es[1..], input, env, r.store)
  }

  function BadTailInCall(n: nat, tail: bool, f: Value, args: seq<Expr>, input: Value, env: nat, st: Store): Option<Site>
    requires n > 0
    decreases n - 1, 1
  {
    if tail && !IsFunction(f) then Some(Site(args, input, env, st)) else
    var s := BadTailInArgs(n - 1, args, input, env, st);
    var r := EvalArgs(n - 1, args, true, input, env, st);
    if s.Some? || !r.Ok? || HostObject(f) then s else BadTailInApply(n - 1, f, r.value, r.store)
  }

  function BadTailInArgs(n: nat, es: seq<Expr>, input: Value, env: nat, st: Store): Option<Site>
    decreases n, 0
  {
    if n == 0 || es == [] then None else
    var s := BadTail(n - 1, false, es[0], input, env, st);
    var r := Eval(n - 1, es[0], input, env, st);
    if s.Some? || !r.Ok? then s else BadTailInArgs(n - 1, es[1..], input, env, r.store)
  }

  function BadTailInApply(n: nat, f: Value, args: seq<Value>, st: Store): Option<Site>
    decreases n, 0
  {
    if n < 2 then None else
    match f
    case Closure(input, env, ps, body, _) =>
      BadTail(n - 2, true, body, input, |st|, st + [Frame(Some(env), BindParams(ps, args))])
    case Wrapper(u) => BadTailInApply(n - 2, u, args, st)
    case _ => None
  }

  /** The plain run, except that such a call fails at once, as a write to its procedure does. */
  function Checked(n: nat, tail: bool, e: Expr, input: Value, env: nat, st: Store): Outcome<Value> {
    if BadTail(n, tail, e, input, env, st).Some? then Fail(HostTypeError) else Eval(n, e, input, env, st)
  }

  function CheckedBlock(n: nat, tail: bool, es: seq<Expr>, last: Value, input: Value, env: nat, st: Store): Outcome<Value> {
    if BadTailInBlock(n, tail, es, input, env, st).Some? then Fail(HostTypeError)
    else EvalBlock(n, es, last, input, env, st)
  }

  function CheckedArgs(n: nat, es: seq<Expr>, input: Value, env: nat, st: Store): Outcome<seq<Value>> {
    if BadTailInArgs(n, es, input, env, st).Some? then Fail(HostTypeError) else EvalArgs(n, es, true, input, env, st)
  }

  function CheckedApply(n: nat, f: Value, args: seq<Value>, st: Store): Outcome<Value> {
    if BadTailInApply(n, f, args, st).Some? then Fail(HostTypeError) else Apply(n, f, args, st)
  }

  /** The call proper, once the procedure is known: as a direct call (`wrap`) or as a trampoline step. */
  function CallWith(n: nat, f: Value, args: seq<Expr>, wrap: bool, input: Value, env: nat, st: Store): Outcome<Value>
    requires n > 0
  {
    match EvalArgs(n - 1, args, wrap, input, env, st)
    case Ok(vs, st2) => if HostObject(f) then Fail(HostTypeError) else Apply(n - 1, f, vs, st2)
    case Fail(x) => Fail(x)
    case Timeout => Timeout
  }

  function CheckedWith(n: nat, tail: bool, f: Value, args: seq<Expr>, input: Value, env: nat, st: Store): Outcome<Value>
    requires n > 0
  {
    if BadTailInCall(n, tail, f, args, input, env, st).Some? then Fail(HostTypeError)
    else CallWith(n, f, args, true, input, env, st)
  }

  lemma CheckedParts(n: nat, tail: bool, f: Value, args: seq<Expr>, input: Value, env: nat, st: Store)
    requires n > 0
    ensures var rs := CheckedArgs(n - 1, args, input, env, st);
            CheckedWith(n, tail, f, args, input, env, st) ==
            if tail && !IsFunction(f) then Fail(HostTypeError)
            else if rs.Timeout? then Timeout
            else if rs.Fail? then Fail(rs.fault)
            else if HostObject(f) then Fail(HostTypeError)
            else CheckedApply(n - 1, f, rs.value, rs.store)
  {
  }

  lemma CheckedCall(n: nat, tail: bool, p: Expr, args: seq<Expr>, input: Value, env: nat, st: Store)
    requires n > 0
    ensures var r := Checked(n - 1, false, p, input, env, st);
            Checked(n, tail, Call(p, args), input, env, st) ==
            if r.Ok? then CheckedWith(n, tail, r.value, args, input, env, r.store) else r
  {
  }

  lemma ClosureApplied(n: nat, f: Value, args: seq<Value>, st: Store)
    requires n >= 2 && f.Closure?
    ensures Apply(n, f, args, st) ==
            Finish(n - 1, Eval(n - 2, f.body, f.input, |st|, st + [Frame(Some(f.env), BindParams(f.params, args))]))
  {
    assert ApplyInner(n - 1, f, args, st) ==
           Eval(n - 2, f.body, f.input, |st|, st + [Frame(Some(f.env), BindParams(f.params, args))]);
  }

  lemma WrapperApplied(n: nat, u: Value, args: seq<Value>, st: Store)
    requires n >= 2
    ensures Apply(n, Wrapper(u), args, st) == Finish(n - 1, Apply(n - 2, u, args, st))
  {
    assert ApplyInner(n - 1, Wrapper(u), args, st) == Apply(n - 2, u, args, st);
  }

  lemma ApplyNests(n: nat, f: Value, args: seq<Value>, st: Store)
    requires n < 2
    ensures Apply(n, f, args, st) == Timeout && CheckedApply(n, f, args, st) == Timeout
  {
    assert n == 1 ==> ApplyInner(0, f, args, st) == Timeout;
  }

  lemma CheckedCondition(n: nat, tail: bool, c: Expr, t: Expr, f: Option<Expr>, input: Value, env: nat, st: Store)
    requires n > 0
    ensures var r := Checked(n - 1, false, c, input, env, st);
            Checked(n, tail, Condition(c, t, f), input, env, st) ==
            if !r.Ok? then r
            else if Truthy(r.value) then Checked(n - 1, tail, t, input, env, r.store)
            else if f.Some? then Checked(n - 1, tail, f.value, input, env, r.store)
            else Ok(Undefined, r.store)
  {
  }

  lemma CheckedFilter(n: nat, tail: bool, o: Expr, p: Expr, input: Value, env: nat, st: Store)
    requires n > 0
    ensures var r := Checked(n - 1, false, o, input, env, st);
            Checked(n, tail, Filtered(o, p), input, env, st) ==
            if !r.Ok? then r
            else
              var q := Checked(n - 1, false, p, r.value, env, r.store);
              if q.Ok? then Ok(Selected(q.value, r.value), q.store) else q
  {
  }

  lemma CheckedScope(n: nat, tail: bool, es: seq<Expr>, input: Value, env: nat, st: Store)
    requires n > 0
    ensures Checked(n, tail, Block(es), input, env, st) ==
            CheckedBlock(n - 1, tail, es, Undefined, input, |st|, st + [Frame(Some(env), map[])])
  {
  }

  lemma CheckedSequence(n: nat, tail: bool, es: seq<Expr>, last: Value, input: Value, env: nat, st: Store)
    requires n > 0 && es != []
    ensures var r := Checked(n - 1, tail && |es| == 1, es[0], input, env, st);
            && CheckedBlock(n, tail, es, last, input, env, st) ==
               (if r.Ok? then CheckedBlock(n - 1, tail, es[1..], r.value, input, env, r.store) else r)
            && (|es| == 1 ==> CheckedBlock(n, tail, es, last, input, env, st) == r)
  {
  }

  lemma CheckedArguments(n: nat, es: seq<Expr>, input: Value, env: nat, st: Store)
    requires n > 0 && es != []
    ensures var r := Checked(n - 1, false, es[0], input, env, st);
            CheckedArgs(n, es, input, env, st) ==
            if r.Timeout? then Timeout
            else if r.Fail? then Fail(r.fault)
            else
              var rs := CheckedArgs(n - 1, es[1..], input, env, r.store);
              if rs.Ok? then Ok([Wrapped(true, r.value)] + rs.value, rs.store) else rs
  {
  }

  // More nesting finds no other call, and changes nothing once the checked run is finished.

  lemma {:induction false} MoreBadTail(n: nat, m: nat, tail: bool, e: Expr, input: Value, env: nat, st: Store)
    requires n <= m && !Checked(n, tail, e, input, env, st).Timeout?
    ensures BadTail(m, tail, e, input, env, st) == BadTail(n, tail, e, input, env, st)
    decreases n
  {
    match e {
      case Bind(_, rhs) => MoreBadTail(n - 1, m - 1, false, rhs, input, env, st);
      case Condition(_, _, _) => MoreBadTailCondition(n, m, tail, e, input, env, st);
      case Filtered(o, p) => MoreBadTailFilter(n, m, tail, o, p, input, env, st);
      case Block(es) =>
        MoreBadTailInBlock(n - 1, m - 1, tail, es, Undefined, input, |st|, st + [Frame(Some(env), map[])]);
      case Call(p, args) =>
        CheckedCall(n, tail, p, args, input, env, st);
        MoreBadTail(n - 1, m - 1, false, p, input, env, st);
        var r := Checked(n - 1, false, p, input, env, st);
        if BadTail(n - 1, false, p, input, env, st).None? {
          MoreFuelEval(n - 1, m - 1, p, input, env, st);
        }
        if r.Ok? {
          MoreBadTailInCall(n, m, tail, r.value, args, input, env, r.store);
        }
      case _ =>
    }
  }

  lemma {:induction false} MoreBadTailCondition(n: nat, m: nat, tail: bool, e: Expr, input: Value, env: nat, st: Store)
    requires n <= m && e.Condition? && !Checked(n, tail, e, input, env, st).Timeout?
    ensures BadTail(m, tail, e, input, env, st) == BadTail(n, tail, e, input, env, st)
    decreases n, 0
  {
    var Condition(c, t, f) := e;
    MoreBadTail(n - 1, m - 1, false, c, input, env, st);
    var r := Checked(n - 1, false, c, input, env, st);
    if r.Ok? {
      MoreFuelEval(n - 1, m - 1, c, input, env, st);
      if Truthy(r.value) || f.Some? {
        MoreBadTail(n - 1, m - 1, tail, if Truthy(r.value) then t else f.value, input, env, r.store);
      }
    } else if BadTail(n - 1, false, c, input, env, st).None? {
      MoreFuelEval(n - 1, m - 1, c, input, env, st);
    }
  }

  lemma FoundInFilter(n: nat, tail: bool, o: Expr, p: Expr, input: Value, env: nat, st: Store)
    requires n > 0
    ensures var s := BadTail(n - 1, false, o, input, env, st);
            var r := Eval(n - 1, o, input, env, st);
            BadTail(n, tail, Filtered(o, p), input, env, st) ==
            if s.Some? || !r.Ok? then s else BadTail(n - 1, false, p, r.value, env, r.store)
  {
  }

  lemma {:induction false} MoreBadTailFilter(n: nat, m: nat, tail: bool, o: Expr, p: Expr, input: Value, env: nat, st: Store)
    requires n <= m && !Checked(n, tail, Filtered(o, p), input, env, st).Timeout?
    ensures BadTail(m, tail, Filtered(o, p), input, env, st) == BadTail(n, tail, Filtered(o, p), input, env, st)
    decreases n, 0
  {
    hide Eval, BadTail;
    NothingNests(tail, Filtered(o, p), input, env, st);
    CheckedFilter(n, tail, o, p, input, env, st);
    FoundInFilter(n, tail, o, p, input, env, st);
    FoundInFilter(m, tail, o, p, input, env, st);
    MoreBadTail(n - 1, m - 1, false, o, input, env, st);
    if BadTail(n - 1, false, o, input, env, st).None? {
      MoreFuelEval(n - 1, m - 1, o, input, env, st);
      var r := Eval(n - 1, o, input, env, st);
      if r.Ok? {
        MoreBadTail(n - 1, m - 1, false, p, r.value, env, r.store);
      }
    }
  }

  lemma {:induction false} MoreBadTailInBlock(n: nat, m: nat, tail: bool, es: seq<Expr>, last: Value, input: Value,
                                              env: nat, st: Store)
    requires n <= m && !CheckedBlock(n, tail, es, last, input, env, st).Timeout?
    ensures BadTailInBlock(m, tail, es, input, env, st) == BadTailInBlock(n, tail, es, input, env, st)
    decreases n
  {
    if es != [] {
      CheckedSequence(n, tail, es, last, input, env, st);
      MoreBadTail(n - 1, m - 1, tail && |es| == 1, es[0], input, env, st);
      if BadTail(n - 1, tail && |es| == 1, es[0], input, env, st).None? {
        MoreFuelEval(n - 1, m - 1, es[0], input, env, st);
        var r := Eval(n - 1, es[0], input, env, st);
        if r.Ok? {
          MoreBadTailInBlock(n - 1, m - 1, tail, es[1..], r.value, input, env, r.store);
        }
      }
    }
  }

  lemma {:induction false} MoreBadTailInCall(n: nat, m: nat, tail: bool, f: Value, args: seq<Expr>, input: Value,
                                             env: nat, st: Store)
    requires 0 < n <= m && !CheckedWith(n, tail, f, args, input, env, st).Timeout?
    ensures BadTailInCall(m, tail, f, args, input, env, st) == BadTailInCall(n, tail, f, args, input, env, st)
    decreases n - 1, 1
  {
    CheckedParts(n, tail, f, args, input, env, st);
    if !(tail && !IsFunction(f)) {
      MoreBadTailInArgs(n - 1, m - 1, args, input, env, st);
      if BadTailInArgs(n - 1, args, input, env, st).None? {
        MoreFuelArgs(n - 1, m - 1, args, true, input, env, st);
        var r := EvalArgs(n - 1, args, true, input, env, st);
        if r.Ok? && !HostObject(f) {
          MoreBadTailInApply(n - 1, m - 1, f, r.value, r.store);
        }
      }
    }
  }

  lemma {:induction false} MoreBadTailInArgs(n: nat, m: nat, es: seq<Expr>, input: Value, env: nat, st: Store)
    requires n <= m && !CheckedArgs(n, es, input, env, st).Timeout?
    ensures BadTailInArgs(m, es, input, env, st) == BadTailInArgs(n, es, input, env, st)
    decreases n, 0
  {
    if es != [] {
      CheckedArguments(n, es, input, env, st);
      MoreBadTail(n - 1, m - 1, false, es[0], input, env, st);
      if BadTail(n - 1, false, es[0], input, env, st).None? {
        MoreFuelEval(n - 1, m - 1, es[0], input, env, st);
        var r := Eval(n - 1, es[0], input, env, st);
        if r.Ok? {
          MoreBadTailInArgs(n - 1, m - 1, es[1..], input, env, r.store);
        }
      }
    }
  }

  lemma {:induction false} MoreBadTailInApply(n: nat, m: nat, f: Value, args: seq<Value>, st: Store)
    requires n <= m && !CheckedApply(n, f, args, st).Timeout?
    ensures BadTailInApply(m, f, args, st) == BadTailInApply(n, f, args, st)
    decreases n, 0
  {
    if n < 2 {
      ApplyNests(n, f, args, st);
    }
    match f {
      case Closure(input, env, ps, body, _) =>
        ClosureApplied(n, f, args, st);
        MoreBadTail(n - 2, m - 2, true, body, input, |st|, st + [Frame(Some(env), BindParams(ps, args))]);
      case Wrapper(u) =>
        WrapperApplied(n, u, args, st);
        MoreBadTailInApply(n - 2, m - 2, u, args, st);
      case _ =>
    }
  }

  lemma MoreChecked(n: nat, m: nat, tail: bool, e: Expr, input: Value, env: nat, st: Store)
    requires n <= m && !Checked(n, tail, e, input, env, st).Timeout?
    ensures Checked(m, tail, e, input, env, st) == Checked(n, tail, e, input, env, st)
  {
    MoreBadTail(n, m, tail, e, input, env, st);
    if BadTail(n, tail, e, input, env, st).None? {
      MoreFuelEval(n, m, e, input, env, st);
    }
  }

  lemma MoreCheckedBlock(n: nat, m: nat, tail: bool, es: seq<Expr>, last: Value, input: Value, env: nat, st: Store)
    requires n <= m && !CheckedBlock(n, tail, es, last, input, env, st).Timeout?
    ensures CheckedBlock(m, tail, es, last, input, env, st) == CheckedBlock(n, tail, es, last, input, env, st)
  {
    MoreBadTailInBlock(n, m, tail, es, last, input, env, st);
    if BadTailInBlock(n, tail, es, input, env, st).None? {
      MoreFuelBlock(n, m, es, last, input, env, st);
    }
  }

  lemma MoreCheckedArgs(n: nat, m: nat, es: seq<Expr>, input: Value, env: nat, st: Store)
    requires n <= m && !CheckedArgs(n, es, input, env, st).Timeout?
    ensures CheckedArgs(m, es, input, env, st) == CheckedArgs(n, es, input, env, st)
  {
    MoreBadTailInArgs(n, m, es, input, env, st);
    if BadTailInArgs(n, es, input, env, st).None? {
      MoreFuelArgs(n, m, es, true, input, env, st);
    }
  }

  lemma MoreCheckedApply(n: nat, m: nat, f: Value, args: seq<Value>, st: Store)
    requires n <= m && !CheckedApply(n, f, args, st).Timeout?
    ensures CheckedApply(m, f, args, st) == CheckedApply(n, f, args, st)
  {
    MoreBadTailInApply(n, m, f, args, st);
    if BadTailInApply(n, f, args, st).None? {
      MoreFuelApply(n, m, f, args, st);
    }
  }

  lemma MoreCheckedWith(n: nat, m: nat, tail: bool, f: Value, args: seq<Expr>, input: Value, env: nat, st: Store)
    requires 0 < n <= m && !CheckedWith(n, tail, f, args, input, env, st).Timeout?
    ensures CheckedWith(m, tail, f, args, input, env, st) == CheckedWith(n, tail, f, args, input, env, st)
  {
    CheckedParts(n, tail, f, args, input, env, st);
    CheckedParts(m, tail, f, args, input, env, st);
    if !(tail && !IsFunction(f)) {
      MoreCheckedArgs(n - 1, m - 1, args, input, env, st);
      var rs := CheckedArgs(n - 1, args, input, env, st);
      if rs.Ok? && !HostObject(f) {
        MoreCheckedApply(n - 1, m - 1, f, rs.value, rs.store);
      }
    }
  }

  // A run that reaches such a call ends only by failing, and only if the call's arguments end.

  ghost predicate ArgumentsFinish(s: Site) {
    exists k: nat :: !EvalArgs(k, s.arguments, true, s.input, s.env, s.store).Timeout?
  }

  lemma {:induction false} SiteFails(n: nat, tail: bool, e: Expr, input: Value, env: nat, st: Store)
    requires BadTail(n, tail, e, input, env, st).Some?
    ensures var r := Eval(n, e, input, env, st);
            r.Timeout? || (r.Fail? && ArgumentsFinish(BadTail(n, tail, e, input, env, st).value))
    decreases n
  {
    match e {
      case Bind(_, rhs) => SiteFails(n - 1, false, rhs, input, env, st);
      case Condition(c, t, f) =>
        var r := Eval(n - 1, c, input, env, st);
        if BadTail(n - 1, false, c, input, env, st).Some? {
          SiteFails(n - 1, false, c, input, env, st);
        } else {
          SiteFails(n - 1, tail, if Truthy(r.value) then t else f.value, input, env, r.store);
        }
      case Block(es) =>
        SiteFailsInBlock(n - 1, tail, es, Undefined, input, |st|, st + [Frame(Some(env), map[])]);
      case Filtered(o, p) =>
        if BadTail(n - 1, false, o, input, env, st).Some? {
          SiteFails(n - 1, false, o, input, env, st);
        } else {
          var r := Eval(n - 1, o, input, env, st);
          SiteFails(n - 1, false, p, r.value, env, r.store);
        }
      case Call(p, args) =>
        var r := Eval(n - 1, p, input, env, st);
        if BadTail(n - 1, false, p, input, env, st).Some? {
          SiteFails(n - 1, false, p, input, env, st);
        } else {
          SiteFailsInCall(n, tail, r.value, args, input, env, r.store);
        }
    }
  }

  lemma {:induction false} SiteFailsInBlock(n: nat, tail: bool, es: seq<Expr>, last: Value, input: Value, env: nat, st: Store)
    requires BadTailInBlock(n, tail, es, input, env, st).Some?
    ensures var r := EvalBlock(n, es, last, input, env, st);
            r.Timeout? || (r.Fail? && ArgumentsFinish(BadTailInBlock(n, tail, es, input, env, st).value))
    decreases n
  {
    if BadTail(n - 1, tail && |es| == 1, es[0], input, env, st).Some? {
      SiteFails(n - 1, tail && |es| == 1, es[0], input, env, st);
    } else {
      var r := Eval(n - 1, es[0], input, env, st);
      SiteFailsInBlock(n - 1, tail, es[1..], r.value, input, env, r.store);
    }
  }

  lemma {:induction false} SiteFailsInCall(n: nat, tail: bool, f: Value, args: seq<Expr>, input: Value, env: nat, st: Store)
    requires n > 0 && BadTailInCall(n, tail, f, args, input, env, st).Some?
    ensures var r := CallWith(n, f, args, true, input, env, st);
            r.Timeout? || (r.Fail? && ArgumentsFinish(BadTailInCall(n, tail, f, args, input, env, st).value))
    decreases n - 1, 1
  {
    var r := EvalArgs(n - 1, args, true, input, env, st);
    if tail && !IsFunction(f) {
      assert n > 1 ==> ApplyInner(n - 2, f, if r.Ok? then r.value else [], if r.Ok? then r.store else st).Ok? == false;
    } else if BadTailInArgs(n - 1, args, input, env, st).Some? {
      SiteFailsInArgs(n - 1, args, input, env, st);
    } else {
      SiteFailsInApply(n - 1, f, r.value, r.store);
    }
  }

  lemma {:induction false} SiteFailsInArgs(n: nat, es: seq<Expr>, input: Value, env: nat, st: Store)
    requires BadTailInArgs(n, es, input, env, st).Some?
    ensures var r := EvalArgs(n, es, true, input, env, st);
            r.Timeout? || (r.Fail? && ArgumentsFinish(BadTailInArgs(n, es, input, env, st).value))
    decreases n, 0
  {
    if BadTail(n - 1, false, es[0], input, env, st).Some? {
      SiteFails(n - 1, false, es[0], input, env, st);
    } else {
      SiteFailsInArgs(n - 1, es[1..], input, env, Eval(n - 1, es[0], input, env, st).store);
    }
  }

  lemma {:induction false} SiteFailsInApply(n: nat, f: Value, args: seq<Value>, st: Store)
    requires BadTailInApply(n, f, args, st).Some?
    ensures var r := Apply(n, f, args, st);
            r.Timeout? || (r.Fail? && ArgumentsFinish(BadTailInApply(n, f, args, st).value))
    decreases n, 0
  {
    match f {
      case Closure(input, env, ps, body, _) =>
        ClosureApplied(n, f, args, st);
        SiteFails(n - 2, true, body, input, |st|, st + [Frame(Some(env), BindParams(ps, args))]);
      case Wrapper(u) =>
        WrapperApplied(n, u, args, st);
        SiteFailsInApply(n - 2, u, args, st);
    }
  }

  // ---------------------------------------------------------------------------
  // The relation through stores, arguments and parameters
  // ---------------------------------------------------------------------------

  lemma {:induction false} SameLookup(st: Store, ts: Store, env: nat, x: string)
    requires SameStore(st, ts)
    ensures Same(Lookup(st, env, x), Lookup(ts, env, x))
    decreases env
  {
    if env < |st| {
      assert SameFrame(st[env], ts[env]);
      if x !in st[env].bindings && st[env].parent.Some? && st[env].parent.value < env {
        SameLookup(st, ts, st[env].parent.value, x);
      }
    }
  }

  lemma SameBind(st: Store, ts: Store, env: nat, x: string, v: Value, w: Value)
    requires SameStore(st, ts) && Same(v, w)
    ensures SameStore(BindIn(st, env, x, v), BindIn(ts, env, x, w))
  {
    if env < |st| {
      assert SameFrame(st[env], ts[env]);
    }
  }

  lemma SamePush(st: Store, ts: Store, f: Frame, g: Frame)
    requires SameStore(st, ts) && SameFrame(f, g)
    ensures SameStore(st + [f], ts + [g])
  {
  }

  lemma {:induction false} SameParams(ps: seq<string>, vs: seq<Value>, ws: seq<Value>)
    requires SameArgs(vs, ws)
    ensures forall env :: SameFrame(Frame(env, BindParams(ps, vs)), Frame(env, BindParams(ps, ws)))
  {
    if ps != [] {
      SameParams(ps[..|ps| - 1], vs, ws);
      var none: Option<nat> := None;
      assert SameFrame(Frame(none, BindParams(ps[..|ps| - 1], vs)), Frame(none, BindParams(ps[..|ps| - 1], ws)));
    }
  }

  lemma SameKind(v: Value, w: Value)
    requires Same(v, w)
    ensures Truthy(v) == Truthy(w) && Keeps(v) == Keeps(w) && IsFunction(v) == IsFunction(w)
    ensures HostObject(v) <==> HostObject(w)
    ensures !(v.Closure? && v.thunk) && !(w.Closure? && w.thunk)
  {
    if v.Wrapper? && Same(v.inner, w) {
      SameKind(v.inner, w);
    }
  }

  lemma SameWrapped(v: Value, w: Value)
    requires Same(v, w)
    ensures Same(Wrapped(true, v), Wrapped(false, w)) && Same(Wrapped(true, v), Wrapped(true, w))
  {
    SameKind(v, w);
  }

  // ---------------------------------------------------------------------------
  // Forwards: whatever the checked plain run does, the rewritten one does within
  // the same nesting
  // ---------------------------------------------------------------------------

  /** In any position: the processed expression behaves as the plain one. */
  lemma {:induction false} PreservedEval(n: nat, e: Expr, input: Value, winput: Value, env: nat, st: Store, ts: Store)
    requires Source(e) && Same(input, winput) && SameStore(st, ts)
    requires !Checked(n, false, e, input, env, st).Timeout?
    ensures SameOutcome(Checked(n, false, e, input, env, st), Eval(n, Process(e), winput, env, ts))
    decreases n, 1
  {
    match e {
      case Lit(_) =>
      case Variable(x) => SameLookup(st, ts, env, x);
      case Lambda(_, _, _) =>
      case Bind(x, rhs) => PreservedBind(n, x, rhs, input, winput, env, st, ts);
      case Condition(_, _, _) => PreservedCondition(n, e, input, winput, env, st, ts);
      case Filtered(o, p) => PreservedFilter(n, o, p, input, winput, env, st, ts);
      case Block(es) =>
        var f: Frame := Frame(Some(env), map[]);
        SamePush(st, ts, f, f);
        PreservedBlock(n - 1, es, Undefined, Undefined, input, winput, |st|, st + [f], ts + [f]);
      case Call(_, _) => PreservedCall(n, false, e, input, winput, env, st, ts);
    }
  }

  lemma {:induction false} PreservedBind(n: nat, x: string, rhs: Expr, input: Value, winput: Value, env: nat, st: Store, ts: Store)
    requires Source(rhs) && Same(input, winput) && SameStore(st, ts)
    requires !Checked(n, false, Bind(x, rhs), input, env, st).Timeout?
    ensures SameOutcome(Checked(n, false, Bind(x, rhs), input, env, st), Eval(n, Process(Bind(x, rhs)), winput, env, ts))
    decreases n, 0
  {
    PreservedEval(n - 1, rhs, input, winput, env, st, ts);
    var r, q := Checked(n - 1, false, rhs, input, env, st), Eval(n - 1, Process(rhs), winput, env, ts);
    if r.Ok? {
      SameBind(r.store, q.store, env, x, r.value, q.value);
    }
  }

  lemma {:induction false} PreservedCondition(n: nat, e: Expr, input: Value, winput: Value, env: nat, st: Store, ts: Store)
    requires e.Condition? && Source(e) && Same(input, winput) && SameStore(st, ts)
    requires !Checked(n, false, e, input, env, st).Timeout?
    ensures SameOutcome(Checked(n, false, e, input, env, st), Eval(n, Process(e), winput, env, ts))
    decreases n, 0
  {
    hide SameStore;
    var Condition(c, t, f) := e;
    CheckedCondition(n, false, c, t, f, input, env, st);
    PreservedEval(n - 1, c, input, winput, env, st, ts);
    var r, q := Checked(n - 1, false, c, input, env, st), Eval(n - 1, Process(c), winput, env, ts);
    if r.Ok? {
      SameKind(r.value, q.value);
      if Truthy(r.value) || f.Some? {
        PreservedEval(n - 1, if Truthy(r.value) then t else f.value, input, winput, env, r.store, q.store);
      }
    }
  }

  lemma {:induction false} PreservedFilter(n: nat, o: Expr, p: Expr, input: Value, winput: Value, env: nat, st: Store, ts: Store)
    requires Source(o) && Source(p) && Same(input, winput) && SameStore(st, ts)
    requires !Checked(n, false, Filtered(o, p), input, env, st).Timeout?
    ensures SameOutcome(Checked(n, false, Filtered(o, p), input, env, st), Eval(n, Process(Filtered(o, p)), winput, env, ts))
    decreases n, 0
  {
    hide Eval, Checked, Process, SameStore;
    NothingNests(false, Filtered(o, p), input, env, st);
    CheckedFilter(n, false, o, p, input, env, st);
    FilterRun(n, o, p, winput, env, ts);
    PreservedEval(n - 1, o, input, winput, env, st, ts);
    var r, q := Checked(n - 1, false, o, input, env, st), Eval(n - 1, Process(o), winput, env, ts);
    if r.Ok? {
      PreservedEval(n - 1, p, r.value, q.value, env, r.store, q.store);
      var k := Checked(n - 1, false, p, r.value, env, r.store);
      if k.Ok? {
        SameKind(k.value, Eval(n - 1, Process(p), q.value, env, q.store).value);
      }
    }
  }

  /** A call, direct or in tail position as the step of the trampoline that runs its thunk. */
  function Rewritten(n: nat, tail: bool, e: Expr, winput: Value, env: nat, ts: Store): Outcome<Value> {
    if tail then Trampoline(n, Closure(winput, env, [], Process(e), true), ts) else Eval(n, Process(e), winput, env, ts)
  }

  function RewrittenWith(n: nat, tail: bool, g: Value, args: seq<Expr>, winput: Value, env: nat, ts: Store): Outcome<Value>
    requires n > 0
  {
    if tail && !IsFunction(g) then Fail(HostTypeError) else CallWith(n, g, ProcessAll(args), !tail, winput, env, ts)
  }

  lemma RewrittenCall(n: nat, tail: bool, p: Expr, args: seq<Expr>, winput: Value, env: nat, ts: Store)
    requires n > 0
    ensures var q := Eval(n - 1, Process(p), winput, env, ts);
            Rewritten(n, tail, Call(p, args), winput, env, ts) ==
            if q.Ok? then RewrittenWith(n, tail, q.value, args, winput, env, q.store) else q
  {
  }

  lemma {:induction false} PreservedCall(n: nat, tail: bool, e: Expr, input: Value, winput: Value, env: nat, st: Store, ts: Store)
    requires e.Call? && Source(e) && Same(input, winput) && SameStore(st, ts)
    requires !Checked(n, tail, e, input, env, st).Timeout?
    ensures SameOutcome(Checked(n, tail, e, input, env, st), Rewritten(n, tail, e, winput, env, ts))
    decreases n, 0
  {
    var Call(p, args) := e;
    CheckedCall(n, tail, p, args, input, env, st);
    RewrittenCall(n, tail, p, args, winput, env, ts);
    PreservedEval(n - 1, p, input, winput, env, st, ts);
    var r, q := Checked(n - 1, false, p, input, env, st), Eval(n - 1, Process(p), winput, env, ts);
    if r.Ok? {
      PreservedCallee(n, tail, args, r.value, q.value, input, winput, env, r.store, q.store);
    }
  }

  lemma {:induction false} PreservedCallee(n: nat, tail: bool, args: seq<Expr>, f: Value, g: Value, input: Value,
                                           winput: Value, env: nat, st: Store, ts: Store)
    requires n > 0 && SourceAll(args) && Same(f, g) && Same(input, winput) && SameStore(st, ts)
    requires !CheckedWith(n, tail, f, args, input, env, st).Timeout?
    ensures SameOutcome(CheckedWith(n, tail, f, args, input, env, st), RewrittenWith(n, tail, g, args, winput, env, ts))
    decreases n - 1, 3
  {
    SameKind(f, g);
    CheckedParts(n, tail, f, args, input, env, st);
    if !(tail && !IsFunction(f)) {
      PreservedArgs(n - 1, args, !tail, input, winput, env, st, ts);
      var rs := CheckedArgs(n - 1, args, input, env, st);
      if rs.Ok? && !HostObject(f) {
        var qs := EvalArgs(n - 1, ProcessAll(args), !tail, winput, env, ts);
        PreservedApply(n - 1, f, g, rs.value, qs.value, rs.store, qs.store);
      }
    }
  }

  lemma {:induction false} PreservedBlock(n: nat, es: seq<Expr>, last: Value, wlast: Value, input: Value, winput: Value,
                                          env: nat, st: Store, ts: Store)
    requires SourceAll(es) && Same(last, wlast) && Same(input, winput) && SameStore(st, ts)
    requires !CheckedBlock(n, false, es, last, input, env, st).Timeout?
    ensures SameOutcome(CheckedBlock(n, false, es, last, input, env, st), EvalBlock(n, ProcessAll(es), wlast, winput, env, ts))
    decreases n, 0
  {
    if es != [] {
      CheckedSequence(n, false, es, last, input, env, st);
      PreservedEval(n - 1, es[0], input, winput, env, st, ts);
      var r, q := Checked(n - 1, false, es[0], input, env, st), Eval(n - 1, Process(es[0]), winput, env, ts);
      if r.Ok? {
        PreservedBlock(n - 1, es[1..], r.value, q.value, input, winput, env, r.store, q.store);
      }
    }
  }

  /** The rewritten run may skip the wrapping (in the trampoline) or do it (in a direct call). */
  lemma {:induction false} PreservedArgs(n: nat, es: seq<Expr>, wrap: bool, input: Value, winput: Value,
                                         env: nat, st: Store, ts: Store)
    requires SourceAll(es) && Same(input, winput) && SameStore(st, ts)
    requires !CheckedArgs(n, es, input, env, st).Timeout?
    ensures var r, q := CheckedArgs(n, es, input, env, st), EvalArgs(n, ProcessAll(es), wrap, winput, env, ts);
            || (r.Fail? && q == Fail(r.fault))
            || (r.Ok? && q.Ok? && SameArgs(r.value, q.value) && SameStore(r.store, q.store))
    decreases n, 0
  {
    hide SameStore, SameFrame;
    if es != [] {
      CheckedArguments(n, es, input, env, st);
      PreservedEval(n - 1, es[0], input, winput, env, st, ts);
      var r, q := Checked(n - 1, false, es[0], input, env, st), Eval(n - 1, Process(es[0]), winput, env, ts);
      if r.Ok? {
        SameKind(r.value, q.value);
        PreservedArgs(n - 1, es[1..], wrap, input, winput, env, r.store, q.store);
        SameWrapped(r.value, q.value);
        var rs, qs := CheckedArgs(n - 1, es[1..], input, env, r.store),
                      EvalArgs(n - 1, ProcessAll(es[1..]), wrap, winput, env, q.store);
        if rs.Ok? {
          SameCons(Wrapped(true, r.value), Wrapped(wrap, q.value), rs.value, qs.value);
        }
      }
    }
  }

  lemma SameCons(v: Value, w: Value, vs: seq<Value>, ws: seq<Value>)
    requires Same(v, w) && SameArgs(vs, ws)
    ensures SameArgs([v] + vs, [w] + ws)
  {
  }

  lemma {:induction false} PreservedApply(n: nat, f: Value, g: Value, vs: seq<Value>, ws: seq<Value>, st: Store, ts: Store)
    requires Same(f, g) && SameArgs(vs, ws) && SameStore(st, ts)
    requires !CheckedApply(n, f, vs, st).Timeout?
    ensures SameOutcome(CheckedApply(n, f, vs, st), Apply(n, g, ws, ts))
    decreases n, 0
  {
    if n < 2 {
      ApplyNests(n, f, vs, st);
    }
    match f {
      case Closure(_, _, _, _, _) => PreservedClosure(n, f, g, vs, ws, st, ts);
      case Wrapper(u) => PreservedWrapper(n, u, g, vs, ws, st, ts);
      case _ =>
        assert ApplyInner(n - 1, f, vs, st) == Fail(T1006) && ApplyInner(n - 1, g, ws, ts) == Fail(T1006);
    }
  }

  lemma {:induction false} PreservedWrapper(n: nat, u: Value, g: Value, vs: seq<Value>, ws: seq<Value>, st: Store, ts: Store)
    requires n >= 2 && Same(Wrapper(u), g) && SameArgs(vs, ws) && SameStore(st, ts)
    requires !CheckedApply(n, Wrapper(u), vs, st).Timeout?
    ensures SameOutcome(CheckedApply(n, Wrapper(u), vs, st), Apply(n, g, ws, ts))
    decreases n - 1, 3
  {
    var h := if Same(u, g) then g else g.inner;
    WrapperApplied(n, u, vs, st);
    PreservedApply(n - 2, u, h, vs, ws, st, ts);
    var r, q := CheckedApply(n - 2, u, vs, st), Apply(n - 2, h, ws, ts);
    if r.Ok? {
      SameKind(r.value, q.value);
    }
    assert CheckedApply(n, Wrapper(u), vs, st) == r;
    if Same(u, g) {
      MoreFuelApply(n - 2, n, g, ws, ts);
    } else {
      WrapperApplied(n, h, ws, ts);
    }
  }

  lemma {:induction false} PreservedClosure(n: nat, f: Value, g: Value, vs: seq<Value>, ws: seq<Value>, st: Store, ts: Store)
    requires n >= 2 && f.Closure? && Same(f, g) && SameArgs(vs, ws) && SameStore(st, ts)
    requires !CheckedApply(n, f, vs, st).Timeout?
    ensures SameOutcome(CheckedApply(n, f, vs, st), Apply(n, g, ws, ts))
    decreases n - 1, 3
  {
    var Closure(input, env, ps, body, _) := f;
    ClosureApplied(n, f, vs, st);
    ClosureApplied(n, g, ws, ts);
    SameParams(ps, vs, ws);
    var frame, wframe := Frame(Some(env), BindParams(ps, vs)), Frame(Some(env), BindParams(ps, ws));
    SamePush(st, ts, frame, wframe);
    PreservedTail(n - 2, body, input, g.input, |st|, st + [frame], ts + [wframe]);
    var r := Checked(n - 2, true, body, input, |st|, st + [frame]);
    var q := Eval(n - 2, g.body, g.input, |ts|, ts + [wframe]);
    if r.Ok? {
      SameKind(r.value, Trampoline(n - 2, q.value, q.store).value);
    }
    FinishMore(n - 2, n - 1, q);
  }

  /** In tail position: the rewritten body, once `apply` has finished it off, behaves as the plain one. */
  lemma {:induction false} PreservedTail(n: nat, e: Expr, input: Value, winput: Value, env: nat, st: Store, ts: Store)
    requires Source(e) && !FiltersTailCall(e) && Same(input, winput) && SameStore(st, ts)
    requires !Checked(n, true, e, input, env, st).Timeout?
    ensures SameOutcome(Checked(n, true, e, input, env, st),
                        Finish(n, Eval(n, TailCallOptimize(Process(e)), winput, env, ts)))
    decreases n, 2
  {
    hide SameStore, SameFrame;
    match e {
      case Condition(_, _, _) => PreservedTailCondition(n, e, input, winput, env, st, ts);
      case Block(es) => PreservedTailScope(n, es, input, winput, env, st, ts);
      case Call(_, _) => PreservedCall(n, true, e, input, winput, env, st, ts);
      case _ =>
        KeptWhole(e);
        PreservedEval(n, e, input, winput, env, st, ts);
        var r, q := Checked(n, false, e, input, env, st), Eval(n, Process(e), winput, env, ts);
        if r.Ok? {
          SameKind(r.value, q.value);
        }
    }
  }

  lemma {:induction false} PreservedTailScope(n: nat, es: seq<Expr>, input: Value, winput: Value, env: nat, st: Store, ts: Store)
    requires SourceAll(es) && !FiltersTailCall(Block(es)) && Same(input, winput) && SameStore(st, ts)
    requires !Checked(n, true, Block(es), input, env, st).Timeout?
    ensures SameOutcome(Checked(n, true, Block(es), input, env, st),
                        Finish(n, Eval(n, TailCallOptimize(Process(Block(es))), winput, env, ts)))
    decreases n, 1
  {
    var f: Frame := Frame(Some(env), map[]);
    SamePush(st, ts, f, f);
    CheckedScope(n, true, es, input, env, st);
    if es != [] {
      PreservedTailBlock(n - 1, es, Undefined, Undefined, input, winput, |st|, st + [f], ts + [f]);
      TailExpressionsOf(es);
      FinishMore(n - 1, n, EvalBlock(n - 1, TailExpressions(es), Undefined, winput, |ts|, ts + [f]));
    }
  }

  lemma {:induction false} PreservedTailCondition(n: nat, e: Expr, input: Value, winput: Value, env: nat, st: Store, ts: Store)
    requires e.Condition? && Source(e) && !FiltersTailCall(e) && Same(input, winput) && SameStore(st, ts)
    requires !Checked(n, true, e, input, env, st).Timeout?
    ensures SameOutcome(Checked(n, true, e, input, env, st),
                        Finish(n, Eval(n, TailCallOptimize(Process(e)), winput, env, ts)))
    decreases n, 0
  {
    hide Eval, Checked, Process, TailCallOptimize, SameStore;
    var Condition(c, t, f) := e;
    NothingNests(true, e, input, env, st);
    CheckedCondition(n, true, c, t, f, input, env, st);
    TailConditionRun(n, c, t, f, winput, env, ts);
    PreservedEval(n - 1, c, input, winput, env, st, ts);
    var r, q := Checked(n - 1, false, c, input, env, st), Eval(n - 1, Process(c), winput, env, ts);
    if r.Ok? {
      SameKind(r.value, q.value);
      if Truthy(r.value) || f.Some? {
        var branch := if Truthy(r.value) then t else f.value;
        PreservedTail(n - 1, branch, input, winput, env, r.store, q.store);
        FinishMore(n - 1, n, Eval(n - 1, TailCallOptimize(Process(branch)), winput, env, q.store));
      }
    }
  }

  lemma NothingNests(tail: bool, e: Expr, input: Value, env: nat, st: Store)
    ensures Checked(0, tail, e, input, env, st) == Timeout && Eval(0, e, input, env, st) == Timeout
  {
  }

  lemma NothingNestsInBlock(tail: bool, es: seq<Expr>, last: Value, input: Value, env: nat, st: Store)
    requires es != []
    ensures CheckedBlock(0, tail, es, last, input, env, st) == Timeout && EvalBlock(0, es, last, input, env, st) == Timeout
  {
  }

  lemma FilterRun(n: nat, o: Expr, p: Expr, winput: Value, env: nat, ts: Store)
    requires n > 0
    ensures var q := Eval(n - 1, Process(o), winput, env, ts);
            Eval(n, Process(Filtered(o, p)), winput, env, ts) ==
            if !q.Ok? then q
            else
              var k := Eval(n - 1, Process(p), q.value, env, q.store);
              if k.Ok? then Ok(Selected(k.value, q.value), k.store) else k
  {
  }

  /** The rewritten body that is a condition. */
  lemma TailConditionRun(n: nat, c: Expr, t: Expr, f: Option<Expr>, winput: Value, env: nat, ts: Store)
    requires n > 0
    ensures var q := Eval(n - 1, Process(c), winput, env, ts);
            Eval(n, TailCallOptimize(Process(Condition(c, t, f))), winput, env, ts) ==
            if !q.Ok? then q
            else if Truthy(q.value) then Eval(n - 1, TailCallOptimize(Process(t)), winput, env, q.store)
            else if f.Some? then Eval(n - 1, TailCallOptimize(Process(f.value)), winput, env, q.store)
            else Ok(Undefined, q.store)
  {
  }

  /** The rewritten body that is a block: its last expression alone is optimised. */
  lemma TailBlockRun(n: nat, es: seq<Expr>, wlast: Value, winput: Value, env: nat, ts: Store)
    requires n > 0 && es != []
    ensures var first := if |es| == 1 then TailCallOptimize(Process(es[0])) else Process(es[0]);
            var q := Eval(n - 1, first, winput, env, ts);
            EvalBlock(n, TailExpressions(es), wlast, winput, env, ts) ==
            if !q.Ok? || |es| == 1 then q else EvalBlock(n - 1, TailExpressions(es[1..]), q.value, winput, env, q.store)
  {
    hide Eval, TailCallOptimize, Process;
    assert TailExpressions(es)[1..] == if |es| == 1 then [] else TailExpressions(es[1..]);
  }

  lemma {:induction false} ProcessedLast(es: seq<Expr>)
    requires es != []
    ensures ProcessAll(es)[|es| - 1] == Process(es[|es| - 1])
  {
    if |es| > 1 {
      ProcessedLast(es[1..]);
    }
  }

  /** What ends in no call is left as it is. */
  lemma {:induction false} KeptWhole(e: Expr)
    requires !EndsInCall(e) || (e.Filtered? && !FiltersTailCall(e))
    ensures TailCallOptimize(Process(e)) == Process(e)
  {
    match e {
      case Condition(_, t, f) =>
        KeptWhole(t);
        if f.Some? {
          KeptWhole(f.value);
        }
      case Block(es) =>
        if es != [] {
          ProcessedLast(es);
          KeptWhole(es[|es| - 1]);
        }
      case Filtered(o, _) =>
        if !o.Call? {
          KeptWhole(o);
        }
      case _ =>
    }
  }

  lemma FinishMore(n: nat, m: nat, r: Outcome<Value>)
    requires n <= m && !Finish(n, r).Timeout?
    ensures Finish(m, r) == Finish(n, r)
  {
    if r.Ok? {
      MoreFuelTrampoline(n, m, r.value, r.store);
    }
  }

  /** The block with its last expression optimised, one expression at a time. */
  function TailExpressions(es: seq<Expr>): (r: seq<Expr>)
    requires es != []
    ensures |r| == |es|
  {
    if |es| == 1 then [TailCallOptimize(Process(es[0]))]
    else [Process(es[0])] + TailExpressions(es[1..])
  }

  lemma {:induction false} TailExpressionsOf(es: seq<Expr>)
    requires es != []
    ensures TailCallOptimize(Block(ProcessAll(es))) == Block(TailExpressions(es))
  {
    if |es| > 1 {
      TailExpressionsOf(es[1..]);
      var rest := ProcessAll(es[1..]);
      assert ProcessAll(es)[..|es| - 1] == [Process(es[0])] + rest[..|rest| - 1];
      assert TailExpressions(es[1..]) == rest[..|rest| - 1] + [TailCallOptimize(rest[|rest| - 1])];
    } else {
      assert ProcessAll(es) == [Process(es[0])];
    }
  }

  lemma {:induction false} PreservedTailBlock(n: nat, es: seq<Expr>, last: Value, wlast: Value, input: Value, winput: Value,
                                              env: nat, st: Store, ts: Store)
    requires es != [] && SourceAll(es) && !FiltersTailCall(es[|es| - 1]) && Same(input, winput) && SameStore(st, ts)
    requires !CheckedBlock(n, true, es, last, input, env, st).Timeout?
    ensures SameOutcome(CheckedBlock(n, true, es, last, input, env, st),
                        Finish(n, EvalBlock(n, TailExpressions(es), wlast, winput, env, ts)))
    decreases n, 0
  {
    hide Eval, EvalBlock, Checked, CheckedBlock, Process, TailCallOptimize, Trampoline, SameStore, TailExpressions;
    NothingNestsInBlock(true, es, last, input, env, st);
    CheckedSequence(n, true, es, last, input, env, st);
    TailBlockRun(n, es, wlast, winput, env, ts);
    if |es| == 1 {
      PreservedTail(n - 1, es[0], input, winput, env, st, ts);
      FinishMore(n - 1, n, Eval(n - 1, TailCallOptimize(Process(es[0])), winput, env, ts));
    } else {
      PreservedEval(n - 1, es[0], input, winput, env, st, ts);
      var r, q := Checked(n - 1, false, es[0], input, env, st), Eval(n - 1, Process(es[0]), winput, env, ts);
      if r.Ok? {
        PreservedTailBlock(n - 1, es[1..], r.value, q.value, input, winput, env, r.store, q.store);
        FinishMore(n - 1, n, EvalBlock(n - 1, TailExpressions(es[1..]), q.value, winput, env, q.store));
      }
    }
  }

  // ---------------------------------------------------------------------------
  // Backwards: when the rewritten run is finished, so is the checked plain one
  // ---------------------------------------------------------------------------

  function Max(a: nat, b: nat): nat {
    if a < b then b else a
  }

  lemma {:induction false} ReflectedEval(n: nat, e: Expr, input: Value, winput: Value, env: nat, st: Store, ts: Store)
    returns (m: nat)
    requires Source(e) && Same(input, winput) && SameStore(st, ts)
    requires !Eval(n, Process(e), winput, env, ts).Timeout?
    ensures m >= n && SameOutcome(Checked(m, false, e, input, env, st), Eval(n, Process(e), winput, env, ts))
    decreases n, 0, 1
  {
    hide SameFrame;
    m := n;
    match e {
      case Lit(_) =>
      case Variable(_) =>
      case Lambda(_, _, _) =>
      case Bind(x, rhs) =>
        m := ReflectedEval(n - 1, rhs, input, winput, env, st, ts);
        m := m + 1;
      case Condition(c, t, f) => m := ReflectedCondition(n, e, input, winput, env, st, ts);
      case Filtered(o, p) => m := ReflectedFilter(n, o, p, input, winput, env, st, ts);
      case Block(es) =>
        var f: Frame := Frame(Some(env), map[]);
        SamePush(st, ts, f, f);
        m := ReflectedBlock(n - 1, es, Undefined, Undefined, input, winput, |st|, st + [f], ts + [f]);
        m := m + 1;
        CheckedScope(m, false, es, input, env, st);
      case Call(p, args) =>
        m := ReflectedCall(n, false, e, input, winput, env, st, ts);
    }
    PreservedEval(m, e, input, winput, env, st, ts);
    MoreFuelEval(n, m, Process(e), winput, env, ts);
  }

  lemma {:induction false} ReflectedCondition(n: nat, e: Expr, input: Value, winput: Value, env: nat, st: Store, ts: Store)
    returns (m: nat)
    requires e.Condition? && Source(e) && Same(input, winput) && SameStore(st, ts)
    requires !Eval(n, Process(e), winput, env, ts).Timeout?
    ensures m >= n && !Checked(m, false, e, input, env, st).Timeout?
    decreases n, 0, 0
  {
    hide SameStore;
    var Condition(c, t, f) := e;
    m := ReflectedEval(n - 1, c, input, winput, env, st, ts);
    var r, q := Checked(m, false, c, input, env, st), Eval(n - 1, Process(c), winput, env, ts);
    var top := m;
    if r.Ok? {
      SameKind(r.value, q.value);
      if Truthy(r.value) || f.Some? {
        var branch := if Truthy(r.value) then t else f.value;
        var k := ReflectedEval(n - 1, branch, input, winput, env, r.store, q.store);
        top := Max(m, k);
        MoreChecked(k, top, false, branch, input, env, r.store);
      }
    }
    MoreChecked(m, top, false, c, input, env, st);
    m := top + 1;
    CheckedCondition(m, false, c, t, f, input, env, st);
  }

  lemma {:induction false} ReflectedFilter(n: nat, o: Expr, p: Expr, input: Value, winput: Value, env: nat, st: Store, ts: Store)
    returns (m: nat)
    requires Source(o) && Source(p) && Same(input, winput) && SameStore(st, ts)
    requires !Eval(n, Process(Filtered(o, p)), winput, env, ts).Timeout?
    ensures m >= n && !Checked(m, false, Filtered(o, p), input, env, st).Timeout?
    decreases n, 0, 0
  {
    hide Eval, Checked, Process, SameStore;
    NothingNests(false, Process(Filtered(o, p)), winput, env, ts);
    FilterRun(n, o, p, winput, env, ts);
    m := ReflectedEval(n - 1, o, input, winput, env, st, ts);
    var r, q := Checked(m, false, o, input, env, st), Eval(n - 1, Process(o), winput, env, ts);
    var top := m;
    if r.Ok? {
      var k := ReflectedEval(n - 1, p, r.value, q.value, env, r.store, q.store);
      top := Max(m, k);
      MoreChecked(k, top, false, p, r.value, env, r.store);
    }
    MoreChecked(m, top, false, o, input, env, st);
    m := top + 1;
    CheckedFilter(m, false, o, p, input, env, st);
  }

  lemma {:induction false} ReflectedBlock(n: nat, es: seq<Expr>, last: Value, wlast: Value, input: Value, winput: Value,
                                          env: nat, st: Store, ts: Store) returns (m: nat)
    requires SourceAll(es) && Same(last, wlast) && Same(input, winput) && SameStore(st, ts)
    requires !EvalBlock(n, ProcessAll(es), wlast, winput, env, ts).Timeout?
    ensures m >= n && !CheckedBlock(m, false, es, last, input, env, st).Timeout?
    decreases n, 0, 0
  {
    m := n;
    if es != [] {
      m := ReflectedEval(n - 1, es[0], input, winput, env, st, ts);
      var r, q := Checked(m, false, es[0], input, env, st), Eval(n - 1, Process(es[0]), winput, env, ts);
      var top := m;
      if r.Ok? {
        var k := ReflectedBlock(n - 1, es[1..], r.value, q.value, input, winput, env, r.store, q.store);
        top := Max(m, k);
        MoreCheckedBlock(k, top, false, es[1..], r.value, input, env, r.store);
      }
      MoreChecked(m, top, false, es[0], input, env, st);
      m := top + 1;
      CheckedSequence(m, false, es, last, input, env, st);
    }
  }

  lemma {:induction false} ReflectedArgs(n: nat, es: seq<Expr>, wrap: bool, input: Value, winput: Value,
                                         env: nat, st: Store, ts: Store) returns (m: nat)
    requires SourceAll(es) && Same(input, winput) && SameStore(st, ts)
    requires !EvalArgs(n, ProcessAll(es), wrap, winput, env, ts).Timeout?
    ensures m >= n
    ensures var r, q := CheckedArgs(m, es, input, env, st), EvalArgs(n, ProcessAll(es), wrap, winput, env, ts);
            || (r.Fail? && q == Fail(r.fault))
            || (r.Ok? && q.Ok? && SameArgs(r.value, q.value) && SameStore(r.store, q.store))
    decreases n, 0, 1
  {
    m := n;
    if es != [] {
      m := ReflectedArguments(n, es, wrap, input, winput, env, st, ts);
    }
    PreservedArgs(m, es, wrap, input, winput, env, st, ts);
    MoreFuelArgs(n, m, ProcessAll(es), wrap, winput, env, ts);
  }

  lemma {:induction false} ReflectedArguments(n: nat, es: seq<Expr>, wrap: bool, input: Value, winput: Value,
                                              env: nat, st: Store, ts: Store) returns (m: nat)
    requires es != [] && SourceAll(es) && Same(input, winput) && SameStore(st, ts)
    requires !EvalArgs(n, ProcessAll(es), wrap, winput, env, ts).Timeout?
    ensures m >= n && !CheckedArgs(m, es, input, env, st).Timeout?
    decreases n, 0, 0
  {
    hide SameStore, SameArgs;
    m := ReflectedEval(n - 1, es[0], input, winput, env, st, ts);
    var r, q := Checked(m, false, es[0], input, env, st), Eval(n - 1, Process(es[0]), winput, env, ts);
    var top := m;
    if r.Ok? {
      var k := ReflectedArgs(n - 1, es[1..], wrap, input, winput, env, r.store, q.store);
      top := Max(m, k);
      MoreCheckedArgs(k, top, es[1..], input, env, r.store);
    }
    MoreChecked(m, top, false, es[0], input, env, st);
    m := top + 1;
    CheckedArguments(m, es, input, env, st);
  }

  /** A direct call or a trampoline step that is finished. */
  lemma {:induction false} ReflectedCall(n: nat, tail: bool, e: Expr, input: Value, winput: Value,
                                         env: nat, st: Store, ts: Store) returns (m: nat)
    requires e.Call? && Source(e) && Same(input, winput) && SameStore(st, ts)
    requires !Rewritten(n, tail, e, winput, env, ts).Timeout?
    ensures m >= n && !Checked(m, tail, e, input, env, st).Timeout?
    decreases n, 0, 0
  {
    var Call(p, args) := e;
    RewrittenCall(n, tail, p, args, winput, env, ts);
    m := ReflectedEval(n - 1, p, input, winput, env, st, ts);
    var r, q := Checked(m, false, p, input, env, st), Eval(n - 1, Process(p), winput, env, ts);
    var top := m;
    if r.Ok? {
      var k := ReflectedCallee(n, tail, args, r.value, q.value, input, winput, env, r.store, q.store);
      top := Max(m, k);
      MoreCheckedWith(k, top + 1, tail, r.value, args, input, env, r.store);
    }
    MoreChecked(m, top, false, p, input, env, st);
    m := top + 1;
    CheckedCall(m, tail, p, args, input, env, st);
  }

  lemma {:induction false} ReflectedCallee(n: nat, tail: bool, args: seq<Expr>, f: Value, g: Value, input: Value,
                                           winput: Value, env: nat, st: Store, ts: Store) returns (m: nat)
    requires n > 0 && SourceAll(args) && Same(f, g) && Same(input, winput) && SameStore(st, ts)
    requires !RewrittenWith(n, tail, g, args, winput, env, ts).Timeout?
    ensures m > 0 && !CheckedWith(m, tail, f, args, input, env, st).Timeout?
    decreases n - 1, 1, 0
  {
    hide EvalArgs, Apply, CheckedArgs, CheckedApply, CheckedWith, ProcessAll, Same, SameStore, SameArgs;
    SameKind(f, g);
    m := 1;
    if !(tail && !IsFunction(f)) {
      var k := ReflectedArgs(n - 1, args, !tail, input, winput, env, st, ts);
      var rs, qs := CheckedArgs(k, args, input, env, st), EvalArgs(n - 1, ProcessAll(args), !tail, winput, env, ts);
      var top := k;
      if rs.Ok? && !HostObject(f) {
        var l := ReflectedApply(n - 1, f, g, rs.value, qs.value, rs.store, qs.store);
        top := Max(k, l);
        MoreCheckedApply(l, top, f, rs.value, rs.store);
      }
      MoreCheckedArgs(k, top, args, input, env, st);
      m := top + 1;
    }
    CheckedParts(m, tail, f, args, input, env, st);
  }

  lemma {:induction false} ReflectedApply(n: nat, f: Value, g: Value, vs: seq<Value>, ws: seq<Value>, st: Store, ts: Store)
    returns (m: nat)
    requires Same(f, g) && SameArgs(vs, ws) && SameStore(st, ts)
    requires !Apply(n, g, ws, ts).Timeout?
    ensures m >= n && !CheckedApply(m, f, vs, st).Timeout?
    decreases n, 0, f
  {
    if n < 2 {
      ApplyNests(n, g, ws, ts);
    }
    match f {
      case Closure(_, _, _, _, _) => m := ReflectedClosure(n, f, g, vs, ws, st, ts);
      case Wrapper(u) =>
        var h, k := g, n;
        if !Same(u, g) {
          h, k := g.inner, n - 2;
          WrapperApplied(n, h, ws, ts);
        }
        m := ReflectedApply(k, u, h, vs, ws, st, ts);
        m := WrapperFinishes(m, u, h, vs, ws, st, ts);
      case _ =>
        m := n;
        assert ApplyInner(n - 1, f, vs, st) == Fail(T1006);
    }
  }

  lemma WrapperFinishes(n: nat, u: Value, h: Value, vs: seq<Value>, ws: seq<Value>, st: Store, ts: Store) returns (m: nat)
    requires Same(u, h) && SameArgs(vs, ws) && SameStore(st, ts)
    requires !CheckedApply(n, u, vs, st).Timeout?
    ensures m == n + 2 && !CheckedApply(m, Wrapper(u), vs, st).Timeout?
  {
    m := n + 2;
    PreservedApply(n, u, h, vs, ws, st, ts);
    WrapperApplied(m, u, vs, st);
    var r := CheckedApply(n, u, vs, st);
    if r.Ok? {
      SameKind(r.value, Apply(n, h, ws, ts).value);
    }
  }

  lemma {:induction false} ReflectedClosure(n: nat, f: Value, g: Value, vs: seq<Value>, ws: seq<Value>, st: Store, ts: Store)
    returns (m: nat)
    requires n >= 2 && f.Closure? && Same(f, g) && SameArgs(vs, ws) && SameStore(st, ts)
    requires !Apply(n, g, ws, ts).Timeout?
    ensures m >= n && !CheckedApply(m, f, vs, st).Timeout?
    decreases n - 1, n, 2
  {
    var Closure(input, env, ps, body, _) := f;
    ClosureApplied(n, g, ws, ts);
    SameParams(ps, vs, ws);
    var frame, wframe := Frame(Some(env), BindParams(ps, vs)), Frame(Some(env), BindParams(ps, ws));
    SamePush(st, ts, frame, wframe);
    m := ReflectedTail(n - 2, n - 1, body, input, g.input, |st|, st + [frame], ts + [wframe]);
    PreservedTail(m, body, input, g.input, |st|, st + [frame], ts + [wframe]);
    var r := Checked(m, true, body, input, |st|, st + [frame]);
    if r.Ok? {
      SameKind(r.value, Finish(m, Eval(m, g.body, g.input, |ts|, ts + [wframe])).value);
    }
    m := m + 2;
    ClosureApplied(m, f, vs, st);
  }

  lemma {:induction false} ReflectedTail(n: nat, k: nat, e: Expr, input: Value, winput: Value, env: nat, st: Store, ts: Store)
    returns (m: nat)
    requires n <= k && Source(e) && !FiltersTailCall(e) && Same(input, winput) && SameStore(st, ts)
    requires !Finish(k, Eval(n, TailCallOptimize(Process(e)), winput, env, ts)).Timeout?
    ensures m >= k && !Checked(m, true, e, input, env, st).Timeout?
    decreases k, n, 1
  {
    hide SameStore;
    match e {
      case Condition(_, _, _) => m := ReflectedTailCondition(n, k, e, input, winput, env, st, ts);
      case Block(es) => m := ReflectedTailScope(n, k, es, input, winput, env, st, ts);
      case Call(_, _) => m := ReflectedCall(k, true, e, input, winput, env, st, ts);
      case _ =>
        KeptWhole(e);
        m := ReflectedEval(n, e, input, winput, env, st, ts);
        MoreChecked(m, Max(m, k), false, e, input, env, st);
        m := Max(m, k);
    }
  }

  lemma {:induction false} ReflectedTailScope(n: nat, k: nat, es: seq<Expr>, input: Value, winput: Value,
                                              env: nat, st: Store, ts: Store) returns (m: nat)
    requires n <= k && SourceAll(es) && !FiltersTailCall(Block(es)) && Same(input, winput) && SameStore(st, ts)
    requires !Finish(k, Eval(n, TailCallOptimize(Process(Block(es))), winput, env, ts)).Timeout?
    ensures m >= k && !Checked(m, true, Block(es), input, env, st).Timeout?
    decreases k, n, 0
  {
    m := k;
    if es != [] {
      var f: Frame := Frame(Some(env), map[]);
      SamePush(st, ts, f, f);
      TailExpressionsOf(es);
      m := ReflectedTailBlock(n - 1, k, es, Undefined, Undefined, input, winput, |st|, st + [f], ts + [f]);
      m := m + 1;
    }
    CheckedScope(m, true, es, input, env, st);
  }

  lemma {:induction false} ReflectedTailCondition(n: nat, k: nat, e: Expr, input: Value, winput: Value,
                                                  env: nat, st: Store, ts: Store) returns (m: nat)
    requires n <= k && e.Condition? && Source(e) && !FiltersTailCall(e) && Same(input, winput) && SameStore(st, ts)
    requires !Finish(k, Eval(n, TailCallOptimize(Process(e)), winput, env, ts)).Timeout?
    ensures m >= k && !Checked(m, true, e, input, env, st).Timeout?
    decreases k, n, 0
  {
    hide Eval, Checked, Process, TailCallOptimize, SameStore;
    var Condition(c, t, f) := e;
    NothingNests(true, TailCallOptimize(Process(e)), winput, env, ts);
    TailConditionRun(n, c, t, f, winput, env, ts);
    m := ReflectedEval(n - 1, c, input, winput, env, st, ts);
    var r, q := Checked(m, false, c, input, env, st), Eval(n - 1, Process(c), winput, env, ts);
    var top := Max(m, k);
    if r.Ok? {
      SameKind(r.value, q.value);
      if Truthy(r.value) || f.Some? {
        var branch := if Truthy(r.value) then t else f.value;
        var l := ReflectedTail(n - 1, k, branch, input, winput, env, r.store, q.store);
        top := Max(m, l);
        MoreChecked(l, top, true, branch, input, env, r.store);
      }
    }
    MoreChecked(m, top, false, c, input, env, st);
    m := top + 1;
    CheckedCondition(m, true, c, t, f, input, env, st);
  }

  lemma {:induction false} ReflectedTailBlock(n: nat, k: nat, es: seq<Expr>, last: Value, wlast: Value, input: Value,
                                              winput: Value, env: nat, st: Store, ts: Store) returns (m: nat)
    requires n <= k && es != [] && SourceAll(es) && !FiltersTailCall(es[|es| - 1]) && Same(input, winput) && SameStore(st, ts)
    requires !Finish(k, EvalBlock(n, TailExpressions(es), wlast, winput, env, ts)).Timeout?
    ensures m >= k && !CheckedBlock(m, true, es, last, input, env, st).Timeout?
    decreases k, n, 0
  {
    hide Eval, EvalBlock, Checked, CheckedBlock, Process, TailCallOptimize, Trampoline, SameStore, TailExpressions;
    NothingNestsInBlock(true, TailExpressions(es), wlast, winput, env, ts);
    TailBlockRun(n, es, wlast, winput, env, ts);
    if |es| == 1 {
      m := ReflectedTail(n - 1, k, es[0], input, winput, env, st, ts);
    } else {
      m := ReflectedEval(n - 1, es[0], input, winput, env, st, ts);
      var r, q := Checked(m, false, es[0], input, env, st), Eval(n - 1, Process(es[0]), winput, env, ts);
      var top := Max(m, k);
      if r.Ok? {
        var l := ReflectedTailBlock(n - 1, k, es[1..], r.value, q.value, input, winput, env, r.store, q.store);
        top := Max(m, l);
        MoreCheckedBlock(l, top, true, es[1..], r.value, input, env, r.store);
      }
      MoreChecked(m, top, false, es[0], input, env, st);
      m := top;
    }
    m := m + 1;
    CheckedSequence(m, true, es, last, input, env, st);
  }

  // ---------------------------------------------------------------------------
  // The theorems
  // ---------------------------------------------------------------------------

  predicate Delivers(n: nat, e: Expr, input: Value, env: nat, st: Store) {
    Eval(n, e, input, env, st).Ok?
  }

  lemma PlainOutcome(n: nat, e: Expr, input: Value, winput: Value, env: nat, st: Store, ts: Store)
    requires Source(e) && Same(input, winput) && SameStore(st, ts)
    requires Delivers(n, Process(e), winput, env, ts)
    ensures exists m :: Delivers(m, e, input, env, st)
  {
    var m := ReflectedEval(n, e, input, winput, env, st, ts);
    assert Delivers(m, e, input, env, st);
  }

  lemma DeliversChecked(n: nat, e: Expr, input: Value, env: nat, st: Store)
    requires Delivers(n, e, input, env, st)
    ensures Checked(n, false, e, input, env, st) == Eval(n, e, input, env, st)
  {
    if BadTail(n, false, e, input, env, st).Some? {
      SiteFails(n, false, e, input, env, st);
    }
  }

  lemma RewrittenOutcome(n: nat, e: Expr, input: Value, winput: Value, env: nat, st: Store, ts: Store)
    requires Source(e) && Same(input, winput) && SameStore(st, ts)
    requires Delivers(n, e, input, env, st)
    ensures exists m :: Delivers(m, Process(e), winput, env, ts)
  {
    DeliversChecked(n, e, input, env, st);
    PreservedEval(n, e, input, winput, env, st, ts);
    assert Delivers(n, Process(e), winput, env, ts);
  }

  lemma {:induction false} OutcomesAgree(n: nat, m: nat, e: Expr, input: Value, winput: Value, env: nat, st: Store, ts: Store)
    requires Source(e) && Same(input, winput) && SameStore(st, ts)
    requires !Checked(n, false, e, input, env, st).Timeout? && !Eval(m, Process(e), winput, env, ts).Timeout?
    ensures SameOutcome(Checked(n, false, e, input, env, st), Eval(m, Process(e), winput, env, ts))
  {
    var w := Process(e);
    PreservedEval(n, e, input, winput, env, st, ts);
    MoreFuelEval(n, Max(n, m), w, winput, env, ts);
    MoreFuelEval(m, Max(n, m), w, winput, env, ts);
  }

  /**
   Rewriting preserves meaning: the rewritten program delivers a value exactly when the plain one
   does, and then the two values and the two stores agree.
   */
  lemma RewritingPreservesMeaning(e: Expr, input: Value, winput: Value, env: nat, st: Store, ts: Store)
    requires Source(e) && Same(input, winput) && SameStore(st, ts)
    ensures (exists n :: Delivers(n, e, input, env, st)) <==> (exists n :: Delivers(n, Process(e), winput, env, ts))
    ensures forall n, m :: Delivers(n, e, input, env, st) && Delivers(m, Process(e), winput, env, ts) ==>
              SameOutcome(Eval(n, e, input, env, st), Eval(m, Process(e), winput, env, ts))
  {
    if n :| Delivers(n, e, input, env, st) {
      RewrittenOutcome(n, e, input, winput, env, st, ts);
    }
    if n :| Delivers(n, Process(e), winput, env, ts) {
      PlainOutcome(n, e, input, winput, env, st, ts);
    }
    forall n, m | Delivers(n, e, input, env, st) && Delivers(m, Process(e), winput, env, ts)
      ensures SameOutcome(Eval(n, e, input, env, st), Eval(m, Process(e), winput, env, ts))
    {
      DeliversChecked(n, e, input, env, st);
      OutcomesAgree(n, m, e, input, winput, env, st, ts);
    }
  }

  /**
   And exactly: the rewritten run ends when the plain run does that fails at once on a tail call of
   what is no function, within the same nesting, with the same value and store or the same failure.
   */
  lemma RewritingIsExact(e: Expr, input: Value, winput: Value, env: nat, st: Store, ts: Store)
    requires Source(e) && Same(input, winput) && SameStore(st, ts)
    ensures forall n :: !Checked(n, false, e, input, env, st).Timeout? ==>
              SameOutcome(Checked(n, false, e, input, env, st), Eval(n, Process(e), winput, env, ts))
    ensures forall n :: !Eval(n, Process(e), winput, env, ts).Timeout? ==>
              exists m :: SameOutcome(Checked(m, false, e, input, env, st), Eval(n, Process(e), winput, env, ts))
  {
    forall n | !Checked(n, false, e, input, env, st).Timeout?
      ensures SameOutcome(Checked(n, false, e, input, env, st), Eval(n, Process(e), winput, env, ts))
    {
      PreservedEval(n, e, input, winput, env, st, ts);
    }
    forall n | !Eval(n, Process(e), winput, env, ts).Timeout?
      ensures exists m :: SameOutcome(Checked(m, false, e, input, env, st), Eval(n, Process(e), winput, env, ts))
    {
      var m := ReflectedEval(n, e, input, winput, env, st, ts);
    }
  }

  /** The loop of `apply` hands out no thunk, whatever it is applied to. */
  lemma {:induction false} NoThunkEscapesTheLoop(n: nat, v: Value, st: Store)
    requires Trampoline(n, v, st).Ok?
    ensures var r := Trampoline(n, v, st).value; !(r.Closure? && r.thunk)
    decreases n
  {
    if v.Closure? && v.thunk {
      var r := Eval(n - 1, v.body.procedure, v.input, v.env, st);
      var q := EvalArgs(n - 1, v.body.arguments, false, v.input, v.env, r.store);
      var inner := ApplyInner(n - 2, r.value, q.value, q.store);
      NoThunkEscapesTheLoop(n - 2, inner.value, inner.store);
    }
  }

  /** Nor does a rewritten program leave one in any frame, or behind any value it delivers. */
  lemma NoThunkEscapes(n: nat, e: Expr, input: Value, winput: Value, env: nat, st: Store, ts: Store)
    requires Source(e) && Same(input, winput) && SameStore(st, ts)
    requires Eval(n, Process(e), winput, env, ts).Ok?
    ensures ThunkFree(Eval(n, Process(e), winput, env, ts).value)
    ensures forall f :: f in Eval(n, Process(e), winput, env, ts).store ==>
              forall x :: x in f.bindings ==> ThunkFree(f.bindings[x])
  {
    var m := ReflectedEval(n, e, input, winput, env, st, ts);
    var r, q := Checked(m, false, e, input, env, st), Eval(n, Process(e), winput, env, ts);
    SameIsThunkFree(r.value, q.value);
    forall f | f in q.store
      ensures forall x :: x in f.bindings ==> ThunkFree(f.bindings[x])
    {
      var i :| 0 <= i < |q.store| && q.store[i] == f;
      forall x | x in f.bindings
        ensures ThunkFree(f.bindings[x])
      {
        assert SameFrame(r.store[i], q.store[i]);
        SameIsThunkFree(r.store[i].bindings[x], f.bindings[x]);
      }
    }
  }

  /** No thunk here, in the captured context or behind a wrapper. */
  predicate ThunkFree(v: Value) {
    match v
    case Closure(input, _, _, _, thunk) => !thunk && ThunkFree(input)
    case Wrapper(u) => ThunkFree(u)
    case _ => true
  }

  /** The value and what it is made of: captured contexts and wrapped functions. */
  function Inside(v: Value): seq<Value> {
    match v
    case Closure(input, _, _, _, _) => [v] + Inside(input)
    case Wrapper(u) => [v] + Inside(u)
    case _ => [v]
  }

  lemma {:induction false} ThunkFreeMeans(v: Value)
    ensures ThunkFree(v) <==> forall w :: w in Inside(v) ==> !(w.Closure? && w.thunk)
  {
    match v
    case Closure(input, _, _, _, _) => ThunkFreeMeans(input);
    case Wrapper(u) => ThunkFreeMeans(u);
    case _ =>
  }

  lemma {:induction false} SameIsThunkFree(v: Value, w: Value)
    requires Same(v, w)
    ensures ThunkFree(w)
    decreases v
  {
    match v {
      case Closure(input, _, _, _, _) => SameIsThunkFree(input, w.input);
      case Wrapper(u) =>
        if Same(u, w) {
          SameIsThunkFree(u, w);
        } else {
          SameIsThunkFree(u, w.inner);
        }
      case _ =>
    }
  }
}
