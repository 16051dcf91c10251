/**
 The tail-call rewriting as it happens: in place, on nodes that own their subtrees.
 */
module AstRewrite {
  import opened Options
  import opened TailCalls

  /** What the rewriting distinguishes; of other nodes, and of conditions, it keeps the content as it is. */
  datatype Kind = Whole(content: Expr) | IsCondition(condition: Expr) | IsBlock

  /** What a node spells; `filters` are the predicates that follow the expression, which are fields of its node. */
  datatype Tree =
    | Leaf(content: Expr, filters: seq<Expr>)
    | Fork(condition: Expr, thenBranch: Tree, elseBranch: Option<Tree>, filters: seq<Expr>)
    | Sequence(expressions: seq<Tree>, filters: seq<Expr>)

  /** The rewriting on trees: a call becomes a thunk unless a predicate follows it; below others it goes on. */
  function Optimized(t: Tree): Tree {
    match t
    case Leaf(e, filters) => if e.Call? && filters == [] then Leaf(Lambda([], e, true), []) else t
    case Fork(c, b, f, filters) => Fork(c, Optimized(b), if f.Some? then Some(Optimized(f.value)) else None, filters)
    case Sequence(ts, filters) =>
      if ts == [] then t else Sequence(ts[..|ts| - 1] + [Optimized(ts[|ts| - 1])], filters)
  }

  /** Leaves are neither conditions nor blocks, and predicates are apart from what they follow. */
  predicate Parted(t: Tree) {
    match t
    case Leaf(e, _) => !e.Condition? && !e.Block? && !e.Filtered?
    case Fork(_, b, f, _) => Parted(b) && (f.Some? ==> Parted(f.value))
    case Sequence(ts, _) => forall i :: 0 <= i < |ts| ==> Parted(ts[i])
  }

  function WithFilters(e: Expr, filters: seq<Expr>): Expr {
    if filters == [] then e else Filtered(WithFilters(e, filters[..|filters| - 1]), filters[|filters| - 1])
  }

  function Spelled(t: Tree): Expr {
    match t
    case Leaf(e, filters) => WithFilters(e, filters)
    case Fork(c, b, f, filters) =>
      WithFilters(Condition(c, Spelled(b), if f.Some? then Some(Spelled(f.value)) else None), filters)
    case Sequence(ts, filters) => WithFilters(Block(SpelledAll(ts)), filters)
  }

  function SpelledAll(ts: seq<Tree>): (es: seq<Expr>)
    ensures |es| == |ts| && forall i :: 0 <= i < |ts| ==> es[i] == Spelled(ts[i])
  {
    seq(|ts|, i requires 0 <= i < |ts| => Spelled(ts[i]))
  }

  lemma {:induction false} RewritingPassesFilters(e: Expr, filters: seq<Expr>)
    ensures TailCallOptimize(WithFilters(e, filters)) ==
            if filters != [] && e.Call? then WithFilters(e, filters) else WithFilters(TailCallOptimize(e), filters)
    ensures filters != [] ==> WithFilters(e, filters).Filtered?
  {
    if filters != [] {
      RewritingPassesFilters(e, filters[..|filters| - 1]);
    }
  }

  /** On what a tree spells it is the rewriting of expressions. */
  lemma {:induction false} OptimizedSpells(t: Tree)
    requires Parted(t)
    ensures Spelled(Optimized(t)) == TailCallOptimize(Spelled(t))
  {
    hide WithFilters;
    match t
    case Leaf(e, filters) => LeafSpells(e, filters);
    case Fork(c, b, f, filters) =>
      OptimizedSpells(b);
      if f.Some? {
        OptimizedSpells(f.value);
      }
      RewritingPassesFilters(Condition(c, Spelled(b), if f.Some? then Some(Spelled(f.value)) else None), filters);
    case Sequence(ts, filters) =>
      if ts == [] {
        NothingToRewrite(filters);
      } else {
        OptimizedSpells(ts[|ts| - 1]);
        SequenceSpells(ts, filters);
      }
  }

  lemma LeafSpells(e: Expr, filters: seq<Expr>)
    requires !e.Condition? && !e.Block? && !e.Filtered?
    ensures Spelled(Optimized(Leaf(e, filters))) == TailCallOptimize(Spelled(Leaf(e, filters)))
  {
    RewritingPassesFilters(e, filters);
  }

  lemma NothingToRewrite(filters: seq<Expr>)
    ensures Spelled(Sequence([], filters)) == TailCallOptimize(Spelled(Sequence([], filters)))
  {
    RewritingPassesFilters(Block([]), filters);
  }

  lemma SequenceSpells(ts: seq<Tree>, filters: seq<Expr>)
    requires ts != [] && Spelled(Optimized(ts[|ts| - 1])) == TailCallOptimize(Spelled(ts[|ts| - 1]))
    ensures Spelled(Optimized(Sequence(ts, filters))) == TailCallOptimize(Spelled(Sequence(ts, filters)))
  {
    hide WithFilters;
    var last := ts[|ts| - 1];
    RewritingPassesFilters(Block(SpelledAll(ts)), filters);
    assert SpelledAll(ts[..|ts| - 1] + [Optimized(last)]) == SpelledAll(ts)[..|ts| - 1] + [Spelled(Optimized(last))];
  }

  class Node {
    const kind: Kind
    const filters: seq<Expr>
    var thenBranch: Node?
    var elseBranch: Node?
    var expressions: seq<Node>
    ghost var Repr: set<Node>
    ghost var Tree: Tree  // the expression the node spells

    ghost predicate Valid()
      reads this, Repr
      decreases Repr
    {
      this in Repr &&
      match kind
      case Whole(e) => Tree == Leaf(e, filters) && !e.Condition? && !e.Block? && !e.Filtered?
      case IsCondition(c) =>
        && thenBranch != null && Inside(thenBranch) && thenBranch.Valid()
        && (elseBranch == null ==> Tree == Fork(c, thenBranch.Tree, None, filters))
        && (elseBranch != null ==>
            && Inside(elseBranch) && elseBranch.Valid() && thenBranch.Repr !! elseBranch.Repr
            && Tree == Fork(c, thenBranch.Tree, Some(elseBranch.Tree), filters))
      case IsBlock =>
        && Tree.Sequence? && Tree.filters == filters && |Tree.expressions| == |expressions|
        && (forall i :: 0 <= i < |expressions| ==>
            Inside(expressions[i]) && expressions[i].Valid() && Tree.expressions[i] == expressions[i].Tree)
        && (forall i, j :: 0 <= i < j < |expressions| ==> expressions[i].Repr !! expressions[j].Repr)
    }

    /** A subtree that lies wholly inside this one. */
    ghost predicate Inside(child: Node)
      reads this, Repr
    {
      child in Repr && child.Repr < Repr && this !in child.Repr
    }

    constructor (content: Expr)
      requires !content.Condition? && !content.Block? && !content.Filtered?
      ensures Valid() && Tree == Leaf(content, []) && fresh(Repr)
    {
      kind, filters, thenBranch, elseBranch, expressions := Whole(content), [], null, null, [];
      Tree := Leaf(content, []);
      new;
      Repr := {this};
    }
  }

  /** Calls in tail position become thunks; branches and last expressions are overwritten where they stand. */
  method TailCallOptimizeInPlace(expr: Node) returns (result: Node)
    requires expr.Valid()
    modifies expr.Repr
    ensures result.Valid() && result.Tree == Optimized(old(expr.Tree))
    ensures fresh(result.Repr - old(expr.Repr))
    decreases expr.Repr, 1
  {
    match expr.kind
    case Whole(e) =>
      if e.Call? && expr.filters == [] {
        result := new Node(Lambda([], e, true));
      } else {
        result := expr;
      }
    case IsCondition(_) =>
      OptimizeThen(expr);
      if expr.elseBranch != null {
        OptimizeElse(expr);
      }
      result := expr;
    case IsBlock =>
      if |expr.expressions| > 0 {
        OptimizeLast(expr);
      }
      result := expr;
  }

  method OptimizeThen(expr: Node)
    requires expr.Valid() && expr.kind.IsCondition?
    modifies expr.Repr
    ensures expr.Valid() && expr.elseBranch == old(expr.elseBranch)
    ensures expr.Tree == old(expr.Tree).(thenBranch := Optimized(old(expr.Tree.thenBranch)))
    ensures fresh(expr.Repr - old(expr.Repr))
    ensures expr.elseBranch != null ==> expr.elseBranch.Repr == old(if expr.elseBranch == null then {} else expr.elseBranch.Repr)
    decreases expr.Repr, 0
  {
    hide Optimized;
    var other := expr.elseBranch;
    ghost var kept := if other == null then {} else other.Repr;
    var t := TailCallOptimizeInPlace(expr.thenBranch);
    expr.thenBranch := t;
    expr.Repr := {expr} + t.Repr + kept;
    expr.Tree := Fork(expr.kind.condition, t.Tree, expr.Tree.elseBranch, expr.filters);
    assert other != null ==> other.Valid() && expr.Inside(other);
    assert expr.Inside(t);
  }

  method OptimizeElse(expr: Node)
    requires expr.Valid() && expr.kind.IsCondition? && expr.elseBranch != null
    modifies expr.Repr
    ensures expr.Valid()
    ensures expr.Tree == old(expr.Tree).(elseBranch := Some(Optimized(old(expr.Tree.elseBranch.value))))
    ensures fresh(expr.Repr - old(expr.Repr))
    decreases expr.elseBranch.Repr, 2
  {
    hide Optimized;
    var first := expr.thenBranch;
    var f := TailCallOptimizeInPlace(expr.elseBranch);
    expr.elseBranch := f;
    expr.Repr := {expr} + first.Repr + f.Repr;
    expr.Tree := Fork(expr.kind.condition, first.Tree, Some(f.Tree), expr.filters);
    assert first.Valid() && expr.Inside(first) && expr.Inside(f);
  }

  /** The expressions of a block lie apart inside it and spell its tree. */
  ghost predicate Children(expr: Node, children: seq<Node>, es: seq<Tree>)
    reads expr, expr.Repr, children, set x, y | x in children && y in x.Repr :: y
  {
    && |es| == |children|
    && (forall i :: 0 <= i < |children| ==>
          expr.Inside(children[i]) && children[i].Valid() && children[i].Tree == es[i] && children[i] in children[i].Repr)
    && (forall i, j :: 0 <= i < j < |children| ==> children[i].Repr !! children[j].Repr)
  }

  lemma OwnsItself(n: Node)
    requires n.Valid()
    ensures n in n.Repr
  {
  }

  lemma BlockIsValid(expr: Node)
    requires expr.kind.IsBlock? && expr in expr.Repr
    ensures expr.Valid() <==> expr.Tree.Sequence? && expr.Tree.filters == expr.filters && Children(expr, expr.expressions, expr.Tree.expressions)
  {
  }

  lemma BlockOptimized(es: seq<Tree>, filters: seq<Expr>)
    requires es != []
    ensures Optimized(Sequence(es, filters)) == Sequence(es[|es| - 1 := Optimized(es[|es| - 1])], filters)
  {
    var last := Optimized(es[|es| - 1]);
    assert es[|es| - 1 := last] == es[..|es| - 1] + [last];
  }

  method OptimizeLast(expr: Node)
    requires expr.Valid() && expr.kind.IsBlock? && |expr.expressions| > 0
    modifies expr.Repr
    ensures expr.Valid() && expr.Tree == Optimized(old(expr.Tree))
    ensures fresh(expr.Repr - old(expr.Repr))
    decreases expr.Repr, 0
  {
    hide Optimized, Node.Valid;
    OwnsItself(expr);
    var length := |expr.expressions|;
    BlockIsValid(expr);
    ghost var es := expr.Tree.expressions;
    BlockOptimized(es, expr.filters);
    var last := TailCallOptimizeInPlace(expr.expressions[length - 1]);
    OwnsItself(last);
    ghost var optimized := Sequence(es[length - 1 := last.Tree], expr.filters);
    assert optimized == Optimized(Sequence(es, expr.filters));
    expr.expressions, expr.Repr, expr.Tree := expr.expressions[length - 1 := last], expr.Repr + last.Repr, optimized;
    assert Children(expr, expr.expressions, expr.Tree.expressions);
    BlockIsValid(expr);
  }
}
