/** The binding of arguments to parameters, for both engines. */
module Parameters {

  /** The parameter of that index is the last of its name. */
  predicate NamesLast(params: seq<string>, i: nat) {
    i < |params| && params[i] !in params[i + 1..]
  }

  /** Each parameter is bound to the argument of its own position, and to `missing` when there is none. */
  ghost predicate BindsByPosition<V(!new)>(params: seq<string>, args: seq<V>, missing: V, bindings: map<string, V>) {
    && (forall x :: x in bindings <==> x in params)
    && (forall i: nat :: NamesLast(params, i) ==>
          params[i] in bindings && bindings[params[i]] == if i < |args| then args[i] else missing)
  }

  lemma ParameterJoins<V(!new)>(params: seq<string>, args: seq<V>, missing: V, b: map<string, V>)
    requires params != [] && BindsByPosition(params[..|params| - 1], args, missing, b)
    ensures var last := |params| - 1;
            BindsByPosition(params, args, missing, b[params[last] := if last < |args| then args[last] else missing])
  {
    var front, last := params[..|params| - 1], |params| - 1;
    var c := b[params[last] := if last < |args| then args[last] else missing];
    assert params == front + [params[last]];
    forall i: nat | NamesLast(params, i)
      ensures params[i] in c && c[params[i]] == if i < |args| then args[i] else missing
    {
      if i < last {
        StaysLast(params, i);
      }
    }
  }

  lemma StaysLast(params: seq<string>, i: nat)
    requires NamesLast(params, i) && i + 1 < |params|
    ensures NamesLast(params[..|params| - 1], i) && params[i] != params[|params| - 1]
  {
    assert params[|params| - 1] == params[i + 1..][|params| - 2 - i];
    assert params[..|params| - 1][i + 1..] == params[i + 1..][..|params| - 2 - i];
  }

  lemma {:induction false} LastOfName(params: seq<string>, x: string) returns (i: nat)
    requires x in params
    ensures NamesLast(params, i) && params[i] == x
  {
    i := |params| - 1;
    if params[i] != x {
      var front := params[..i];
      assert params == front + [params[i]];
      var j := LastOfName(front, x);
      assert params[j + 1..] == front[j + 1..] + [params[i]];
      i := j;
    }
  }

  /** Which leaves one way to bind them. */
  lemma BindingsAreDetermined<V(!new)>(params: seq<string>, args: seq<V>, missing: V, b: map<string, V>, c: map<string, V>)
    requires BindsByPosition(params, args, missing, b) && BindsByPosition(params, args, missing, c)
    ensures b == c
  {
    forall x | x in b
      ensures x in c && b[x] == c[x]
    {
      var i := LastOfName(params, x);
    }
    assert forall x :: x in c ==> x in b;
  }
}
