/**
 Structural equality of values, and the removal of duplicates by hashing.

 How numbers are compared and spelled canonically is a parameter; `TokensAgree` supplies the decimal kernel's.
 */
module Distinct {
  import opened Options
  import Decimals

  datatype Value =
    | Absent
    | Null
    | Bool(b: bool)
    | Number(token: string)
    | Text(s: string)
    | Array(items: seq<Value>)
    | Object(fields: seq<Field>)
    | Function(identity: nat)

  datatype Field = Field(key: string, value: Value)

  datatype Numbers = Numbers(valid: string -> bool, compare: (string, string) -> int, format: string -> string)

  /** The comparison and the spelling tell the same numbers apart. */
  ghost predicate Agree(ns: Numbers) {
    forall x, y :: ns.valid(x) && ns.valid(y) ==> (ns.compare(x, y) == 0 <==> ns.format(x) == ns.format(y))
  }

  ghost predicate UniqueKeys(fields: seq<Field>) {
    forall i, j :: 0 <= i < j < |fields| ==> fields[i].key != fields[j].key
  }

  /** Values the evaluator makes: valid numbers and objects without repeated keys. */
  ghost predicate WellFormed(ns: Numbers, v: Value)
    decreases v
  {
    match v
    case Number(token) => ns.valid(token)
    case Array(items) => forall i :: 0 <= i < |items| ==> WellFormed(ns, items[i])
    case Object(fields) => UniqueKeys(fields) && forall i :: 0 <= i < |fields| ==> WellFormed(ns, fields[i].value)
    case _ => true
  }

  // ---------------------------------------------------------------------------
  // Equality by recursion, in both engines
  // ---------------------------------------------------------------------------

  function Lookup(fields: seq<Field>, key: string): (r: int)
    ensures -1 <= r < |fields| && (r >= 0 ==> fields[r].key == key)
    ensures r == -1 ==> forall i :: 0 <= i < |fields| ==> fields[i].key != key
  {
    if fields == [] then -1
    else if fields[|fields| - 1].key == key then |fields| - 1
    else Lookup(fields[..|fields| - 1], key)
  }

  predicate DeepEqual(ns: Numbers, a: Value, b: Value)
    decreases a
  {
    match a
    case Function(identity) => b.Function? && b.identity == identity
    case Array(items) =>
      b.Array? && |items| == |b.items| && forall i :: 0 <= i < |items| ==> DeepEqual(ns, items[i], b.items[i])
    case Number(token) => b.Number? && ns.compare(token, b.token) == 0
    case Object(fields) =>
      b.Object? && |fields| == |b.fields|
      && forall i :: 0 <= i < |fields| ==>
        var j := Lookup(b.fields, fields[i].key); j >= 0 && DeepEqual(ns, fields[i].value, b.fields[j].value)
    case _ => a == b
  }

  function Keys(fields: seq<Field>): seq<string> {
    seq(|fields|, i requires 0 <= i < |fields| => fields[i].key)
  }

  /** No function anywhere inside. */
  predicate FunctionFree(v: Value) {
    match v
    case Function(_) => false
    case Array(items) => forall i :: 0 <= i < |items| ==> FunctionFree(items[i])
    case Object(fields) => forall i :: 0 <= i < |fields| ==> FunctionFree(fields[i].value)
    case _ => true
  }

  /**
   The other engine sorts both key lists and compares them before it looks at values.
   Its functions are host objects of their own; how two of them compare is a parameter.
   */
  predicate IsDeepEqual(ns: Numbers, same: (nat, nat) -> bool, a: Value, b: Value)
    decreases a
  {
    if a.Number? || b.Number? then a.Number? && b.Number? && ns.compare(a.token, b.token) == 0
    else
      match a
      case Array(items) =>
        b.Array? && |items| == |b.items| && forall i :: 0 <= i < |items| ==> IsDeepEqual(ns, same, items[i], b.items[i])
      case Object(fields) =>
        b.Object? && |fields| == |b.fields| && Sorted(Keys(fields)) == Sorted(Keys(b.fields))
        && forall i :: 0 <= i < |fields| ==>
          var j := Lookup(b.fields, fields[i].key); j >= 0 && IsDeepEqual(ns, same, fields[i].value, b.fields[j].value)
      case Function(identity) => b.Function? && same(identity, b.identity)
      case _ => a == b
  }

  // ---------------------------------------------------------------------------
  // Sorted key lists
  // ---------------------------------------------------------------------------

  /** The order of strings by their characters. */
  predicate AtMost(a: string, b: string) {
    a == "" || (b != "" && (a[0] < b[0] || (a[0] == b[0] && AtMost(a[1..], b[1..]))))
  }

  lemma {:induction false} AtMostIsTotal(a: string, b: string)
    ensures AtMost(a, b) || AtMost(b, a)
    ensures AtMost(a, b) && AtMost(b, a) ==> a == b
  {
    if a != "" && b != "" {
      AtMostIsTotal(a[1..], b[1..]);
      assert a == [a[0]] + a[1..] && b == [b[0]] + b[1..];
    }
  }

  lemma {:induction false} AtMostIsTransitive(a: string, b: string, c: string)
    requires AtMost(a, b) && AtMost(b, c)
    ensures AtMost(a, c)
  {
    if a != "" && a[0] == b[0] == c[0] {
      AtMostIsTransitive(a[1..], b[1..], c[1..]);
    }
  }

  function Inserted(key: string, keys: seq<string>): seq<string> {
    if keys == [] || AtMost(key, keys[0]) then [key] + keys else [keys[0]] + Inserted(key, keys[1..])
  }

  function Sorted(keys: seq<string>): seq<string> {
    if keys == [] then [] else Inserted(keys[0], Sorted(keys[1..]))
  }

  predicate Ascending(keys: seq<string>) {
    forall i, j :: 0 <= i < j < |keys| ==> AtMost(keys[i], keys[j])
  }

  lemma {:induction false} InsertedKeeps(key: string, keys: seq<string>)
    ensures multiset(Inserted(key, keys)) == multiset(keys) + multiset{key}
    ensures forall x :: x in Inserted(key, keys) ==> x == key || x in keys
  {
    hide AtMost;
    if keys != [] {
      assert keys == [keys[0]] + keys[1..];
      InsertedKeeps(key, keys[1..]);
    }
  }

  lemma {:induction false} InsertedAscends(key: string, keys: seq<string>)
    requires Ascending(keys)
    ensures Ascending(Inserted(key, keys))
  {
    hide AtMost, Ascending;
    if keys == [] {
      OneAscends(key);
    } else {
      AtMostIsTotal(key, keys[0]);
      FrontAscends(keys);
      if AtMost(key, keys[0]) {
        forall x | x in keys
          ensures AtMost(key, x)
        {
          if x != keys[0] {
            AtMostIsTransitive(key, keys[0], x);
          }
        }
        PrefixedAscends(key, keys);
      } else {
        InsertedAscends(key, keys[1..]);
        InsertedKeeps(key, keys[1..]);
        PrefixedAscends(keys[0], Inserted(key, keys[1..]));
      }
    }
  }

  lemma OneAscends(key: string)
    ensures Ascending([]) && Ascending([key]) && [key] + [] == [key]
  {
  }

  lemma FrontAscends(keys: seq<string>)
    requires Ascending(keys) && keys != []
    ensures Ascending(keys[1..]) && forall x :: x in keys[1..] ==> AtMost(keys[0], x)
  {
    hide AtMost;
  }

  lemma PrefixedAscends(key: string, keys: seq<string>)
    requires Ascending(keys) && forall x :: x in keys ==> AtMost(key, x)
    ensures Ascending([key] + keys)
  {
    hide AtMost;
  }

  lemma {:induction false} SortedAscends(keys: seq<string>)
    ensures Ascending(Sorted(keys)) && multiset(Sorted(keys)) == multiset(keys)
  {
    hide Ascending, Inserted;
    if keys == [] {
      OneAscends("");
    } else {
      assert keys == [keys[0]] + keys[1..];
      SortedAscends(keys[1..]);
      InsertedKeeps(keys[0], Sorted(keys[1..]));
      InsertedAscends(keys[0], Sorted(keys[1..]));
    }
  }

  lemma LeastIsFirst(keys: seq<string>, x: string)
    requires Ascending(keys) && x in keys
    ensures AtMost(keys[0], x)
  {
    AtMostIsTotal(x, x);
    hide AtMost;
  }

  lemma SameRest(s: seq<string>, t: seq<string>)
    requires s != [] && t != [] && s[0] == t[0] && multiset(s) == multiset(t)
    ensures multiset(s[1..]) == multiset(t[1..])
  {
    assert s == [s[0]] + s[1..] && t == [t[0]] + t[1..];
    assert multiset(s[1..]) == multiset(s) - multiset{s[0]};
    assert multiset(t[1..]) == multiset(t) - multiset{t[0]};
  }

  lemma SameMembers(s: seq<string>, t: seq<string>)
    requires multiset(s) == multiset(t)
    ensures |s| == |t| && forall x :: x in s <==> x in t
  {
    assert |s| == |multiset(s)| && |t| == |multiset(t)|;
    assert forall x :: x in s <==> x in multiset(s);
    assert forall x :: x in t <==> x in multiset(t);
  }

  lemma {:induction false} AscendingIsUnique(s: seq<string>, t: seq<string>)
    requires Ascending(s) && Ascending(t) && multiset(s) == multiset(t)
    ensures s == t
  {
    hide AtMost, Ascending;
    SameMembers(s, t);
    if s != [] {
      LeastIsFirst(s, t[0]);
      LeastIsFirst(t, s[0]);
      AtMostIsTotal(s[0], t[0]);
      SameRest(s, t);
      FrontAscends(s);
      FrontAscends(t);
      AscendingIsUnique(s[1..], t[1..]);
      assert s == [s[0]] + s[1..] && t == [t[0]] + t[1..];
    }
  }

  /** Sorted lists agree position by position exactly when the same keys occur equally often. */
  lemma SortDecides(s: seq<string>, t: seq<string>)
    ensures Sorted(s) == Sorted(t) <==> multiset(s) == multiset(t)
  {
    hide Ascending, Sorted;
    SortedAscends(s);
    SortedAscends(t);
    if multiset(s) == multiset(t) {
      AscendingIsUnique(Sorted(s), Sorted(t));
    }
  }

  // ---------------------------------------------------------------------------
  // Equality by meaning
  // ---------------------------------------------------------------------------

  /** What a value means: numbers by canonical spelling, objects as maps. */
  datatype Meaning =
    | Plain(v: Value)
    | Spelled(s: string)
    | Items(items: seq<Meaning>)
    | Members(members: map<string, Meaning>)

  function MeaningOf(ns: Numbers, v: Value): Meaning
    decreases v
  {
    match v
    case Number(token) => Spelled(ns.format(token))
    case Array(items) => Items(seq(|items|, i requires 0 <= i < |items| => MeaningOf(ns, items[i])))
    case Object(fields) => Members(MembersOf(ns, fields))
    case _ => Plain(v)
  }

  function MembersOf(ns: Numbers, fields: seq<Field>): map<string, Meaning>
    decreases fields
  {
    if fields == [] then map[] else
    var last := fields[|fields| - 1];
    MembersOf(ns, fields[..|fields| - 1])[last.key := MeaningOf(ns, last.value)]
  }

  lemma LookupPast(fields: seq<Field>)
    requires UniqueKeys(fields) && fields != []
    ensures var last := fields[|fields| - 1];
            && Lookup(fields[..|fields| - 1], last.key) < 0
            && UniqueKeys(fields[..|fields| - 1])
  {
  }

  /** An object's meaning has one member for each field. */
  lemma {:induction false} MembersHold(ns: Numbers, fields: seq<Field>)
    requires UniqueKeys(fields)
    ensures |MembersOf(ns, fields)| == |fields|
    ensures forall key :: key in MembersOf(ns, fields) <==> Lookup(fields, key) >= 0
    ensures forall i :: 0 <= i < |fields| ==>
      fields[i].key in MembersOf(ns, fields) && MembersOf(ns, fields)[fields[i].key] == MeaningOf(ns, fields[i].value)
    decreases |fields|
  {
    if fields != [] {
      var front, last := fields[..|fields| - 1], fields[|fields| - 1];
      assert fields == front + [last];
      MembersHold(ns, front);
      LookupPast(fields);
    }
  }

  lemma {:induction false} SameKeysWhenCovered<V>(m: map<string, V>, n: map<string, V>)
    requires |m| == |n| && forall k :: k in m ==> k in n && m[k] == n[k]
    ensures m == n
  {
    assert m.Keys <= n.Keys && |m.Keys| == |m| && |n.Keys| == |n|;
    SubsetOfSameSize(m.Keys, n.Keys);
  }

  lemma SubsetOfSameSize<T>(s: set<T>, t: set<T>)
    requires s <= t && |s| == |t|
    ensures s == t
  {
    assert t == s + (t - s);
    assert |t| == |s| + |t - s|;
  }

  /** Field by field, two objects agree exactly when their meanings do. */
  ghost predicate FieldsAgree(ns: Numbers, f: seq<Field>, g: seq<Field>) {
    |f| == |g| && forall i :: 0 <= i < |f| ==>
      var j := Lookup(g, f[i].key); j >= 0 && MeaningOf(ns, f[i].value) == MeaningOf(ns, g[j].value)
  }

  lemma FieldsByMeaning(ns: Numbers, f: seq<Field>, g: seq<Field>)
    requires UniqueKeys(f) && UniqueKeys(g)
    ensures FieldsAgree(ns, f, g) <==> MembersOf(ns, f) == MembersOf(ns, g)
  {
    MembersHold(ns, f);
    MembersHold(ns, g);
    var m, n := MembersOf(ns, f), MembersOf(ns, g);
    if FieldsAgree(ns, f, g) {
      forall k | k in m
        ensures k in n && m[k] == n[k]
      {
        var i := Lookup(f, k);
        assert f[i].key == k;
      }
      SameKeysWhenCovered(m, n);
    } else if m == n {
      forall i | 0 <= i < |f|
        ensures var j := Lookup(g, f[i].key); j >= 0 && MeaningOf(ns, f[i].value) == MeaningOf(ns, g[j].value)
      {
        assert f[i].key in m;
      }
    }
  }

  /** `DeepEqual` holds exactly between values of the same meaning, so it is an equivalence. */
  lemma {:induction false} DeepEqualIsSameMeaning(ns: Numbers, a: Value, b: Value)
    requires Agree(ns) && WellFormed(ns, a) && WellFormed(ns, b)
    ensures DeepEqual(ns, a, b) <==> MeaningOf(ns, a) == MeaningOf(ns, b)
    decreases a
  {
    match a
    case Array(items) =>
      if b.Array? {
        forall i | 0 <= i < |items| && i < |b.items|
          ensures DeepEqual(ns, items[i], b.items[i]) <==> MeaningOf(ns, items[i]) == MeaningOf(ns, b.items[i])
        {
          DeepEqualIsSameMeaning(ns, items[i], b.items[i]);
        }
        ItemsByMeaning(ns, items, b.items);
        ArraysByItems(ns, items, b.items);
      }
    case Object(fields) =>
      if b.Object? {
        forall i, j | 0 <= i < |fields| && 0 <= j < |b.fields|
          ensures DeepEqual(ns, fields[i].value, b.fields[j].value) <==>
                  MeaningOf(ns, fields[i].value) == MeaningOf(ns, b.fields[j].value)
        {
          DeepEqualIsSameMeaning(ns, fields[i].value, b.fields[j].value);
        }
        FieldsByMeaning(ns, fields, b.fields);
        assert DeepEqual(ns, a, b) <==> FieldsAgree(ns, fields, b.fields) by {
          ObjectsByFields(ns, fields, b.fields);
        }
        assert MeaningOf(ns, a) == Members(MembersOf(ns, fields)) && MeaningOf(ns, b) == Members(MembersOf(ns, b.fields));
      }
    case _ =>
  }

  lemma ObjectsByFields(ns: Numbers, f: seq<Field>, g: seq<Field>)
    requires forall i, j :: 0 <= i < |f| && 0 <= j < |g| ==>
      (DeepEqual(ns, f[i].value, g[j].value) <==> MeaningOf(ns, f[i].value) == MeaningOf(ns, g[j].value))
    ensures DeepEqual(ns, Object(f), Object(g)) <==> FieldsAgree(ns, f, g)
  {
  }

  ghost predicate ItemsAgree(ns: Numbers, items: seq<Value>, others: seq<Value>) {
    |items| == |others| && forall i :: 0 <= i < |items| ==> MeaningOf(ns, items[i]) == MeaningOf(ns, others[i])
  }

  lemma ArraysByItems(ns: Numbers, items: seq<Value>, others: seq<Value>)
    requires forall i :: 0 <= i < |items| && i < |others| ==>
      (DeepEqual(ns, items[i], others[i]) <==> MeaningOf(ns, items[i]) == MeaningOf(ns, others[i]))
    ensures DeepEqual(ns, Array(items), Array(others)) <==> ItemsAgree(ns, items, others)
  {
  }

  lemma ItemsByMeaning(ns: Numbers, items: seq<Value>, others: seq<Value>)
    ensures MeaningOf(ns, Array(items)) == MeaningOf(ns, Array(others)) <==> ItemsAgree(ns, items, others)
  {
    var s := MeaningOf(ns, Array(items)).items;
    var t := MeaningOf(ns, Array(others)).items;
    assert |s| == |items| && |t| == |others|;
    assert forall i :: 0 <= i < |s| ==> s[i] == MeaningOf(ns, items[i]);
    assert forall i :: 0 <= i < |t| ==> t[i] == MeaningOf(ns, others[i]);
    assert ItemsAgree(ns, items, others) ==> s == t;
  }

  lemma DeepEqualIsEquivalence(ns: Numbers, a: Value, b: Value, c: Value)
    requires Agree(ns) && WellFormed(ns, a) && WellFormed(ns, b) && WellFormed(ns, c)
    ensures DeepEqual(ns, a, a)
    ensures DeepEqual(ns, a, b) ==> DeepEqual(ns, b, a)
    ensures DeepEqual(ns, a, b) && DeepEqual(ns, b, c) ==> DeepEqual(ns, a, c)
  {
    DeepEqualIsSameMeaning(ns, a, a);
    DeepEqualIsSameMeaning(ns, a, b);
    DeepEqualIsSameMeaning(ns, b, a);
    DeepEqualIsSameMeaning(ns, b, c);
    DeepEqualIsSameMeaning(ns, a, c);
  }

  /** Values of different kinds are never equal. */
  lemma KindsDiffer(ns: Numbers, a: Value, b: Value)
    requires DeepEqual(ns, a, b)
    ensures (a.Absent? <==> b.Absent?) && (a.Null? <==> b.Null?) && (a.Bool? <==> b.Bool?) && (a.Number? <==> b.Number?)
    ensures (a.Text? <==> b.Text?) && (a.Array? <==> b.Array?) && (a.Object? <==> b.Object?) && (a.Function? <==> b.Function?)
    ensures a.Bool? ==> a.b == b.b
    ensures a.Text? ==> a.s == b.s
  {
  }

  lemma {:induction false} KeyOccursOnce(fields: seq<Field>, key: string)
    requires UniqueKeys(fields)
    ensures multiset(Keys(fields))[key] == if Lookup(fields, key) >= 0 then 1 else 0
    decreases |fields|
  {
    if fields != [] {
      var front, last := fields[..|fields| - 1], fields[|fields| - 1];
      KeyOccursOnce(front, key);
      assert Keys(fields) == Keys(front) + [last.key];
    }
  }

  lemma KeyListsMatch(ns: Numbers, f: seq<Field>, g: seq<Field>)
    requires UniqueKeys(f) && UniqueKeys(g) && MembersOf(ns, f) == MembersOf(ns, g)
    ensures multiset(Keys(f)) == multiset(Keys(g))
  {
    MembersHold(ns, f);
    MembersHold(ns, g);
    forall key: string
      ensures multiset(Keys(f))[key] == multiset(Keys(g))[key]
    {
      KeyOccursOnce(f, key);
      KeyOccursOnce(g, key);
    }
  }

  /** Functions are compared by identity, or there are none to compare. */
  ghost predicate Comparable(same: (nat, nat) -> bool, a: Value, b: Value) {
    (forall i, j :: same(i, j) <==> i == j) || (FunctionFree(a) && FunctionFree(b))
  }

  lemma ObjectsAlike(ns: Numbers, same: (nat, nat) -> bool, f: seq<Field>, g: seq<Field>)
    requires Agree(ns) && WellFormed(ns, Object(f)) && WellFormed(ns, Object(g))
    requires forall i, j :: 0 <= i < |f| && 0 <= j < |g| ==>
      (IsDeepEqual(ns, same, f[i].value, g[j].value) <==> DeepEqual(ns, f[i].value, g[j].value))
    ensures IsDeepEqual(ns, same, Object(f), Object(g)) <==> DeepEqual(ns, Object(f), Object(g))
  {
    hide Agree, Sorted, UniqueKeys;
    SortDecides(Keys(f), Keys(g));
    if DeepEqual(ns, Object(f), Object(g)) {
      SameObjectKeys(ns, f, g);
    }
  }

  lemma SameObjectKeys(ns: Numbers, f: seq<Field>, g: seq<Field>)
    requires Agree(ns) && WellFormed(ns, Object(f)) && WellFormed(ns, Object(g)) && DeepEqual(ns, Object(f), Object(g))
    ensures multiset(Keys(f)) == multiset(Keys(g))
  {
    hide Agree, UniqueKeys, Keys, DeepEqual;
    DeepEqualIsSameMeaning(ns, Object(f), Object(g));
    KeyListsMatch(ns, f, g);
  }

  /** The engines agree on which values are equal. */
  lemma {:induction false} EnginesCompareAlike(ns: Numbers, same: (nat, nat) -> bool, a: Value, b: Value)
    requires Agree(ns) && WellFormed(ns, a) && WellFormed(ns, b) && Comparable(same, a, b)
    ensures IsDeepEqual(ns, same, a, b) <==> DeepEqual(ns, a, b)
    decreases a
  {
    match a
    case Array(items) =>
      if b.Array? && |items| == |b.items| {
        forall i | 0 <= i < |items|
          ensures IsDeepEqual(ns, same, items[i], b.items[i]) <==> DeepEqual(ns, items[i], b.items[i])
        {
          EnginesCompareAlike(ns, same, items[i], b.items[i]);
        }
      }
    case Object(fields) =>
      if b.Object? {
        forall i, j | 0 <= i < |fields| && 0 <= j < |b.fields|
          ensures IsDeepEqual(ns, same, fields[i].value, b.fields[j].value) <==>
                  DeepEqual(ns, fields[i].value, b.fields[j].value)
        {
          EnginesCompareAlike(ns, same, fields[i].value, b.fields[j].value);
        }
        ObjectsAlike(ns, same, fields, b.fields);
      }
    case _ =>
  }

  // ---------------------------------------------------------------------------
  // Removing duplicates
  // ---------------------------------------------------------------------------

  function GoEqual(ns: Numbers): (Value, Value) -> bool {
    (a, b) => DeepEqual(ns, a, b)
  }

  function JsEqual(ns: Numbers, same: (nat, nat) -> bool): (Value, Value) -> bool {
    (a, b) => IsDeepEqual(ns, same, a, b)
  }

  predicate Among(eq: (Value, Value) -> bool, v: Value, kept: seq<Value>) {
    exists i :: 0 <= i < |kept| && eq(v, kept[i])
  }

  /** The quadratic definition: a value is kept unless it equals one kept before it. */
  function Deduplicated(eq: (Value, Value) -> bool, values: seq<Value>): seq<Value> {
    if values == [] then [] else
    var kept, v := Deduplicated(eq, values[..|values| - 1]), values[|values| - 1];
    if Among(eq, v, kept) then kept else kept + [v]
  }

  /** The kept values are the first of their kind, in order. */
  function FirstOccurrences(eq: (Value, Value) -> bool, values: seq<Value>): seq<Value> {
    if values == [] then [] else
    var front, v := values[..|values| - 1], values[|values| - 1];
    FirstOccurrences(eq, front) + if Among(eq, v, front) then [] else [v]
  }

  /** Comparing with the values kept is comparing with all that came before. */
  lemma {:induction false} KeepsFirstOccurrences(ns: Numbers, values: seq<Value>, v: Value)
    requires Agree(ns) && AllWellFormed(ns, values) && WellFormed(ns, v)
    ensures Among(GoEqual(ns), v, Deduplicated(GoEqual(ns), values)) <==> Among(GoEqual(ns), v, values)
    ensures Deduplicated(GoEqual(ns), values) == FirstOccurrences(GoEqual(ns), values)
    decreases |values|
  {
    hide Agree, WellFormed, DeepEqual, Among;
    if values == [] {
      NothingAmong(GoEqual(ns), v);
    } else {
      var front, last := values[..|values| - 1], values[|values| - 1];
      var eq := GoEqual(ns);
      var kept := Deduplicated(eq, front);
      KeepsFirstOccurrences(ns, front, last);
      KeepsFirstOccurrences(ns, front, v);
      AmongGrows(eq, v, front, last);
      AmongGrows(eq, v, kept, last);
      assert values == front + [last];
      if Among(eq, last, kept) && eq(v, last) {
        DeduplicatedWellFormed(ns, eq, front);
        AmongTransfers(ns, v, last, kept);
      }
    }
  }

  lemma NothingAmong(eq: (Value, Value) -> bool, v: Value)
    ensures !Among(eq, v, [])
  {
  }

  lemma AmongGrows(eq: (Value, Value) -> bool, v: Value, front: seq<Value>, last: Value)
    ensures Among(eq, v, front + [last]) <==> Among(eq, v, front) || eq(v, last)
  {
    var all := front + [last];
    assert all[|front|] == last;
    assert forall i :: 0 <= i < |front| ==> all[i] == front[i];
  }

  /** The positions in order, one for each kept value, of the values that equal none before them. */
  ghost predicate Keeps(eq: (Value, Value) -> bool, values: seq<Value>, at: seq<nat>, kept: seq<Value>) {
    && |at| == |kept|
    && (forall k :: 0 <= k < |at| ==> at[k] < |values| && kept[k] == values[at[k]])
    && (forall j, k :: 0 <= j < k < |at| ==> at[j] < at[k])
    && (forall i: nat :: i in at <==> i < |values| && !Among(eq, values[i], values[..i]))
  }

  lemma KeepsGrow(eq: (Value, Value) -> bool, front: seq<Value>, v: Value, at: seq<nat>, kept: seq<Value>)
    requires Keeps(eq, front, at, kept)
    ensures Among(eq, v, front) ==> Keeps(eq, front + [v], at, kept)
    ensures !Among(eq, v, front) ==> Keeps(eq, front + [v], at + [|front|], kept + [v])
  {
    hide Among;
    var values := front + [v];
    assert values[..|front|] == front;
    forall i: nat
      ensures i < |front| ==> values[i] == front[i] && values[..i] == front[..i]
    {
    }
    assert forall k :: 0 <= k < |at| ==> at[k] < |front| by {
      assert forall k :: 0 <= k < |at| ==> at[k] in at;
    }
  }

  /** What is kept, by position: in order, each value equal to no earlier one, and none missing that is so. */
  lemma {:induction false} KeptByPosition(eq: (Value, Value) -> bool, values: seq<Value>) returns (at: seq<nat>)
    ensures Keeps(eq, values, at, FirstOccurrences(eq, values))
  {
    hide Among, Keeps;
    if values == [] {
      at := [];
      NothingKept(eq);
    } else {
      var front, v := values[..|values| - 1], values[|values| - 1];
      at := KeptByPosition(eq, front);
      KeepsGrow(eq, front, v, at, FirstOccurrences(eq, front));
      assert values == front + [v];
      assert FirstOccurrences(eq, front) + [] == FirstOccurrences(eq, front);
      if !Among(eq, v, front) {
        at := at + [|front|];
      }
    }
  }

  lemma NothingKept(eq: (Value, Value) -> bool)
    ensures Keeps(eq, [], [], [])
  {
  }

  lemma AmongTransfers(ns: Numbers, v: Value, w: Value, kept: seq<Value>)
    requires Agree(ns) && WellFormed(ns, v) && WellFormed(ns, w) && AllWellFormed(ns, kept)
    requires DeepEqual(ns, v, w) && Among(GoEqual(ns), w, kept)
    ensures Among(GoEqual(ns), v, kept)
  {
    var i :| 0 <= i < |kept| && GoEqual(ns)(w, kept[i]);
    DeepEqualIsEquivalence(ns, v, w, kept[i]);
  }

  /** The other engine's loops are the definition, by its own equality. */
  method DistinctByPairs(ns: Numbers, same: (nat, nat) -> bool, arr: seq<Value>) returns (results: seq<Value>)
    ensures results == if |arr| <= 1 then arr else Deduplicated(JsEqual(ns, same), arr)
  {
    if |arr| <= 1 {
      return arr;
    }
    results := [];
    for ii := 0 to |arr|
      invariant results == Deduplicated(JsEqual(ns, same), arr[..ii])
    {
      var value := arr[ii];
      assert arr[..ii + 1][..ii] == arr[..ii];
      var includes, jj := false, 0;
      while jj < |results| && !includes
        invariant 0 <= jj <= |results|
        invariant includes <==> exists i :: 0 <= i < jj && JsEqual(ns, same)(value, results[i])
      {
        if IsDeepEqual(ns, same, value, results[jj]) {
          includes := true;
        }
        jj := jj + 1;
      }
      if !includes {
        results := results + [value];
      }
    }
    assert arr[..|arr|] == arr;
  }

  lemma {:induction false} KeptAreMembers(eq: (Value, Value) -> bool, values: seq<Value>)
    ensures forall v :: v in Deduplicated(eq, values) ==> v in values
  {
    if values != [] {
      KeptAreMembers(eq, values[..|values| - 1]);
    }
  }

  /** So the engines keep the same values. */
  lemma {:induction false} EnginesRemoveAlike(ns: Numbers, same: (nat, nat) -> bool, values: seq<Value>)
    requires Agree(ns) && AllWellFormed(ns, values)
    requires forall a, b :: a in values && b in values ==> Comparable(same, a, b)
    ensures Deduplicated(JsEqual(ns, same), values) == Deduplicated(GoEqual(ns), values)
    decreases |values|
  {
    if values != [] {
      var front, v := values[..|values| - 1], values[|values| - 1];
      assert values == front + [v];
      EnginesRemoveAlike(ns, same, front);
      var kept := Deduplicated(GoEqual(ns), front);
      KeptAreMembers(GoEqual(ns), front);
      forall i | 0 <= i < |kept|
        ensures JsEqual(ns, same)(v, kept[i]) == GoEqual(ns)(v, kept[i])
      {
        assert kept[i] in front && kept[i] in values;
        EnginesCompareAlike(ns, same, v, kept[i]);
      }
    }
  }

  datatype Key = TextKey(s: string) | BoolKey(b: bool) | NumberKey(s: string) | NullKey | AbsentKey

  predicate Simple(v: Value) {
    !v.Array? && !v.Object? && !v.Function?
  }

  function KeyOf(ns: Numbers, v: Value): Key
    requires Simple(v)
  {
    match v
    case Text(s) => TextKey(s)
    case Bool(b) => BoolKey(b)
    case Number(token) => NumberKey(ns.format(token))
    case Null => NullKey
    case Absent => AbsentKey
  }

  /** Hashing decides equality of simple values, and nothing simple equals anything else. */
  lemma KeysDecide(ns: Numbers, a: Value, b: Value)
    requires Agree(ns) && WellFormed(ns, a) && WellFormed(ns, b) && Simple(a)
    ensures DeepEqual(ns, a, b) <==> Simple(b) && KeyOf(ns, a) == KeyOf(ns, b)
  {
  }

  ghost predicate AllWellFormed(ns: Numbers, values: seq<Value>) {
    forall i :: 0 <= i < |values| ==> WellFormed(ns, values[i])
  }

  /** The hashed keys and the compared values are those of the values kept. */
  ghost predicate Tracks(ns: Numbers, seen: set<Key>, complexItems: seq<Value>, kept: seq<Value>) {
    && (forall k :: k in seen <==> exists i :: 0 <= i < |kept| && Simple(kept[i]) && KeyOf(ns, kept[i]) == k)
    && (forall v :: v in complexItems <==> v in kept && !Simple(v))
  }

  lemma TracksSimple(ns: Numbers, seen: set<Key>, complexItems: seq<Value>, kept: seq<Value>, v: Value)
    requires Agree(ns) && Tracks(ns, seen, complexItems, kept) && AllWellFormed(ns, kept) && WellFormed(ns, v) && Simple(v)
    ensures KeyOf(ns, v) in seen <==> Among(GoEqual(ns), v, kept)
    ensures Tracks(ns, seen + {KeyOf(ns, v)}, complexItems, kept + [v])
  {
    forall i | 0 <= i < |kept|
      ensures DeepEqual(ns, v, kept[i]) <==> Simple(kept[i]) && KeyOf(ns, v) == KeyOf(ns, kept[i])
    {
      KeysDecide(ns, v, kept[i]);
    }
    var grown := kept + [v];
    assert grown[|kept|] == v;
    assert forall i :: 0 <= i < |kept| ==> grown[i] == kept[i];
  }

  lemma TracksComplex(ns: Numbers, seen: set<Key>, complexItems: seq<Value>, kept: seq<Value>, v: Value)
    requires Agree(ns) && Tracks(ns, seen, complexItems, kept) && AllWellFormed(ns, kept) && WellFormed(ns, v) && !Simple(v)
    ensures Among(GoEqual(ns), v, complexItems) <==> Among(GoEqual(ns), v, kept)
    ensures Tracks(ns, seen, complexItems + [v], kept + [v])
  {
    forall i | 0 <= i < |kept| && DeepEqual(ns, v, kept[i])
      ensures kept[i] in complexItems
    {
      assert kept[i] in kept;
    }
    forall i | 0 <= i < |complexItems|
      ensures complexItems[i] in kept
    {
      assert complexItems[i] in complexItems;
    }
    var grown := kept + [v];
    assert grown[|kept|] == v;
    assert forall i :: 0 <= i < |kept| ==> grown[i] == kept[i];
  }

  lemma {:induction false} DeduplicatedWellFormed(ns: Numbers, eq: (Value, Value) -> bool, values: seq<Value>)
    requires AllWellFormed(ns, values)
    ensures AllWellFormed(ns, Deduplicated(eq, values))
  {
    if values != [] {
      DeduplicatedWellFormed(ns, eq, values[..|values| - 1]);
    }
  }

  /** An array, or a sequence the evaluator built. */
  datatype Collection = Collection(sequence: bool, values: seq<Value>)

  predicate InvalidNumber(ns: Numbers, v: Value) {
    v.Number? && !ns.valid(v.token)
  }

  /** What the loop has built from the values it has passed. */
  ghost predicate Progress(ns: Numbers, done: seq<Value>, seen: set<Key>, complexItems: seq<Value>, result: seq<Value>) {
    && AllWellFormed(ns, done)
    && result == Deduplicated(GoEqual(ns), done)
    && Tracks(ns, seen, complexItems, result)
  }

  lemma DeduplicatedGrows(ns: Numbers, done: seq<Value>, v: Value)
    requires AllWellFormed(ns, done) && (v.Number? || WellFormed(ns, v)) && !InvalidNumber(ns, v)
    ensures WellFormed(ns, v) && AllWellFormed(ns, done + [v]) && AllWellFormed(ns, Deduplicated(GoEqual(ns), done))
    ensures var kept := Deduplicated(GoEqual(ns), done);
            Deduplicated(GoEqual(ns), done + [v]) == if Among(GoEqual(ns), v, kept) then kept else kept + [v]
  {
    assert (done + [v])[..|done|] == done;
    assert forall i :: 0 <= i < |done| ==> (done + [v])[i] == done[i];
    DeduplicatedWellFormed(ns, GoEqual(ns), done);
  }

  lemma ProgressSimple(ns: Numbers, done: seq<Value>, seen: set<Key>, complexItems: seq<Value>, result: seq<Value>, v: Value)
    requires Agree(ns) && Progress(ns, done, seen, complexItems, result)
    requires (v.Number? || WellFormed(ns, v)) && !InvalidNumber(ns, v) && Simple(v)
    ensures if KeyOf(ns, v) in seen then Progress(ns, done + [v], seen, complexItems, result)
            else Progress(ns, done + [v], seen + {KeyOf(ns, v)}, complexItems, result + [v])
  {
    hide Agree, AllWellFormed, WellFormed, InvalidNumber, Deduplicated, Among, GoEqual, Tracks, KeyOf, Simple;
    DeduplicatedGrows(ns, done, v);
    TracksSimple(ns, seen, complexItems, result, v);
  }

  lemma ProgressComplex(ns: Numbers, done: seq<Value>, seen: set<Key>, complexItems: seq<Value>, result: seq<Value>, v: Value)
    requires Agree(ns) && Progress(ns, done, seen, complexItems, result)
    requires (v.Number? || WellFormed(ns, v)) && !InvalidNumber(ns, v) && !Simple(v)
    ensures if Among(GoEqual(ns), v, complexItems) then Progress(ns, done + [v], seen, complexItems, result)
            else Progress(ns, done + [v], seen, complexItems + [v], result + [v])
  {
    hide Agree, AllWellFormed, WellFormed, InvalidNumber, Deduplicated, Among, GoEqual, Tracks, KeyOf, Simple;
    DeduplicatedGrows(ns, done, v);
    TracksComplex(ns, seen, complexItems, result, v);
  }

  lemma ProgressEnds(ns: Numbers, done: seq<Value>, seen: set<Key>, complexItems: seq<Value>, result: seq<Value>)
    requires Progress(ns, done, seen, complexItems, result)
    ensures result == Deduplicated(GoEqual(ns), done)
    ensures forall i :: 0 <= i < |done| ==> !InvalidNumber(ns, done[i])
  {
    forall i | 0 <= i < |done|
      ensures !InvalidNumber(ns, done[i])
    {
      assert WellFormed(ns, done[i]);
    }
  }

  /**
   Hashing simple values and comparing only the others refines the quadratic definition; among two
   or more values an invalid number is refused, and a sequence stays one.
   */
  method FnDistinct(ns: Numbers, arg: Collection) returns (r: Option<Collection>)
    requires Agree(ns) && forall i :: 0 <= i < |arg.values| ==> arg.values[i].Number? || WellFormed(ns, arg.values[i])
    ensures r == if |arg.values| <= 1 then Some(arg)
                 else if exists i :: 0 <= i < |arg.values| && InvalidNumber(ns, arg.values[i]) then None
                 else Some(Collection(arg.sequence, Deduplicated(GoEqual(ns), arg.values)))
  {
    var arr := arg.values;
    if |arr| <= 1 {
      return Some(arg);
    }
    var result: seq<Value> := [];
    var seen: set<Key> := {};
    var complexItems: seq<Value> := [];
    assert Progress(ns, [], seen, complexItems, result);
    hide *;
    for n := 0 to |arr|
      invariant Progress(ns, arr[..n], seen, complexItems, result)
    {
      var v := arr[n];
      if InvalidNumber(ns, v) {
        return None;
      }
      assert arr[..n + 1] == arr[..n] + [v];
      if Simple(v) {
        ProgressSimple(ns, arr[..n], seen, complexItems, result, v);
        var key := KeyOf(ns, v);
        if key !in seen {
          seen := seen + {key};
          result := result + [v];
        }
      } else {
        ProgressComplex(ns, arr[..n], seen, complexItems, result, v);
        var found := Search(ns, v, complexItems);
        if !found {
          complexItems := complexItems + [v];
          result := result + [v];
        }
      }
    }
    assert arr[..|arr|] == arr;
    ProgressEnds(ns, arr, seen, complexItems, result);
    return Some(Collection(arg.sequence, result));
  }

  method Search(ns: Numbers, v: Value, items: seq<Value>) returns (found: bool)
    ensures found <==> Among(GoEqual(ns), v, items)
  {
    for i := 0 to |items|
      invariant forall j :: 0 <= j < i ==> !GoEqual(ns)(v, items[j])
    {
      if DeepEqual(ns, v, items[i]) {
        assert GoEqual(ns)(v, items[i]);
        return true;
      }
    }
    return false;
  }

  // ---------------------------------------------------------------------------
  // Decimal tokens
  // ---------------------------------------------------------------------------

  /** The decimal kernel; `valid` may be any test that only JSON numbers pass. */
  function DecimalTokens(valid: string -> bool): Numbers {
    Numbers(valid, (x, y) => Decimals.CompareParts(Decimals.PartsOf(x), Decimals.PartsOf(y)), x => Decimals.Format(x))
  }

  /** The decimal kernel's comparison and canonical spelling agree, so hashing by it is sound. */
  lemma TokensAgree(valid: string -> bool)
    requires forall x :: valid(x) ==> Decimals.Valid(x)
    ensures Agree(DecimalTokens(valid))
  {
    var ns := DecimalTokens(valid);
    forall x, y | valid(x) && valid(y)
      ensures ns.compare(x, y) == 0 <==> ns.format(x) == ns.format(y)
    {
      TokenPair(x, y);
    }
  }

  lemma TokenPair(x: string, y: string)
    requires Decimals.Valid(x) && Decimals.Valid(y)
    ensures Decimals.CompareParts(Decimals.PartsOf(x), Decimals.PartsOf(y)) == 0 <==> Decimals.Format(x) == Decimals.Format(y)
  {
    var s: Decimals.Token :| Decimals.Strict(s) && Decimals.Spell(s) == x;
    var t: Decimals.Token :| Decimals.Strict(t) && Decimals.Spell(t) == y;
    Decimals.FormatIsCanonical(s, t);
  }
}
