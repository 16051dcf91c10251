/**
 A ring buffer of plans with a published snapshot, refined to a queue of distinct keys.
 */
module PlanCache {
  import opened Options

  datatype Entry<Plan> = Entry(key: string, plan: Plan)

  // ---------------------------------------------------------------------------
  // The queue it stands for
  // ---------------------------------------------------------------------------

  ghost predicate DistinctKeys<Plan>(q: seq<Entry<Plan>>) {
    forall i, j :: 0 <= i < j < |q| ==> q[i].key != q[j].key
  }

  predicate HasKey<Plan>(q: seq<Entry<Plan>>, key: string) {
    exists i :: 0 <= i < |q| && q[i].key == key
  }

  /** A new key goes to the back, and pushes the oldest out of a full queue; an old one changes nothing. */
  function Put<Plan>(q: seq<Entry<Plan>>, capacity: nat, e: Entry<Plan>): seq<Entry<Plan>> {
    if HasKey(q, e.key) then q
    else if q != [] && |q| >= capacity then q[1..] + [e]
    else q + [e]
  }

  /** The queue stays within its capacity and free of duplicates, keeps its order, and loses its oldest at most. */
  lemma PutKeepsQueue<Plan>(q: seq<Entry<Plan>>, capacity: nat, e: Entry<Plan>)
    requires DistinctKeys(q) && |q| <= capacity && capacity >= 1
    ensures var r := Put(q, capacity, e);
            && DistinctKeys(r) && |r| <= capacity && HasKey(r, e.key)
            && (forall x :: x in r ==> x in q || x == e)
            && (forall i :: 1 <= i < |q| ==> q[i] in r)
            && (q != [] && q[0] !in r ==> |q| == capacity && !HasKey(q, e.key))
  {
    hide DistinctKeys, HasKey;
    if !HasKey(q, e.key) {
      if q != [] && |q| >= capacity {
        FrontLeaves(q);
        BackJoins(q[1..], e);
        assert forall i :: 1 <= i < |q| ==> q[i] == q[1..][i - 1];
      } else {
        BackJoins(q, e);
      }
    }
  }

  lemma FrontLeaves<Plan>(q: seq<Entry<Plan>>)
    requires q != [] && DistinctKeys(q)
    ensures DistinctKeys(q[1..]) && forall key :: HasKey(q[1..], key) ==> HasKey(q, key)
  {
    assert forall i :: 0 <= i < |q| - 1 ==> q[1..][i] == q[i + 1];
  }

  lemma BackJoins<Plan>(q: seq<Entry<Plan>>, e: Entry<Plan>)
    requires DistinctKeys(q) && !HasKey(q, e.key)
    ensures DistinctKeys(q + [e]) && HasKey(q + [e], e.key)
    ensures forall x :: x in q + [e] <==> x in q || x == e
  {
    assert (q + [e])[|q|] == e;
  }

  /** The operations of a run: a write, or the clearing of the cache. */
  datatype Op<Plan> = Write(entry: Entry<Plan>) | Clear

  function Queue<Plan>(ops: seq<Op<Plan>>, capacity: nat): seq<Entry<Plan>> {
    if ops == [] then [] else
    var before := Queue(ops[..|ops| - 1], capacity);
    match ops[|ops| - 1]
    case Write(e) => Put(before, capacity, e)
    case Clear => []
  }

  function Writes<Plan>(es: seq<Entry<Plan>>): (ops: seq<Op<Plan>>)
    ensures |ops| == |es| && forall i :: 0 <= i < |es| ==> ops[i] == Write(es[i])
  {
    seq(|es|, i requires 0 <= i < |es| => Write(es[i]))
  }

  /** Entries with different keys fill the queue in order, and of too many the last ones stay; clearing leaves none. */
  lemma {:induction false} WritesFillTheQueue<Plan>(es: seq<Entry<Plan>>, capacity: nat)
    requires DistinctKeys(es) && capacity >= 1
    ensures Queue(Writes(es), capacity) == Newest(es, capacity)
    ensures Queue(Writes(es) + [Clear], capacity) == []
    decreases |es|
  {
    hide Put, DistinctKeys, HasKey;
    assert (Writes(es) + [Clear])[|es|] == Clear;
    if es != [] {
      var front, e := es[..|es| - 1], es[|es| - 1];
      assert Writes(es)[..|es| - 1] == Writes(front);
      FrontIsDistinct(es);
      WritesFillTheQueue(front, capacity);
      PutOfLast(front, e, capacity);
      assert es == front + [e];
    }
  }

  lemma FrontIsDistinct<Plan>(es: seq<Entry<Plan>>)
    requires DistinctKeys(es) && es != []
    ensures DistinctKeys(es[..|es| - 1]) && !HasKey(es[..|es| - 1], es[|es| - 1].key)
  {
  }

  function Newest<Plan>(es: seq<Entry<Plan>>, capacity: nat): seq<Entry<Plan>> {
    es[if |es| > capacity then |es| - capacity else 0..]
  }

  lemma PutOfLast<Plan>(front: seq<Entry<Plan>>, e: Entry<Plan>, capacity: nat)
    requires !HasKey(front, e.key) && capacity >= 1
    ensures Put(Newest(front, capacity), capacity, e) == Newest(front + [e], capacity)
  {
    var q := Newest(front, capacity);
    assert !HasKey(q, e.key);
  }

  lemma {:induction false} QueueIsBounded<Plan>(ops: seq<Op<Plan>>, capacity: nat)
    requires capacity >= 1
    ensures DistinctKeys(Queue(ops, capacity)) && |Queue(ops, capacity)| <= capacity
    ensures forall e :: e in Queue(ops, capacity) ==> Write(e) in ops
  {
    if ops != [] {
      var front, last := ops[..|ops| - 1], ops[|ops| - 1];
      QueueIsBounded(front, capacity);
      assert ops == front + [last];
      if last.Write? {
        PutKeepsQueue(Queue(front, capacity), capacity, last.entry);
      }
    }
  }

  // ---------------------------------------------------------------------------
  // The ring
  // ---------------------------------------------------------------------------

  /** Where the i-th oldest of `count` entries lies when the next goes to `head`. */
  function Slot(head: nat, count: nat, capacity: nat, i: nat): nat
    requires head < capacity && count <= capacity && i <= count
  {
    (head - count + i + capacity) % capacity
  }

  lemma SlotIs(head: nat, count: nat, capacity: nat, i: nat)
    requires head < capacity && count <= capacity && i <= count
    ensures var x := head - count + i;
            Slot(head, count, capacity, i) == if x < 0 then x + capacity else x
  {
    var x := head - count + i;
    if x < 0 {
      Small(x + capacity, capacity);
    } else {
      Wraps(x, capacity);
    }
  }

  lemma Small(x: nat, c: nat)
    requires x < c
    ensures x % c == x
  {
  }

  lemma Wraps(x: nat, c: nat)
    requires x < c
    ensures (x + c) % c == x
  {
    var d := (x + c) / c - 1;
    assert x == d * c + (x + c) % c;
    assert d > 0 ==> d * c >= c;
    assert d < 0 ==> d * c <= 0 - c;
  }

  lemma NextHead(head: nat, capacity: nat)
    requires head < capacity
    ensures (head + 1) % capacity == if head + 1 == capacity then 0 else head + 1
  {
    if head + 1 < capacity {
      Small(head + 1, capacity);
    }
  }

  /** The ring holds the queue, oldest first. */
  ghost predicate Holds<Plan>(ring: seq<Option<Entry<Plan>>>, head: nat, q: seq<Entry<Plan>>) {
    && 0 < |ring| && head < |ring| && |q| <= |ring|
    && forall i :: 0 <= i < |q| ==> ring[Slot(head, |q|, |ring|, i)] == Some(q[i])
  }

  lemma WriteAdvances<Plan>(ring: seq<Option<Entry<Plan>>>, head: nat, q: seq<Entry<Plan>>, e: Entry<Plan>)
    requires Holds(ring, head, q) && !HasKey(q, e.key)
    ensures var capacity := |ring|;
            Holds(ring[head := Some(e)], (head + 1) % capacity, Put(q, capacity, e))
  {
    var capacity := |ring|;
    var ring', head', r := ring[head := Some(e)], (head + 1) % capacity, Put(q, capacity, e);
    NextHead(head, capacity);
    forall i | 0 <= i < |r|
      ensures ring'[Slot(head', |r|, capacity, i)] == Some(r[i])
    {
      SlotIs(head', |r|, capacity, i);
      var old_i := if |q| == capacity then i + 1 else i;
      if i < |r| - 1 {
        SlotIs(head, |q|, capacity, old_i);
        assert r[i] == q[old_i];
      }
    }
  }

  /** The published index: each key's position in the snapshot, and nothing else. */
  ghost predicate Indexes<Plan>(index: map<string, nat>, q: seq<Entry<Plan>>) {
    && (forall i :: 0 <= i < |q| ==> q[i].key in index && index[q[i].key] == i)
    && (forall k :: k in index ==> index[k] < |q| && q[index[k]].key == k)
  }

  class Cache<Plan(==)> {
    const capacity: nat
    const entries: array<Option<Entry<Plan>>>
    var head: nat
    var count: nat
    var snapshot: seq<Entry<Plan>>
    var index: map<string, nat>
    var hits: nat
    var misses: nat
    var evictions: nat

    ghost predicate Valid()
      reads this, entries
    {
      && entries.Length == capacity && count == |snapshot|
      && Holds(entries[..], head, snapshot)
      && DistinctKeys(snapshot) && Indexes(index, snapshot)
    }

    constructor (size: int)
      ensures Valid() && fresh(entries)
      ensures capacity == (if size <= 0 then 1 else size) && snapshot == []
      ensures hits == misses == evictions == 0
    {
      capacity := if size <= 0 then 1 else size;
      entries := new Option<Entry<Plan>>[if size <= 0 then 1 else size](_ => None);
      head, count, snapshot, index := 0, 0, [], map[];
      hits, misses, evictions := 0, 0, 0;
    }

    /** Finds exactly the keys in the queue. */
    method Get(key: string) returns (plan: Option<Plan>)
      requires Valid()
      modifies this`hits, this`misses
      ensures Valid()
      ensures if HasKey(snapshot, key) then plan.Some? && Entry(key, plan.value) in snapshot else plan == None
      ensures hits == old(hits) + (if HasKey(snapshot, key) then 1 else 0)
      ensures misses == old(misses) + (if HasKey(snapshot, key) then 0 else 1)
    {
      if key in index {
        var i := index[key];
        assert snapshot[i].key == key;
        hits := hits + 1;
        return Some(snapshot[i].plan);
      }
      misses := misses + 1;
      return None;
    }

    /** Writes as the queue does, and tells whether the oldest entry went. */
    method Set(key: string, plan: Plan) returns (evicted: bool)
      requires Valid()
      modifies this`head, this`count, this`snapshot, this`index, this`evictions, entries
      ensures Valid()
      ensures snapshot == Put(old(snapshot), capacity, Entry(key, plan))
      ensures evicted <==> !HasKey(old(snapshot), key) && |old(snapshot)| == capacity
      ensures evictions == old(evictions) + if evicted then 1 else 0
    {
      if key in index {
        assert snapshot[index[key]].key == key;
        return false;
      }
      assert !HasKey(snapshot, key);
      ghost var queue := Put(snapshot, capacity, Entry(key, plan));
      PutKeepsQueue(snapshot, capacity, Entry(key, plan));
      evicted := count >= capacity;
      if evicted {
        evictions := evictions + 1;
      }
      Write(Entry(key, plan));
      snapshot, index := Publish(queue);
    }

    /** Puts an entry at the head of the ring. */
    method Write(e: Entry<Plan>)
      requires Valid() && !HasKey(snapshot, e.key)
      modifies this`head, this`count, entries
      ensures Holds(entries[..], head, Put(snapshot, capacity, e)) && count == |Put(snapshot, capacity, e)|
    {
      ghost var ring := entries[..];
      WriteAdvances(ring, head, snapshot, e);
      entries[head] := Some(e);
      assert entries[..] == ring[head := Some(e)];
      head := (head + 1) % capacity;
      if count < capacity {
        count := count + 1;
      }
    }

    /** Reads the ring from the oldest entry on. */
    method Publish(ghost queue: seq<Entry<Plan>>) returns (newEntries: seq<Entry<Plan>>, newIndex: map<string, nat>)
      requires entries.Length == capacity && count == |queue| && Holds(entries[..], head, queue) && DistinctKeys(queue)
      ensures newEntries == queue && Indexes(newIndex, queue)
    {
      newEntries, newIndex := [], map[];
      for i := 0 to count
        invariant newEntries == queue[..i] && Indexes(newIndex, queue[..i])
      {
        assert entries[..][Slot(head, count, capacity, i)] == Some(queue[i]);
        var idx := (head - count + i + capacity) % capacity;
        var e := entries[idx].value;
        newEntries := newEntries + [e];
        newIndex := newIndex[e.key := i];
      }
      assert queue[..count] == queue;
    }

    method Invalidate()
      requires Valid()
      modifies this`head, this`count, this`snapshot, this`index, entries
      ensures Valid() && snapshot == []
      ensures forall i :: 0 <= i < entries.Length ==> entries[i] == None
    {
      for i := 0 to entries.Length
        modifies entries
        invariant forall j :: 0 <= j < i ==> entries[j] == None
      {
        entries[i] := None;
      }
      head, count, snapshot, index := 0, 0, [], map[];
    }
  }
}
