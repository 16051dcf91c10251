/**
 A bounded cache of compiled programs shared by many callers.

 A call looks its key up under the lock, compiles outside it, and inserts under the lock again; between
 those steps other calls may do anything. The executor and the regex boundary both use this protocol.
 */
module CompileCache {
  import opened Options

  /** What a caller asks for, and the program compiled from it; `serial` tells compilations apart. */
  datatype Program<R> = Program(request: R, serial: nat)

  /** The compiled programs by key, and the keys from the oldest on. */
  datatype Store<R> = Store(compiled: map<string, Program<R>>, keys: seq<string>)

  datatype Phase<R> =
    | Asked(request: R)
    | Missed(request: R)
    | Compiled(request: R, program: Program<R>)
    | Returned(request: R, program: Program<R>)
    | Failed(request: R)

  datatype State<R> = State(store: Store<R>, calls: seq<Phase<R>>, serials: nat)

  /** The parts the protocol leaves open: the cache key, which requests compile, and the bound. */
  datatype Spec<!R> = Spec(key: R -> string, compiles: R -> bool, limit: nat)

  ghost predicate Injective<R(!new)>(sp: Spec<R>) {
    forall r, s :: sp.key(r) == sp.key(s) ==> r == s
  }

  // ---------------------------------------------------------------------------
  // The two critical sections
  // ---------------------------------------------------------------------------

  function Lookup<R>(store: Store<R>, key: string): Option<Program<R>> {
    if key in store.compiled then Some(store.compiled[key]) else None
  }

  /** A full store loses its oldest program. */
  function Trimmed<R>(store: Store<R>, limit: nat): Store<R>
    requires limit >= 1
  {
    if |store.keys| == limit then Store(store.compiled - {store.keys[0]}, store.keys[1..]) else store
  }

  /** The store after an insertion, and the program the caller gets: the one already there wins. */
  function Insert<R>(store: Store<R>, limit: nat, key: string, program: Program<R>): (Store<R>, Program<R>)
    requires limit >= 1
  {
    if key in store.compiled then (store, store.compiled[key]) else
    var trimmed := Trimmed(store, limit);
    (Store(trimmed.compiled[key := program], trimmed.keys + [key]), program)
  }

  ghost predicate Sound<R(!new)>(sp: Spec<R>, store: Store<R>) {
    && (forall i, j :: 0 <= i < j < |store.keys| ==> store.keys[i] != store.keys[j])
    && (forall k :: k in store.keys <==> k in store.compiled)
    && |store.keys| <= sp.limit
    && (forall k :: k in store.compiled ==> sp.key(store.compiled[k].request) == k && sp.compiles(store.compiled[k].request))
  }

  lemma InsertKeepsStore<R(!new)>(sp: Spec<R>, store: Store<R>, program: Program<R>)
    requires sp.limit >= 1 && Sound(sp, store) && sp.compiles(program.request)
    ensures var key := sp.key(program.request);
            var (after, result) := Insert(store, sp.limit, key, program);
            && Sound(sp, after) && Lookup(after, key) == Some(result) && sp.key(result.request) == key
            && sp.compiles(result.request)
  {
    hide Sound, Trimmed;
    var key := sp.key(program.request);
    StoredIsSound(sp, store, key);
    if key !in store.compiled {
      TrimmedIsSound(sp, store);
      AddedIsSound(sp, Trimmed(store, sp.limit), key, program);
    }
  }

  lemma StoredIsSound<R(!new)>(sp: Spec<R>, store: Store<R>, k: string)
    requires Sound(sp, store)
    ensures k in store.compiled ==> sp.key(store.compiled[k].request) == k && sp.compiles(store.compiled[k].request)
  {
  }

  lemma TrimmedIsSound<R(!new)>(sp: Spec<R>, store: Store<R>)
    requires sp.limit >= 1 && Sound(sp, store)
    ensures var trimmed := Trimmed(store, sp.limit);
            && Sound(sp, trimmed) && |trimmed.keys| < sp.limit
            && forall k :: k in trimmed.compiled ==> k in store.compiled
  {
    if |store.keys| == sp.limit {
      assert store.keys == [store.keys[0]] + store.keys[1..];
    }
  }

  lemma AddedIsSound<R(!new)>(sp: Spec<R>, store: Store<R>, key: string, program: Program<R>)
    requires Sound(sp, store) && |store.keys| < sp.limit && key !in store.compiled
    requires sp.key(program.request) == key && sp.compiles(program.request)
    ensures Sound(sp, Store(store.compiled[key := program], store.keys + [key]))
  {
    assert key !in store.keys;
  }

  /** Insertion in order, eviction of the oldest: nothing else leaves. */
  lemma InsertEvictsOldest<R(!new)>(sp: Spec<R>, store: Store<R>, program: Program<R>, k: string)
    requires sp.limit >= 1 && Sound(sp, store) && k in store.compiled
    ensures var (after, _) := Insert(store, sp.limit, sp.key(program.request), program);
            k !in after.compiled ==> k == store.keys[0] && |store.keys| == sp.limit && sp.key(program.request) !in store.compiled
    ensures var (after, _) := Insert(store, sp.limit, sp.key(program.request), program);
            k in after.compiled ==> after.compiled[k] == store.compiled[k]
  {
  }

  /** The cache as an object: the two sections the lock protects. */
  class Cache<R> {
    const limit: nat
    var compiled: map<string, Program<R>>
    var keys: seq<string>

    function View(): Store<R>
      reads this
    {
      Store(compiled, keys)
    }

    constructor (limit: nat)
      ensures this.limit == limit && View() == Store(map[], [])
    {
      this.limit := limit;
      compiled, keys := map[], [];
    }

    method Find(key: string) returns (program: Option<Program<R>>)
      ensures program == Lookup(View(), key)
    {
      return if key in compiled then Some(compiled[key]) else None;
    }

    method Add(key: string, program: Program<R>) returns (result: Program<R>)
      requires limit >= 1
      modifies this
      ensures (View(), result) == Insert(old(View()), limit, key, program)
    {
      if key in compiled {
        return compiled[key];
      }
      if |keys| == limit {
        compiled := compiled - {keys[0]};
        keys := keys[1..];
      }
      keys := keys + [key];
      compiled := compiled[key := program];
      return program;
    }
  }

  // ---------------------------------------------------------------------------
  // Interleavings
  // ---------------------------------------------------------------------------

  datatype Event<R> = Call(request: R) | Advance(call: nat)

  /** One atomic step of one call. */
  function Step<R>(sp: Spec<R>, s: State<R>, e: Event<R>): State<R>
    requires sp.limit >= 1
  {
    match e
    case Call(request) => s.(calls := s.calls + [Asked(request)])
    case Advance(call) =>
      if call >= |s.calls| then s else
      match s.calls[call]
      case Asked(r) =>
        var found := Lookup(s.store, sp.key(r));
        s.(calls := s.calls[call := if found.Some? then Returned(r, found.value) else Missed(r)])
      case Missed(r) =>
        if sp.compiles(r) then
          s.(calls := s.calls[call := Compiled(r, Program(r, s.serials))], serials := s.serials + 1)
        else s.(calls := s.calls[call := Failed(r)])
      case Compiled(r, program) =>
        var (store, result) := Insert(s.store, sp.limit, sp.key(r), program);
        s.(store := store, calls := s.calls[call := Returned(r, result)])
      case Returned(_, _) => s
      case Failed(_) => s
  }

  /** What each call holds belongs to its own request. */
  ghost predicate Proper<R(!new)>(sp: Spec<R>, p: Phase<R>) {
    match p
    case Compiled(r, program) => program.request == r && sp.compiles(r)
    case Returned(r, program) => program.request == r && sp.compiles(r)
    case Failed(r) => !sp.compiles(r)
    case _ => true
  }

  ghost predicate Inv<R(!new)>(sp: Spec<R>, s: State<R>) {
    Sound(sp, s.store) && forall i :: 0 <= i < |s.calls| ==> Proper(sp, s.calls[i])
  }

  lemma StepKeepsInv<R(!new)>(sp: Spec<R>, s: State<R>, e: Event<R>)
    requires sp.limit >= 1 && Injective(sp) && Inv(sp, s)
    ensures Inv(sp, Step(sp, s, e))
  {
    if e.Advance? && e.call < |s.calls| {
      assert Proper(sp, s.calls[e.call]);
      if s.calls[e.call].Compiled? {
        InsertKeepsStore(sp, s.store, s.calls[e.call].program);
      }
    }
  }

  function Run<R>(sp: Spec<R>, events: seq<Event<R>>): State<R>
    requires sp.limit >= 1
  {
    if events == [] then State(Store(map[], []), [], 0)
    else Step(sp, Run(sp, events[..|events| - 1]), events[|events| - 1])
  }

  /** In every interleaving the store is sound, and what a call returns was compiled from what it asked for. */
  lemma {:induction false} EveryRunIsSound<R(!new)>(sp: Spec<R>, events: seq<Event<R>>)
    requires sp.limit >= 1 && Injective(sp)
    ensures Inv(sp, Run(sp, events))
  {
    if events != [] {
      EveryRunIsSound(sp, events[..|events| - 1]);
      StepKeepsInv(sp, Run(sp, events[..|events| - 1]), events[|events| - 1]);
    }
  }

  // ---------------------------------------------------------------------------
  // Sharing
  // ---------------------------------------------------------------------------

  function RunFrom<R>(sp: Spec<R>, s: State<R>, events: seq<Event<R>>): State<R>
    requires sp.limit >= 1
    decreases |events|
  {
    if events == [] then s else RunFrom(sp, Step(sp, s, events[0]), events[1..])
  }

  /** The key is never evicted on the way. */
  predicate StaysCached<R>(sp: Spec<R>, s: State<R>, events: seq<Event<R>>, key: string)
    requires sp.limit >= 1
    decreases |events|
  {
    key in s.store.compiled && (events == [] || StaysCached(sp, Step(sp, s, events[0]), events[1..], key))
  }

  function Result<R>(s: State<R>, call: nat): Option<Program<R>> {
    if call < |s.calls| && s.calls[call].Returned? then Some(s.calls[call].program) else None
  }

  lemma StepShares<R>(sp: Spec<R>, s: State<R>, e: Event<R>, key: string, call: nat)
    requires sp.limit >= 1 && key in s.store.compiled && key in Step(sp, s, e).store.compiled
    ensures Step(sp, s, e).store.compiled[key] == s.store.compiled[key]
    ensures var s1 := Step(sp, s, e);
            Result(s1, call).Some? && sp.key(s1.calls[call].request) == key ==>
              Result(s1, call) == if Result(s, call).Some? then Result(s, call) else Some(s.store.compiled[key])
  {
    if e.Advance? && e.call < |s.calls| && s.calls[e.call].Compiled? && sp.key(s.calls[e.call].request) !in s.store.compiled {
      assert key != sp.key(s.calls[e.call].request);
    }
  }

  lemma ResultStands<R>(sp: Spec<R>, s: State<R>, e: Event<R>, call: nat)
    requires sp.limit >= 1 && Result(s, call).Some?
    ensures Result(Step(sp, s, e), call) == Result(s, call)
    ensures Step(sp, s, e).calls[call].request == s.calls[call].request
  {
  }

  /** While a key stays cached, every call for it that comes to an end returns the one cached program. */
  lemma {:induction false} CallersShare<R>(sp: Spec<R>, s: State<R>, events: seq<Event<R>>, key: string, call: nat)
    requires sp.limit >= 1 && StaysCached(sp, s, events, key)
    requires Result(s, call).None?
    ensures var last := RunFrom(sp, s, events);
            Result(last, call).Some? && sp.key(last.calls[call].request) == key ==>
              Result(last, call) == Some(s.store.compiled[key])
    decreases |events|
  {
    if events != [] {
      var s1 := Step(sp, s, events[0]);
      StepShares(sp, s, events[0], key, call);
      if Result(s1, call).None? {
        CallersShare(sp, s1, events[1..], key, call);
      } else {
        ResultsStand(sp, s1, events[1..], call);
      }
    }
  }

  lemma {:induction false} ResultsStand<R>(sp: Spec<R>, s: State<R>, events: seq<Event<R>>, call: nat)
    requires sp.limit >= 1 && Result(s, call).Some?
    ensures var last := RunFrom(sp, s, events);
            Result(last, call) == Result(s, call) && last.calls[call].request == s.calls[call].request
    decreases |events|
  {
    if events != [] {
      ResultStands(sp, s, events[0], call);
      ResultsStand(sp, Step(sp, s, events[0]), events[1..], call);
    }
  }

  /** And the cached program itself stays the same. */
  lemma {:induction false} CachedStands<R>(sp: Spec<R>, s: State<R>, events: seq<Event<R>>, key: string)
    requires sp.limit >= 1 && StaysCached(sp, s, events, key)
    ensures var last := RunFrom(sp, s, events);
            key in last.store.compiled && last.store.compiled[key] == s.store.compiled[key]
    decreases |events|
  {
    if events != [] {
      StepShares(sp, s, events[0], key, 0);
      CachedStands(sp, Step(sp, s, events[0]), events[1..], key);
    }
  }

  // ---------------------------------------------------------------------------
  // The two instances
  // ---------------------------------------------------------------------------

  /** The executor's cache is keyed by the expression itself. */
  lemma ExecutorKeysAreInjective(compiles: string -> bool, limit: nat)
    ensures Injective(Spec((e: string) => e, compiles, limit))
  {
  }

  datatype Regex = Regex(pattern: string, flags: string)

  /** The flags a regex may carry: each of g, i and m at most once. */
  predicate ValidFlags(flags: string) {
    && (forall i :: 0 <= i < |flags| ==> flags[i] in {'g', 'i', 'm'})
    && (forall i, j :: 0 <= i < j < |flags| ==> flags[i] != flags[j])
  }

  /** The check runs flag by flag, against the flags seen. */
  method CheckFlags(flags: string) returns (ok: bool)
    ensures ok <==> ValidFlags(flags)
  {
    var seen: set<char> := {};
    for i := 0 to |flags|
      invariant ValidFlags(flags[..i]) && seen == set k | 0 <= k < i :: flags[k]
    {
      assert flags[..i + 1] == flags[..i] + [flags[i]];
      if flags[i] in seen {
        return false;
      }
      seen := seen + {flags[i]};
      if flags[i] !in {'g', 'i', 'm'} {
        return false;
      }
    }
    assert flags[..|flags|] == flags;
    return true;
  }

  function RegexKey(r: Regex): string {
    r.flags + ":" + r.pattern
  }

  /** Valid flags hold no colon, so a key gives back both flags and pattern. */
  lemma RegexKeysAreInjective(r: Regex, s: Regex)
    requires ValidFlags(r.flags) && ValidFlags(s.flags) && RegexKey(r) == RegexKey(s)
    ensures r == s
  {
    var k := RegexKey(r);
    var a, b := |r.flags|, |s.flags|;
    assert k[a] == ':' && k[b] == ':';
    assert forall i :: 0 <= i < a ==> k[i] == r.flags[i];
    assert forall i :: 0 <= i < b ==> k[i] == s.flags[i];
    assert a == b;
    assert r.flags == k[..a] && s.flags == k[..b] && r.pattern == k[a + 1..] && s.pattern == k[b + 1..];
  }

  /** Requests of the regex cache: the flags have been checked. */
  type ValidRegex = r: Regex | ValidFlags(r.flags) witness Regex("", "")

  lemma RegexCacheIsInjective(compiles: ValidRegex -> bool, limit: nat)
    ensures Injective(Spec((r: ValidRegex) => RegexKey(r), compiles, limit))
  {
    var sp := Spec((r: ValidRegex) => RegexKey(r), compiles, limit);
    forall r: ValidRegex, s: ValidRegex | sp.key(r) == sp.key(s)
      ensures r == s
    {
      RegexKeysAreInjective(r, s);
    }
  }

  /** Executor: in every interleaving at most `limit` expressions are cached, and each call returns its own expression compiled. */
  lemma ExecutorIsSound(compiles: string -> bool, limit: nat, events: seq<Event<string>>, call: nat)
    requires limit >= 1
    ensures var sp := Spec((e: string) => e, compiles, limit);
            var s := Run(sp, events);
            && |s.store.keys| <= limit
            && (forall k :: k in s.store.compiled ==> s.store.compiled[k].request == k)
            && (Result(s, call).Some? ==> Result(s, call).value.request == s.calls[call].request && compiles(s.calls[call].request))
  {
    var sp := Spec((e: string) => e, compiles, limit);
    ExecutorKeysAreInjective(compiles, limit);
    EveryRunIsSound(sp, events);
    if Result(Run(sp, events), call).Some? {
      ReturnsItsOwn(sp, events, call);
    }
  }

  /** Regex boundary: the same with at most 32 programs, each for its own flags and pattern. */
  lemma RegexCacheIsSound(compiles: ValidRegex -> bool, events: seq<Event<ValidRegex>>, call: nat)
    ensures var sp := Spec((r: ValidRegex) => RegexKey(r), compiles, 32);
            var s := Run(sp, events);
            && |s.store.keys| <= 32
            && (forall k :: k in s.store.compiled ==> RegexKey(s.store.compiled[k].request) == k)
            && (Result(s, call).Some? ==> Result(s, call).value.request == s.calls[call].request && compiles(s.calls[call].request))
  {
    var sp := Spec((r: ValidRegex) => RegexKey(r), compiles, 32);
    RegexCacheIsInjective(compiles, 32);
    EveryRunIsSound(sp, events);
    if Result(Run(sp, events), call).Some? {
      ReturnsItsOwn(sp, events, call);
    }
  }

  lemma ReturnsItsOwn<R(!new)>(sp: Spec<R>, events: seq<Event<R>>, call: nat)
    requires sp.limit >= 1 && Injective(sp) && Result(Run(sp, events), call).Some?
    ensures var s := Run(sp, events);
            Result(s, call).value.request == s.calls[call].request && sp.compiles(s.calls[call].request)
  {
    EveryRunIsSound(sp, events);
    assert Proper(sp, Run(sp, events).calls[call]);
  }

  // ---------------------------------------------------------------------------
  // One call
  // ---------------------------------------------------------------------------

  /** A new call starts behind the others and touches nothing. */
  lemma NewCallsAsk<R>(sp: Spec<R>, s: State<R>, r: R)
    requires sp.limit >= 1
    ensures var s1 := Step(sp, s, Call(r));
            s1.calls == s.calls + [Asked(r)] && s1.store == s.store && s1.serials == s.serials
  {
  }

  /** A cached program is returned at once: nothing is compiled and the store stays as it is. */
  lemma HitsCompileNothing<R>(sp: Spec<R>, s: State<R>, call: nat, r: R)
    requires sp.limit >= 1 && call < |s.calls| && s.calls[call] == Asked(r) && sp.key(r) in s.store.compiled
    ensures Step(sp, s, Advance(call)) == s.(calls := s.calls[call := Returned(r, s.store.compiled[sp.key(r)])])
  {
  }

  /** Left alone a call ends in three steps: a miss compiles once, and what does not compile fails and is not cached. */
  lemma CallsEnd<R>(sp: Spec<R>, s: State<R>, call: nat, r: R)
    requires sp.limit >= 1 && call < |s.calls| && s.calls[call] == Asked(r) && sp.key(r) !in s.store.compiled
    ensures var s3 := Step(sp, Step(sp, Step(sp, s, Advance(call)), Advance(call)), Advance(call));
            && (!sp.compiles(r) ==> s3.calls == s.calls[call := Failed(r)] && s3.store == s.store && s3.serials == s.serials)
            && (sp.compiles(r) ==>
                  && s3.calls == s.calls[call := Returned(r, Program(r, s.serials))] && s3.serials == s.serials + 1
                  && sp.key(r) in s3.store.compiled && s3.store.compiled[sp.key(r)] == Program(r, s.serials)
                  && s3.store.keys == (if |s.store.keys| == sp.limit then s.store.keys[1..] else s.store.keys) + [sp.key(r)])
  {
  }

  /** An ended call stays as it ended, and no step touches another call. */
  lemma EndedCallsStand<R>(sp: Spec<R>, s: State<R>, e: Event<R>, call: nat)
    requires sp.limit >= 1 && call < |s.calls|
    ensures s.calls[call].Returned? || s.calls[call].Failed? || e != Advance(call) ==>
              |Step(sp, s, e).calls| > call && Step(sp, s, e).calls[call] == s.calls[call]
  {
  }

  /** Without the check on flags two different regexes would share a key. */
  lemma UncheckedFlagsCollide()
    ensures RegexKey(Regex("b:c", "a")) == RegexKey(Regex("c", "a:b"))
  {
    assert RegexKey(Regex("b:c", "a")) == "a:b:c";
    assert RegexKey(Regex("c", "a:b")) == "a:b:c";
  }
}
