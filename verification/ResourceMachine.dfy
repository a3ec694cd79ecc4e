/**
 * Every interleaving of operations on a `ResourceCache`: one step is one locked section, one
 * completion of a future, or one action of `_close_futures`, which runs outside the lock.
 */
module ResourceMachine {
  import opened Wrappers
  import opened Collections
  import opened OrderedDicts
  import opened Eviction
  import opened Resources

  /** Where `_close_futures` stands with the first future of its list. */
  datatype Stage = Test | Dispose | Register

  /**
   * A call in progress. A creator publishes its outcome, runs the callbacks that became due
   * and then enters its final locked section. `Closing([], Test)` has nothing left to do.
   */
  datatype Thread =
    | Waiting(f: FutureId, key: Key)
    | Creating(f: FutureId, key: Key)
    | Publishing(f: FutureId, key: Key, due: nat)
    | Closing(todo: seq<FutureId>, stage: Stage)

  datatype State = State(cache: Cache, threads: seq<Thread>)

  datatype Step =
    | GetOrCreate(key: Key)
    | ReturnResult(t: nat)
    | CompleteBuild(t: nat, ok: bool)
    | RunCallback(t: nat)
    | FinishBuild(t: nat)
    | Invalidate(key: Key)
    | CloseAll
    | TestDone(t: nat)
    | CloseNow(t: nat)
    | RegisterCallback(t: nat)

  const IDLE := Closing([], Test)

  predicate Enabled(s: State, step: Step) {
    match step
    case GetOrCreate(_) => true
    case Invalidate(_) => true
    case CloseAll => true
    case ReturnResult(t) => t < |s.threads| && s.threads[t].Waiting? && Done(s.cache, s.threads[t].f)
    case CompleteBuild(t, _) =>
      t < |s.threads| && s.threads[t].Creating? && s.threads[t].f < |s.cache.futures|
    case RunCallback(t) =>
      t < |s.threads| && s.threads[t].Publishing? && s.threads[t].due > 0 && s.threads[t].f < |s.cache.futures|
    case FinishBuild(t) =>
      t < |s.threads| && s.threads[t].Publishing? && s.threads[t].due == 0 && s.threads[t].f < |s.cache.futures|
    case TestDone(t) => AtHead(s, t, Test)
    case CloseNow(t) => AtHead(s, t, Dispose)
    case RegisterCallback(t) => AtHead(s, t, Register)
  }

  predicate AtHead(s: State, t: nat, stage: Stage) {
    && t < |s.threads| && s.threads[t].Closing? && s.threads[t].stage == stage
    && s.threads[t].todo != [] && s.threads[t].todo[0] < |s.cache.futures|
  }

  function Next(s: State, step: Step): State
    requires Enabled(s, step)
  {
    match step
    case GetOrCreate(key) =>
      var (cache, f, creator) := Join(s.cache, key);
      State(cache, s.threads + [if creator then Creating(f, key) else Waiting(f, key)])
    case ReturnResult(t) => s.(threads := s.threads[t := IDLE])
    case CompleteBuild(t, ok) =>
      var (cache, due) := Complete(s.cache, s.threads[t].f, ok);
      State(cache, s.threads[t := Publishing(s.threads[t].f, s.threads[t].key, due)])
    case RunCallback(t) =>
      var p := s.threads[t];
      State(CloseCompleted(s.cache, p.f), s.threads[t := p.(due := p.due - 1)])
    case FinishBuild(t) =>
      var p := s.threads[t];
      if s.cache.futures[p.f].outcome.Ready? then
        var (cache, detached) := Settle(s.cache, p.f, p.key);
        State(cache, s.threads[t := Closing(detached, Test)])
      else State(Withdraw(s.cache, p.f, p.key), s.threads[t := IDLE])
    case Invalidate(key) =>
      var (cache, popped) := Pop(s.cache, key);
      State(cache, s.threads + [Closing(popped, Test)])
    case CloseAll =>
      var (cache, popped) := PopAll(s.cache);
      State(cache, s.threads + [Closing(popped, Test)])
    case TestDone(t) =>
      var p := s.threads[t];
      s.(threads := s.threads[t := p.(stage := if Done(s.cache, p.todo[0]) then Dispose else Register)])
    case CloseNow(t) =>
      var p := s.threads[t];
      State(CloseCompleted(s.cache, p.todo[0]), s.threads[t := Closing(p.todo[1..], Test)])
    case RegisterCallback(t) =>
      var p := s.threads[t];
      State(AddCallback(s.cache, p.todo[0]), s.threads[t := Closing(p.todo[1..], Test)])
  }

  ghost predicate Follows(states: seq<State>, steps: seq<Step>, i: nat) {
    i < |steps| && i + 1 < |states| && Enabled(states[i], steps[i]) && states[i + 1] == Next(states[i], steps[i])
  }

  /** A run from the empty cache. */
  ghost predicate IsRun(max: nat, states: seq<State>, steps: seq<Step>) {
    && |states| == |steps| + 1 && states[0] == State(Empty(max), [])
    && forall i {:trigger Follows(states, steps, i)} :: 0 <= i < |steps| ==> Follows(states, steps, i)
  }

  // ---- obligations to close ------------------------------------------------------------------

  /** How often a thread still has to hand `f` to `_close_completed`. */
  function Owes(p: Thread, f: FutureId): nat {
    match p
    case Publishing(g, _, due) => if f == g then due else 0
    case Closing(todo, _) => multiset(todo)[f]
    case _ => 0
  }

  function Owed(threads: seq<Thread>, f: FutureId): nat {
    if threads == [] then 0 else Owed(threads[..|threads| - 1], f) + Owes(threads[|threads| - 1], f)
  }

  lemma {:induction false} OwedUpdate(threads: seq<Thread>, t: nat, p: Thread, f: FutureId)
    requires t < |threads|
    ensures Owed(threads[t := p], f) + Owes(threads[t], f) == Owed(threads, f) + Owes(p, f)
  {
    var n := |threads| - 1;
    if t < n {
      OwedUpdate(threads[..n], t, p, f);
      assert threads[t := p][..n] == threads[..n][t := p];
    } else {
      assert threads[t := p][..n] == threads[..n];
    }
  }

  lemma OwedAppend(threads: seq<Thread>, p: Thread, f: FutureId)
    ensures Owed(threads + [p], f) == Owed(threads, f) + Owes(p, f)
  {
    assert (threads + [p])[..|threads|] == threads;
  }

  function Registered(c: Cache, f: FutureId): nat {
    if f < |c.futures| then c.futures[f].callbacks else 0
  }

  /** Where the one obligation to dispose of a future is: its entry, a thread, a callback, or fulfilled. */
  function Account(s: State, f: FutureId): nat {
    Values(s.cache.entries)[f] + Owed(s.threads, f) + Registered(s.cache, f) + s.cache.discharged[f]
  }

  // ---- the invariant ---------------------------------------------------------------------------

  predicate Creates(p: Thread, f: FutureId) {
    (p.Creating? || p.Publishing?) && p.f == f
  }

  ghost predicate HasCreator(threads: seq<Thread>, f: FutureId) {
    exists i :: 0 <= i < |threads| && Creates(threads[i], f)
  }

  /** Each future has exactly one creator until that creator has left its final locked section. */
  ghost predicate CreatorsInv(s: State) {
    && (forall i, j, f: FutureId :: 0 <= i < j < |s.threads| && Creates(s.threads[i], f) ==> !Creates(s.threads[j], f))
    && (forall f: FutureId :: HasCreator(s.threads, f) ==> f < |s.cache.futures| && f !in s.cache.settled)
    && (forall f: FutureId :: f < |s.cache.futures| && f !in s.cache.settled ==> HasCreator(s.threads, f))
    && (forall f :: f in s.cache.settled ==> Done(s.cache, f))
  }

  ghost predicate ThreadInv(c: Cache, p: Thread) {
    match p
    case Waiting(f, key) => f < |c.futures|
    case Creating(f, key) => f < |c.futures| && c.futures[f].outcome.Building?
    case Publishing(f, key, _) => Done(c, f)
    case Closing(todo, stage) => (todo == [] ==> stage == Test) && (stage == Dispose ==> Done(c, todo[0]))
  }

  /** An attached future stands under its creator's key. */
  ghost predicate KeyInv(c: Cache, p: Thread) {
    p.Creating? || p.Publishing? ==> forall k :: (k, p.f) in c.entries ==> k == p.key
  }

  /** Closing happened exactly for the discharged futures that hold a resource. */
  ghost predicate FutureInv(c: Cache, f: FutureId) {
    && c.closes[f] == (if f < |c.futures| && c.futures[f].outcome.Ready? then c.discharged[f] else 0)
    && (f < |c.futures| && c.futures[f].outcome.Building? ==> c.discharged[f] == 0)
    && (Registered(c, f) > 0 ==> c.futures[f].outcome.Building?)
  }

  /** Each future's one obligation is in one place, and its closing agrees with it. */
  ghost predicate BalancedAt(s: State, f: FutureId) {
    Account(s, f) == (if f < |s.cache.futures| then 1 else 0) && FutureInv(s.cache, f)
  }

  ghost predicate Balanced(s: State) {
    forall f: FutureId :: BalancedAt(s, f)
  }

  ghost predicate FailedInv(c: Cache) {
    forall k, f :: (k, f) in c.entries && f in c.settled ==> f < |c.futures| && !c.futures[f].outcome.Failed?
  }

  /** The entries whose creator has finished its final locked section. */
  function SettledEntries(c: Cache): set<(Key, FutureId)> {
    set e | e in c.entries && e.1 in c.settled
  }

  ghost predicate ThreadsInv(s: State) {
    forall i :: 0 <= i < |s.threads| ==> ThreadInv(s.cache, s.threads[i]) && KeyInv(s.cache, s.threads[i])
  }

  ghost predicate Inv(s: State) {
    && DistinctKeys(s.cache.entries)
    && Balanced(s)
    && CreatorsInv(s)
    && ThreadsInv(s)
    && FailedInv(s.cache)
    && |SettledEntries(s.cache)| <= s.cache.maxEntries
  }

  // ---- every step keeps it -----------------------------------------------------------------------

  /** A future that is not attached under any key has no value in the dictionary, and conversely. */
  lemma AttachedOnce(s: State, k: Key, f: FutureId)
    requires BalancedAt(s, f)
    ensures (k, f) in s.cache.entries ==>
              && Values(s.cache.entries)[f] == 1 && f < |s.cache.futures|
              && s.cache.discharged[f] == 0 && Registered(s.cache, f) == 0 && Owed(s.threads, f) == 0
    ensures (k, f) in s.cache.entries ==> forall k' :: (k', f) in s.cache.entries && DistinctKeys(s.cache.entries) ==> k' == k
  {
    ValueOccurs(s.cache.entries, f);
    if (k, f) in s.cache.entries {
      forall k' | (k', f) in s.cache.entries && DistinctKeys(s.cache.entries) ensures k' == k {
        if k' != k {
          TwoKeysTwice(s.cache.entries, k, k', f);
        }
      }
    }
  }

  lemma TwoKeysTwice(d: Dict<Key, FutureId>, k: Key, k': Key, f: FutureId)
    requires DistinctKeys(d) && (k, f) in d && (k', f) in d && k != k'
    ensures Values(d)[f] >= 2
  {
    KeyOf(d, (k, f));
    RemoveValues(d, k);
    assert (k', f) in Remove(d, k);
    ValueOccurs(Remove(d, k), f);
  }

  /** Replacing a thread by one that creates the same future, or none instead of none. */
  lemma CreatorsUpdate(threads: seq<Thread>, t: nat, p: Thread)
    requires t < |threads|
    requires forall f: FutureId :: Creates(p, f) <==> Creates(threads[t], f)
    ensures forall f: FutureId :: HasCreator(threads[t := p], f) <==> HasCreator(threads, f)
    ensures forall i, f: FutureId :: 0 <= i < |threads| ==> (Creates(threads[t := p][i], f) <==> Creates(threads[i], f))
  {
    forall f: FutureId ensures HasCreator(threads[t := p], f) <==> HasCreator(threads, f) {
      if i :| 0 <= i < |threads| && Creates(threads[i], f) {
        assert Creates(threads[t := p][i], f);
      }
      if HasCreator(threads[t := p], f) {
        var i :| 0 <= i < |threads[t := p]| && Creates(threads[t := p][i], f);
        assert Creates(threads[i], f);
      }
    }
  }

  lemma CreatorsAppend(threads: seq<Thread>, p: Thread)
    ensures forall f: FutureId :: HasCreator(threads + [p], f) <==> HasCreator(threads, f) || Creates(p, f)
  {
    forall f: FutureId ensures HasCreator(threads + [p], f) <==> HasCreator(threads, f) || Creates(p, f) {
      if i :| 0 <= i < |threads| && Creates(threads[i], f) {
        assert Creates((threads + [p])[i], f);
      }
      if Creates(p, f) {
        assert Creates((threads + [p])[|threads|], f);
      }
    }
  }

  /** A locked section that attaches nothing, entered by a new call that creates nothing. */
  lemma NewCallKeepsInv(s: State, s': State, p: Thread)
    requires Inv(s) && Balanced(s') && s'.threads == s.threads + [p]
    requires (p.Waiting? || p.Closing?) && ThreadInv(s'.cache, p)
    requires s'.cache.futures == s.cache.futures && s'.cache.settled == s.cache.settled
    requires s'.cache.maxEntries == s.cache.maxEntries
    requires DistinctKeys(s'.cache.entries) && forall e :: e in s'.cache.entries ==> e in s.cache.entries
    ensures Inv(s')
  {
    CreatorsAppend(s.threads, p);
    forall i | 0 <= i < |s.threads| ensures ThreadInv(s'.cache, s.threads[i]) && KeyInv(s'.cache, s.threads[i]) {
      assert ThreadInv(s.cache, s.threads[i]) && KeyInv(s.cache, s.threads[i]);
    }
    SubsetSize(SettledEntries(s'.cache), SettledEntries(s.cache));
  }

  lemma NewCallBalanced(s: State, s': State, p: Thread, f: FutureId)
    requires BalancedAt(s, f) && s'.threads == s.threads + [p]
    requires s'.cache.futures == s.cache.futures && s'.cache.discharged == s.cache.discharged
    requires s'.cache.closes == s.cache.closes
    requires Values(s.cache.entries)[f] == Values(s'.cache.entries)[f] + Owes(p, f)
    ensures BalancedAt(s', f)
  {
    OwedAppend(s.threads, p, f);
  }

  lemma JoinExistingKeepsInv(s: State, key: Key)
    requires Inv(s) && HasKey(s.cache.entries, key)
    ensures Inv(Next(s, GetOrCreate(key)))
  {
    var s' := Next(s, GetOrCreate(key));
    var p := Waiting(Get(s.cache.entries, key).value, key);
    MoveToEndKeeps(s.cache.entries, key);
    assert BalancedAt(s, p.f);
    AttachedOnce(s, key, p.f);
    forall f: FutureId ensures BalancedAt(s', f) {
      assert BalancedAt(s, f);
      NewCallBalanced(s, s', p, f);
    }
    NewCallKeepsInv(s, s', p);
  }

  lemma PopShrinks(c: Cache, key: Key)
    requires DistinctKeys(c.entries)
    ensures var (c', popped) := Pop(c, key);
            DistinctKeys(c'.entries) && forall e :: e in c'.entries ==> e in c.entries
  {
    if HasKey(c.entries, key) {
      RemoveKeepsKeys(c.entries, key);
    }
  }

  lemma PopValues(c: Cache, key: Key, f: FutureId)
    requires DistinctKeys(c.entries)
    ensures var (c', popped) := Pop(c, key);
            Values(c.entries)[f] == Values(c'.entries)[f] + multiset(popped)[f]
  {
    if HasKey(c.entries, key) {
      RemoveValues(c.entries, key);
    }
  }

  lemma InvalidateKeepsInv(s: State, key: Key)
    requires Inv(s)
    ensures Inv(Next(s, Invalidate(key)))
  {
    hide Get, Remove, Owed, CreatorsInv, ThreadsInv, FailedInv, SettledEntries, FutureInv;
    var s' := Next(s, Invalidate(key));
    var p := s'.threads[|s.threads|];
    PopShrinks(s.cache, key);
    forall f: FutureId ensures BalancedAt(s', f) {
      assert BalancedAt(s, f);
      PopValues(s.cache, key, f);
      NewCallBalanced(s, s', p, f);
    }
    NewCallKeepsInv(s, s', p);
  }

  lemma CloseAllKeepsInv(s: State)
    requires Inv(s)
    ensures Inv(Next(s, CloseAll))
  {
    var s' := Next(s, CloseAll);
    var p := s'.threads[|s.threads|];
    FuturesOfValues(s.cache.entries);
    forall f: FutureId ensures BalancedAt(s', f) {
      assert BalancedAt(s, f);
      NewCallBalanced(s, s', p, f);
    }
    NewCallKeepsInv(s, s', p);
  }

  /** A step of one call that leaves entries, outcomes and creators alone. */
  lemma QuietKeepsInv(s: State, s': State, t: nat, p: Thread)
    requires Inv(s) && Balanced(s') && t < |s.threads| && s'.threads == s.threads[t := p]
    requires forall f: FutureId :: Creates(p, f) <==> Creates(s.threads[t], f)
    requires ThreadInv(s'.cache, p) && KeyInv(s'.cache, p)
    requires |s'.cache.futures| == |s.cache.futures| && s'.cache.settled == s.cache.settled
    requires forall f :: 0 <= f < |s.cache.futures| ==> s'.cache.futures[f].outcome == s.cache.futures[f].outcome
    requires s'.cache.entries == s.cache.entries && s'.cache.maxEntries == s.cache.maxEntries
    ensures Inv(s')
  {
    CreatorsUpdate(s.threads, t, p);
    forall i | 0 <= i < |s.threads| && i != t ensures ThreadInv(s'.cache, s.threads[i]) && KeyInv(s'.cache, s.threads[i]) {
      assert ThreadInv(s.cache, s.threads[i]) && KeyInv(s.cache, s.threads[i]);
    }
    assert SettledEntries(s'.cache) == SettledEntries(s.cache);
  }

  lemma ReturnKeepsInv(s: State, t: nat)
    requires Inv(s) && Enabled(s, ReturnResult(t))
    ensures Inv(Next(s, ReturnResult(t)))
  {
    var s' := Next(s, ReturnResult(t));
    forall f: FutureId ensures BalancedAt(s', f) {
      assert BalancedAt(s, f);
      OwedUpdate(s.threads, t, IDLE, f);
    }
    QuietKeepsInv(s, s', t, IDLE);
  }

  lemma RunCallbackKeepsInv(s: State, t: nat)
    requires Inv(s) && Enabled(s, RunCallback(t))
    ensures Inv(Next(s, RunCallback(t)))
  {
    var s' := Next(s, RunCallback(t));
    assert ThreadInv(s.cache, s.threads[t]) && KeyInv(s.cache, s.threads[t]);
    forall f: FutureId ensures BalancedAt(s', f) {
      assert BalancedAt(s, f);
      DischargeBalanced(s, s', t, s.threads[t].f, f);
    }
    QuietKeepsInv(s, s', t, s'.threads[t]);
  }

  /** A call hands a completed future to `_close_completed` and owes it once less. */
  lemma DischargeBalanced(s: State, s': State, t: nat, done: FutureId, f: FutureId)
    requires BalancedAt(s, f) && t < |s.threads| && t < |s'.threads| && s'.threads == s.threads[t := s'.threads[t]]
    requires Done(s.cache, done) && s'.cache == CloseCompleted(s.cache, done)
    requires Owes(s.threads[t], f) == Owes(s'.threads[t], f) + if f == done then 1 else 0
    ensures BalancedAt(s', f)
  {
    OwedUpdate(s.threads, t, s'.threads[t], f);
  }

  lemma TestDoneKeepsInv(s: State, t: nat)
    requires Inv(s) && Enabled(s, TestDone(t))
    ensures Inv(Next(s, TestDone(t)))
  {
    var s' := Next(s, TestDone(t));
    forall f: FutureId ensures BalancedAt(s', f) {
      assert BalancedAt(s, f);
      OwedUpdate(s.threads, t, s'.threads[t], f);
    }
    QuietKeepsInv(s, s', t, s'.threads[t]);
  }

  lemma OwesRest(todo: seq<FutureId>, stage: Stage, f: FutureId)
    requires todo != []
    ensures Owes(Closing(todo, stage), f) == Owes(Closing(todo[1..], Test), f) + if f == todo[0] then 1 else 0
  {
    assert todo == [todo[0]] + todo[1..];
  }

  lemma CloseNowKeepsInv(s: State, t: nat)
    requires Inv(s) && Enabled(s, CloseNow(t))
    ensures Inv(Next(s, CloseNow(t)))
  {
    var s' := Next(s, CloseNow(t));
    assert ThreadInv(s.cache, s.threads[t]);
    forall f: FutureId ensures BalancedAt(s', f) {
      assert BalancedAt(s, f);
      OwesRest(s.threads[t].todo, s.threads[t].stage, f);
      DischargeBalanced(s, s', t, s.threads[t].todo[0], f);
    }
    QuietKeepsInv(s, s', t, s'.threads[t]);
  }

  lemma RegisterKeepsInv(s: State, t: nat)
    requires Inv(s) && Enabled(s, RegisterCallback(t))
    ensures Inv(Next(s, RegisterCallback(t)))
  {
    var s' := Next(s, RegisterCallback(t));
    var head := s.threads[t].todo[0];
    forall f: FutureId ensures BalancedAt(s', f) {
      assert BalancedAt(s, f);
      OwesRest(s.threads[t].todo, s.threads[t].stage, f);
      if Done(s.cache, head) {
        DischargeBalanced(s, s', t, head, f);
      } else {
        OwedUpdate(s.threads, t, s'.threads[t], f);
      }
    }
    QuietKeepsInv(s, s', t, s'.threads[t]);
  }

  lemma JoinNewBalanced(s: State, key: Key, f: FutureId)
    requires BalancedAt(s, f) && DistinctKeys(s.cache.entries) && !HasKey(s.cache.entries, key)
    ensures BalancedAt(Next(s, GetOrCreate(key)), f)
  {
    hide Evict, Owed, Get, MoveToEnd, Values, DistinctKeys;
    var next: FutureId := |s.cache.futures|;
    var s' := Next(s, GetOrCreate(key));
    AppendKeeps(s.cache.entries, key, next);
    OwedAppend(s.threads, Creating(next, key), f);
    assert Registered(s'.cache, f) == Registered(s.cache, f);
    assert Values(s'.cache.entries)[f] == Values(s.cache.entries)[f] + if f == next then 1 else 0;
  }

  lemma JoinNewCreators(s: State, key: Key)
    requires CreatorsInv(s) && !HasKey(s.cache.entries, key)
    ensures CreatorsInv(Next(s, GetOrCreate(key)))
  {
    CreatorsAppend(s.threads, Creating(|s.cache.futures|, key));
    assert !HasCreator(s.threads, |s.cache.futures|);
  }

  lemma JoinNewKeepsInv(s: State, key: Key)
    requires Inv(s) && !HasKey(s.cache.entries, key)
    ensures Inv(Next(s, GetOrCreate(key)))
  {
    var s' := Next(s, GetOrCreate(key));
    var next: FutureId := |s.cache.futures|;
    AppendKeeps(s.cache.entries, key, next);
    forall f: FutureId ensures BalancedAt(s', f) {
      assert BalancedAt(s, f);
      JoinNewBalanced(s, key, f);
    }
    JoinNewCreators(s, key);
    assert BalancedAt(s, next);
    forall k ensures (k, next) !in s.cache.entries {
      AttachedOnce(s, k, next);
    }
    JoinNewKeepsThreads(s, key);
    assert next !in s.cache.settled;
    assert SettledEntries(s'.cache) == SettledEntries(s.cache);
  }

  lemma JoinNewKeepsThreads(s: State, key: Key)
    requires ThreadsInv(s) && !HasKey(s.cache.entries, key)
    requires forall k :: (k, |s.cache.futures|) !in s.cache.entries
    ensures ThreadsInv(Next(s, GetOrCreate(key)))
  {
    var s' := Next(s, GetOrCreate(key));
    forall i | 0 <= i < |s.threads| ensures ThreadInv(s'.cache, s.threads[i]) && KeyInv(s'.cache, s.threads[i]) {
      assert ThreadInv(s.cache, s.threads[i]) && KeyInv(s.cache, s.threads[i]);
    }
  }

  lemma CompleteBalanced(s: State, t: nat, ok: bool, f: FutureId)
    requires BalancedAt(s, f) && Enabled(s, CompleteBuild(t, ok)) && ThreadInv(s.cache, s.threads[t])
    ensures BalancedAt(Next(s, CompleteBuild(t, ok)), f)
  {
    OwedUpdate(s.threads, t, Next(s, CompleteBuild(t, ok)).threads[t], f);
  }

  lemma CompleteKeepsInv(s: State, t: nat, ok: bool)
    requires Inv(s) && Enabled(s, CompleteBuild(t, ok))
    ensures Inv(Next(s, CompleteBuild(t, ok)))
  {
    var s' := Next(s, CompleteBuild(t, ok));
    var f := s.threads[t].f;
    forall g: FutureId ensures BalancedAt(s', g) {
      assert BalancedAt(s, g) && ThreadInv(s.cache, s.threads[t]);
      CompleteBalanced(s, t, ok, g);
    }
    CreatorsUpdate(s.threads, t, s'.threads[t]);
    assert Creates(s.threads[t], f);
    forall i | 0 <= i < |s'.threads| ensures ThreadInv(s'.cache, s'.threads[i]) && KeyInv(s'.cache, s'.threads[i]) {
      assert ThreadInv(s.cache, s.threads[i]) && KeyInv(s.cache, s.threads[i]);
      assert i != t ==> !Creates(s.threads[i], f);
    }
    assert HasCreator(s.threads, f);
    assert SettledEntries(s'.cache) == SettledEntries(s.cache);
  }

  /** The creator of `f` becomes a call that creates nothing. */
  lemma CreatorLeaves(s: State, t: nat, p: Thread)
    requires CreatorsInv(s) && t < |s.threads| && (s.threads[t].Creating? || s.threads[t].Publishing?)
    requires p.Closing?
    ensures forall g: FutureId :: HasCreator(s.threads[t := p], g) <==> HasCreator(s.threads, g) && g != s.threads[t].f
  {
    var f := s.threads[t].f;
    assert Creates(s.threads[t], f);
    forall g: FutureId ensures HasCreator(s.threads[t := p], g) <==> HasCreator(s.threads, g) && g != f {
      if HasCreator(s.threads[t := p], g) {
        var i :| 0 <= i < |s.threads| && Creates(s.threads[t := p][i], g);
        assert i != t && Creates(s.threads[i], g);
        assert g != f;
      }
      if HasCreator(s.threads, g) && g != f {
        var i :| 0 <= i < |s.threads| && Creates(s.threads[i], g);
        assert Creates(s.threads[t := p][i], g);
      }
    }
  }

  /** A creator's final locked section: it attaches nothing and settles its future. */
  lemma FinalSectionKeepsInv(s: State, s': State, t: nat, p: Thread)
    requires Inv(s) && Balanced(s') && t < |s.threads| && s'.threads == s.threads[t := p]
    requires s.threads[t].Publishing? && p.Closing? && ThreadInv(s'.cache, p)
    requires s'.cache.futures == s.cache.futures && s'.cache.settled == s.cache.settled + {s.threads[t].f}
    requires s'.cache.maxEntries == s.cache.maxEntries
    requires DistinctKeys(s'.cache.entries) && forall e :: e in s'.cache.entries ==> e in s.cache.entries
    requires FailedInv(s'.cache) && |SettledEntries(s'.cache)| <= s'.cache.maxEntries
    ensures Inv(s')
  {
    CreatorLeaves(s, t, p);
    assert ThreadInv(s.cache, s.threads[t]);
    forall i | 0 <= i < |s.threads| && i != t ensures ThreadInv(s'.cache, s.threads[i]) && KeyInv(s'.cache, s.threads[i]) {
      assert ThreadInv(s.cache, s.threads[i]) && KeyInv(s.cache, s.threads[i]);
    }
    forall i, j, g: FutureId | 0 <= i < j < |s'.threads| && Creates(s'.threads[i], g) ensures !Creates(s'.threads[j], g) {
      assert Creates(s.threads[i], g);
    }
  }

  /** What the eviction of a settling creator leaves behind. */
  lemma SettleSection(c: Cache, f: FutureId, key: Key)
    requires DistinctKeys(c.entries)
    ensures var (c', detached) := Settle(c, f, key);
            && DistinctKeys(c'.entries) && (forall e :: e in c'.entries ==> e in c.entries)
            && Values(c.entries) == Values(c'.entries) + multiset(detached)
            && (|c'.entries| <= c.maxEntries || NoneIdle(c'.entries, DoneFutures(c.futures)))
  {
    var touched := if Get(c.entries, key) == Some(f) then MoveToEnd(c.entries, key) else c.entries;
    if Get(c.entries, key) == Some(f) {
      MoveToEndKeeps(c.entries, key);
    }
    EvictKeepsKeys(touched, DoneFutures(c.futures), Excess(touched, c.maxEntries));
    EvictKeepsValues(touched, DoneFutures(c.futures), Excess(touched, c.maxEntries));
    var cut := EvictsOldest(touched, DoneFutures(c.futures), Excess(touched, c.maxEntries));
  }

  lemma SettleBalanced(s: State, t: nat, g: FutureId)
    requires BalancedAt(s, g) && Enabled(s, FinishBuild(t)) && s.cache.futures[s.threads[t].f].outcome.Ready?
    requires DistinctKeys(s.cache.entries)
    ensures BalancedAt(Next(s, FinishBuild(t)), g)
  {
    SettleSection(s.cache, s.threads[t].f, s.threads[t].key);
    OwedUpdate(s.threads, t, Next(s, FinishBuild(t)).threads[t], g);
  }

  lemma SettleKeepsInv(s: State, t: nat)
    requires Inv(s) && Enabled(s, FinishBuild(t)) && s.cache.futures[s.threads[t].f].outcome.Ready?
    ensures Inv(Next(s, FinishBuild(t)))
  {
    hide Evict, Owed, Get, MoveToEnd, FutureInv, Values, DistinctKeys;
    var s' := Next(s, FinishBuild(t));
    var p := s'.threads[t];
    SettleSection(s.cache, s.threads[t].f, s.threads[t].key);
    assert ThreadInv(s.cache, s.threads[t]);
    forall g: FutureId ensures BalancedAt(s', g) {
      assert BalancedAt(s, g);
      SettleBalanced(s, t, g);
    }
    SettledWithinBound(s'.cache);
    FinalSectionKeepsInv(s, s', t, p);
  }

  lemma SettledWithinBound(c: Cache)
    requires |c.entries| <= c.maxEntries || NoneIdle(c.entries, DoneFutures(c.futures))
    requires forall f :: f in c.settled ==> Done(c, f)
    ensures |SettledEntries(c)| <= c.maxEntries
  {
    if |c.entries| <= c.maxEntries {
      PairsFit(c.entries);
      SubsetSize(SettledEntries(c), Elements(c.entries));
    } else {
      forall e | e in c.entries ensures e.1 !in c.settled {
        var i :| 0 <= i < |c.entries| && c.entries[i] == e;
      }
      assert SettledEntries(c) == {};
    }
  }

  lemma WithdrawSection(c: Cache, f: FutureId, key: Key)
    requires DistinctKeys(c.entries) && forall k :: (k, f) in c.entries ==> k == key
    ensures var c' := Withdraw(c, f, key);
            DistinctKeys(c'.entries) && forall e :: e in c'.entries <==> e in c.entries && e.1 != f
  {
    if Get(c.entries, key) == Some(f) {
      RemoveKeepsKeys(c.entries, key);
    }
    forall e | e in c.entries ensures e in Withdraw(c, f, key).entries <==> e.1 != f {
      KeyOf(c.entries, e);
    }
  }

  lemma WithdrawValues(c: Cache, f: FutureId, key: Key, g: FutureId)
    requires DistinctKeys(c.entries)
    ensures var c' := Withdraw(c, f, key);
            && Values(c.entries)[g] + c.discharged[g] == Values(c'.entries)[g] + c'.discharged[g]
            && (g != f ==> c'.discharged[g] == c.discharged[g])
  {
    if Get(c.entries, key) == Some(f) {
      RemoveValues(c.entries, key);
    }
  }

  lemma WithdrawBalanced(s: State, s': State, t: nat, g: FutureId)
    requires BalancedAt(s, g) && t < |s.threads| && s'.threads == s.threads[t := IDLE]
    requires s.threads[t].Publishing? && s.threads[t].due == 0
    requires s'.cache.futures == s.cache.futures && s'.cache.closes == s.cache.closes
    requires Values(s.cache.entries)[g] + s.cache.discharged[g] == Values(s'.cache.entries)[g] + s'.cache.discharged[g]
    requires g == s.threads[t].f ==> g < |s.cache.futures| && s.cache.futures[g].outcome.Failed?
    requires g != s.threads[t].f ==> s'.cache.discharged[g] == s.cache.discharged[g]
    ensures BalancedAt(s', g)
  {
    OwedUpdate(s.threads, t, IDLE, g);
  }

  lemma WithdrawKeepsInv(s: State, t: nat)
    requires Inv(s) && Enabled(s, FinishBuild(t)) && !s.cache.futures[s.threads[t].f].outcome.Ready?
    ensures Inv(Next(s, FinishBuild(t)))
  {
    var s' := Next(s, FinishBuild(t));
    assert ThreadInv(s.cache, s.threads[t]) && KeyInv(s.cache, s.threads[t]);
    WithdrawSection(s.cache, s.threads[t].f, s.threads[t].key);
    forall g: FutureId ensures BalancedAt(s', g) {
      assert BalancedAt(s, g);
      WithdrawValues(s.cache, s.threads[t].f, s.threads[t].key, g);
      WithdrawBalanced(s, s', t, g);
    }
    SubsetSize(SettledEntries(s'.cache), SettledEntries(s.cache));
    FinalSectionKeepsInv(s, s', t, IDLE);
  }

  lemma NextKeepsInv(s: State, step: Step)
    requires Inv(s) && Enabled(s, step)
    ensures Inv(Next(s, step))
  {
    hide Inv, Next, Enabled;
    match step
    case GetOrCreate(key) =>
      if HasKey(s.cache.entries, key) {
        JoinExistingKeepsInv(s, key);
      } else {
        JoinNewKeepsInv(s, key);
      }
    case ReturnResult(t) => ReturnKeepsInv(s, t);
    case CompleteBuild(t, ok) => CompleteKeepsInv(s, t, ok);
    case RunCallback(t) => RunCallbackKeepsInv(s, t);
    case FinishBuild(t) => FinishKeepsInv(s, t);
    case Invalidate(key) => InvalidateKeepsInv(s, key);
    case CloseAll => CloseAllKeepsInv(s);
    case TestDone(t) => TestDoneKeepsInv(s, t);
    case CloseNow(t) => CloseNowKeepsInv(s, t);
    case RegisterCallback(t) => RegisterKeepsInv(s, t);
  }

  lemma FinishKeepsInv(s: State, t: nat)
    requires Inv(s) && Enabled(s, FinishBuild(t))
    ensures Inv(Next(s, FinishBuild(t)))
  {
    hide Inv, Next;
    if s.cache.futures[s.threads[t].f].outcome.Ready? {
      SettleKeepsInv(s, t);
    } else {
      WithdrawKeepsInv(s, t);
    }
  }

  /** The invariant holds in every state of every interleaving. */
  lemma {:induction false} RunsKeepInv(max: nat, states: seq<State>, steps: seq<Step>, i: nat)
    requires IsRun(max, states, steps) && i < |states|
    ensures Inv(states[i])
    decreases i
  {
    if i == 0 {
      StartInv(max);
    } else {
      RunsKeepInv(max, states, steps, i - 1);
      assert Follows(states, steps, i - 1);
      NextKeepsInv(states[i - 1], steps[i - 1]);
    }
  }

  lemma StartInv(max: nat)
    ensures Inv(State(Empty(max), []))
  {
    var s := State(Empty(max), []);
    forall f: FutureId ensures BalancedAt(s, f) {
    }
    assert SettledEntries(s.cache) == {};
  }

  // ---- what it means -----------------------------------------------------------------------------

  /** `f` stands in the dictionary under some key. */
  ghost predicate Attached(s: State, f: FutureId) {
    f in Values(s.cache.entries)
  }

  /** No call is in progress: creators have left, lists are empty; only waiters of a future may remain. */
  predicate Idle(s: State) {
    forall i :: 0 <= i < |s.threads| ==> s.threads[i] == IDLE || s.threads[i].Waiting?
  }

  lemma {:induction false} IdleOwesNothing(threads: seq<Thread>, f: FutureId)
    requires forall i :: 0 <= i < |threads| ==> threads[i] == IDLE || threads[i].Waiting?
    ensures Owed(threads, f) == 0
  {
    if threads != [] {
      IdleOwesNothing(threads[..|threads| - 1], f);
    }
  }

  /** No resource is closed twice, and none is closed while it is attached. */
  lemma ClosedAtMostOnce(max: nat, states: seq<State>, steps: seq<Step>, i: nat, f: FutureId)
    requires IsRun(max, states, steps) && i < |states|
    ensures states[i].cache.closes[f] <= 1
    ensures Attached(states[i], f) ==> states[i].cache.closes[f] == 0
  {
    RunsKeepInv(max, states, steps, i);
    assert BalancedAt(states[i], f);
  }

  /**
   * Whenever no call is in progress, every resource ever built is either attached and open or
   * detached and closed exactly once; nothing else is attached, and the bound holds.
   */
  lemma IdleMeansDisposed(max: nat, states: seq<State>, steps: seq<Step>, i: nat, f: FutureId)
    requires IsRun(max, states, steps) && i < |states| && Idle(states[i]) && f < |states[i].cache.futures|
    ensures Done(states[i].cache, f)
    ensures states[i].cache.futures[f].outcome.Ready? ==>
              states[i].cache.closes[f] == if Attached(states[i], f) then 0 else 1
    ensures Attached(states[i], f) ==> states[i].cache.futures[f].outcome.Ready?
  {
    var s := states[i];
    RunsKeepInv(max, states, steps, i);
    IdleOwesNothing(s.threads, f);
    assert BalancedAt(s, f);
    assert !HasCreator(s.threads, f);
    ValueOccurs(s.cache.entries, f);
  }

  /** The settled entries never exceed the bound; when no creator is active, that is the whole map. */
  lemma WithinBound(max: nat, states: seq<State>, steps: seq<Step>, i: nat)
    requires IsRun(max, states, steps) && i < |states|
    ensures states[i].cache.maxEntries == max && |SettledEntries(states[i].cache)| <= max
    ensures (forall f: FutureId :: !HasCreator(states[i].threads, f)) ==> |states[i].cache.entries| <= max
  {
    var s := states[i];
    RunsKeepInv(max, states, steps, i);
    BoundNeverChanges(max, states, steps, i);
    if forall f: FutureId :: !HasCreator(s.threads, f) {
      forall e | e in s.cache.entries ensures e.1 in s.cache.settled {
        ValueOccurs(s.cache.entries, e.1);
        assert BalancedAt(s, e.1);
        assert !HasCreator(s.threads, e.1);
      }
      assert SettledEntries(s.cache) == Elements(s.cache.entries);
      DistinctPairs(s.cache.entries);
    }
  }

  lemma {:induction false} DistinctPairs(d: Dict<Key, FutureId>)
    requires DistinctKeys(d)
    ensures |Elements(d)| == |d|
  {
    if d != [] {
      assert d == [d[0]] + d[1..];
      DistinctPairs(d[1..]);
      assert d[0] !in d[1..];
      assert Elements(d) == {d[0]} + Elements(d[1..]);
    }
  }

  lemma {:induction false} BoundNeverChanges(max: nat, states: seq<State>, steps: seq<Step>, i: nat)
    requires IsRun(max, states, steps) && i < |states|
    ensures states[i].cache.maxEntries == max
    decreases i
  {
    if i > 0 {
      BoundNeverChanges(max, states, steps, i - 1);
      assert Follows(states, steps, i - 1);
    }
  }

  /** A caller that waits for a future has a creator working on it, until the future completes. */
  lemma WaitersAreServed(max: nat, states: seq<State>, steps: seq<Step>, i: nat, t: nat)
    requires IsRun(max, states, steps) && i < |states|
    requires t < |states[i].threads| && states[i].threads[t].Waiting?
    ensures var s := states[i];
            Done(s.cache, s.threads[t].f)
            || exists u :: 0 <= u < |s.threads| && s.threads[u].Creating? && s.threads[u].f == s.threads[t].f
  {
    var s := states[i];
    var f := s.threads[t].f;
    RunsKeepInv(max, states, steps, i);
    assert ThreadInv(s.cache, s.threads[t]);
    if !Done(s.cache, f) {
      assert HasCreator(s.threads, f);
      var u :| 0 <= u < |s.threads| && Creates(s.threads[u], f);
      assert ThreadInv(s.cache, s.threads[u]);
    }
  }

  /** A failing creator takes away its own future only; the entry of a successor stays. */
  lemma FailureSparesSuccessors(max: nat, states: seq<State>, steps: seq<Step>, i: nat, t: nat, e: (Key, FutureId))
    requires IsRun(max, states, steps) && Follows(states, steps, i) && steps[i] == FinishBuild(t)
    requires states[i].cache.futures[states[i].threads[t].f].outcome.Failed?
    ensures e in states[i + 1].cache.entries <==> e in states[i].cache.entries && e.1 != states[i].threads[t].f
  {
    var s := states[i];
    var f := s.threads[t].f;
    RunsKeepInv(max, states, steps, i);
    assert KeyInv(s.cache, s.threads[t]);
    if e in s.cache.entries {
      KeyOf(s.cache.entries, e);
    }
  }
}
