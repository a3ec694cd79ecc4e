/**
 * Every interleaving of operations on a `ValueCache`: one step is one locked section, the
 * start of a load, or its end together with the locked section that records it.
 */
module ValueMachine {
  import opened Wrappers
  import opened OrderedDicts
  import opened Eviction
  import opened CachedValues

  /**
   * A call or a background refresh. `Parked` waits on the entry's condition, `Woken` has been
   * notified and waits for the lock, `Queued` is about to call the loader.
   */
  datatype Thread =
    | Parked(e: EntryId, key: Key)
    | Woken(e: EntryId, key: Key)
    | Queued(e: EntryId, key: Key, background: bool)
    | Loading(e: EntryId, key: Key, background: bool, startedAt: nat)
    | Returned(snapshot: Option<Snapshot>)

  datatype State = State(cache: Cache, threads: seq<Thread>)

  datatype Step =
    | GetKey(key: Key, force: bool, now: real)
    | Retry(t: nat, now: real)
    | StartLoad(t: nat)
    | FinishLoad(t: nat, outcome: Result<Datum, string>, now: real)
    | Invalidate(keys: set<Key>)
    | Clear

  predicate Enabled(s: State, step: Step) {
    match step
    case GetKey(_, _, _) => Sized(s.cache)
    case Retry(t, _) => t < |s.threads| && s.threads[t].Woken? && s.threads[t].e < |s.cache.records|
    case StartLoad(t) => t < |s.threads| && s.threads[t].Queued?
    case FinishLoad(t, _, _) =>
      t < |s.threads| && s.threads[t].Loading? && s.threads[t].e < |s.cache.records| == |s.cache.history|
    case Invalidate(_) => true
    case Clear => true
  }

  function ThreadFor(reply: Reply, e: EntryId, key: Key): Thread {
    match reply
    case Serve(snapshot, _) => Returned(Some(snapshot))
    case Park => Parked(e, key)
    case Load => Queued(e, key, false)
  }

  /** `notify_all` on the condition of an entry. */
  function Wake(p: Thread, e: EntryId): Thread {
    if p.Parked? && p.e == e then Woken(e, p.key) else p
  }

  function WakeAll(threads: seq<Thread>, e: EntryId): seq<Thread> {
    seq(|threads|, i requires 0 <= i < |threads| => Wake(threads[i], e))
  }

  function Next(s: State, step: Step): State
    requires Enabled(s, step)
  {
    match step
    case GetKey(key, force, now) =>
      var (c, e, reply) := Begin(s.cache, key, force, now);
      State(Tick(c), s.threads + [ThreadFor(reply, e, key)]
                     + if reply.Serve? && reply.submitted then [Queued(e, key, true)] else [])
    case Retry(t, now) =>
      var p := s.threads[t];
      var (c, reply) := Resume(s.cache, p.e, now);
      State(Tick(c), s.threads[t := ThreadFor(reply, p.e, p.key)])
    case StartLoad(t) =>
      var p := s.threads[t];
      State(Tick(s.cache), s.threads[t := Loading(p.e, p.key, p.background, s.cache.epoch)])
    case FinishLoad(t, outcome, now) =>
      var p := s.threads[t];
      var c := Recorded(s.cache, p, outcome, now);
      var answer := if p.background || outcome.Err? then None else Some(Snap(c.policy, c.records[p.e], now));
      State(Tick(c), WakeAll(s.threads[t := Returned(answer)], p.e))
    case Invalidate(keys) =>
      State(Tick(s.cache.(entries := Drop(s.cache.entries, keys))), s.threads)
    case Clear =>
      State(Tick(s.cache.(entries := InFlight(s.cache.entries, IdleEntries(s.cache.records)))), s.threads)
  }

  function Recorded(c: Cache, p: Thread, outcome: Result<Datum, string>, now: real): (c': Cache)
    requires p.Loading? && p.e < |c.records| == |c.history|
    ensures |c'.records| == |c.records| && (outcome.Ok? ==> c'.records[p.e].value == Some(outcome.value))
  {
    match outcome
    case Ok(value) => RecordSuccess(c, p.key, p.e, value, now, p.startedAt)
    case Err(message) => RecordFailure(c, p.e, message, now)
  }

  ghost predicate Follows(states: seq<State>, steps: seq<Step>, i: nat) {
    i < |steps| && i + 1 < |states| && Enabled(states[i], steps[i]) && states[i + 1] == Next(states[i], steps[i])
  }

  /** A run from the empty cache. */
  ghost predicate IsRun(policy: Policy, states: seq<State>, steps: seq<Step>) {
    && |states| == |steps| + 1 && states[0] == State(Empty(policy), [])
    && forall i {:trigger Follows(states, steps, i)} :: 0 <= i < |steps| ==> Follows(states, steps, i)
  }

  // ---- single flight -----------------------------------------------------------------------------

  function Flies(p: Thread, e: EntryId): nat {
    if (p.Queued? || p.Loading?) && p.e == e then 1 else 0
  }

  /** How many loads of an entry are running or queued. */
  function Flights(threads: seq<Thread>, e: EntryId): nat {
    if threads == [] then 0 else Flights(threads[..|threads| - 1], e) + Flies(threads[|threads| - 1], e)
  }

  lemma {:induction false} FlightsUpdate(threads: seq<Thread>, t: nat, p: Thread, e: EntryId)
    requires t < |threads|
    ensures Flights(threads[t := p], e) + Flies(threads[t], e) == Flights(threads, e) + Flies(p, e)
  {
    var n := |threads| - 1;
    if t < n {
      FlightsUpdate(threads[..n], t, p, e);
      assert threads[t := p][..n] == threads[..n][t := p];
    } else {
      assert threads[t := p][..n] == threads[..n];
    }
  }

  lemma FlightsAppend(threads: seq<Thread>, p: Thread, e: EntryId)
    ensures Flights(threads + [p], e) == Flights(threads, e) + Flies(p, e)
  {
    assert (threads + [p])[..|threads|] == threads;
  }

  lemma {:induction false} FlightsWake(threads: seq<Thread>, w: EntryId, e: EntryId)
    ensures Flights(WakeAll(threads, w), e) == Flights(threads, e)
  {
    if threads != [] {
      var n := |threads| - 1;
      FlightsWake(threads[..n], w, e);
      assert WakeAll(threads, w)[..n] == WakeAll(threads[..n], w);
    }
  }

  ghost predicate SingleFlight(s: State, e: EntryId) {
    Flights(s.threads, e) == if e < |s.cache.records| && s.cache.records[e].refreshing then 1 else 0
  }

  // ---- the invariant -------------------------------------------------------------------------------

  ghost predicate ThreadInv(c: Cache, p: Thread) {
    !p.Returned? ==>
    && p.e < |c.records| == |c.history| && c.history[p.e].key == p.key
    && (p.Parked? ==> c.records[p.e].refreshing)
    && (p.Loading? ==> c.history[p.e].created <= p.startedAt < c.epoch)
  }

  ghost predicate Inv(s: State) {
    && CacheInv(s.cache)
    && (forall e: EntryId :: SingleFlight(s, e))
    && forall i :: 0 <= i < |s.threads| ==> ThreadInv(s.cache, s.threads[i])
  }

  /** Threads stay in order when their entries keep their origin and nothing stops refreshing. */
  lemma ThreadStays(c: Cache, c': Cache, p: Thread)
    requires ThreadInv(c, p) && |c.records| == |c.history| && |c'.records| == |c'.history| && |c.records| <= |c'.records|
    requires SameOrigin(c.history, c'.history) && c.epoch <= c'.epoch
    requires forall e: EntryId :: e < |c.records| && c.records[e].refreshing ==> c'.records[e].refreshing
    ensures ThreadInv(c', p)
  {
  }

  lemma BeginSection(c: Cache, key: Key, force: bool, now: real)
    requires CacheInv(c)
    ensures var (c', e, reply) := Begin(c, key, force, now);
            && CacheInv(Tick(c')) && SameOrigin(c.history, c'.history) && c'.epoch == c.epoch
            && |c.records| <= |c'.records| && e < |c'.records| && c'.history[e].key == key
            && (forall i: EntryId :: i < |c.records| && i != e ==> c'.records[i] == c.records[i])
            && (|c'.records| > |c.records| ==> e == |c.records| && |c'.records| == e + 1)
            && (reply.Park? ==> c'.records[e].refreshing)
            && (e < |c.records| && c.records[e].refreshing ==> c'.records[e].refreshing)
            && (c'.records[e].refreshing <==>
                  (e < |c.records| && c.records[e].refreshing) || reply.Load? || (reply.Serve? && reply.submitted))
            && (reply.Load? || (reply.Serve? && reply.submitted) ==> !(e < |c.records| && c.records[e].refreshing))
  {
    hide Evict, MoveToEnd, Get, HasKey, EntryFor;
    EntryForKeeps(c, key);
    var (c1, e) := EntryFor(c, key);
    RecordKeeps(c1, e, c1.records[e].(refreshing := true));
  }

  lemma SizedCache(c: Cache)
    requires CacheInv(c)
    ensures Sized(c)
  {
    hide Sized, ByRecency, EntryInv, DistinctKeys;
  }

  lemma GetKeepsFlights(s: State, key: Key, force: bool, now: real, e: EntryId)
    requires CacheInv(s.cache) && SingleFlight(s, e)
    ensures SingleFlight(Next(s, GetKey(key, force, now)), e)
  {
    hide Begin, CacheInv, Sized, SameOrigin;
    SizedCache(s.cache);
    BeginSection(s.cache, key, force, now);
    var (c, x, reply) := Begin(s.cache, key, force, now);
    var s' := Next(s, GetKey(key, force, now));
    var p := ThreadFor(reply, x, key);
    FlightsAppend(s.threads, p, e);
    if reply.Serve? && reply.submitted {
      FlightsAppend(s.threads + [p], Queued(x, key, true), e);
    } else {
      assert s'.threads == s.threads + [p];
    }
  }

  lemma GetKeepsThreads(s: State, key: Key, force: bool, now: real, i: nat)
    requires Inv(s) && i < |Next(s, GetKey(key, force, now)).threads|
    ensures var s' := Next(s, GetKey(key, force, now)); ThreadInv(s'.cache, s'.threads[i])
  {
    BeginSection(s.cache, key, force, now);
    var s' := Next(s, GetKey(key, force, now));
    if i < |s.threads| {
      ThreadStays(s.cache, s'.cache, s.threads[i]);
    }
  }

  lemma GetKeepsInv(s: State, key: Key, force: bool, now: real)
    requires Inv(s)
    ensures Inv(Next(s, GetKey(key, force, now)))
  {
    var s' := Next(s, GetKey(key, force, now));
    BeginSection(s.cache, key, force, now);
    forall e: EntryId ensures SingleFlight(s', e) {
      GetKeepsFlights(s, key, force, now, e);
    }
    forall i | 0 <= i < |s'.threads| ensures ThreadInv(s'.cache, s'.threads[i]) {
      GetKeepsThreads(s, key, force, now, i);
    }
  }

  lemma RetryKeepsInv(s: State, t: nat, now: real)
    requires Inv(s) && Enabled(s, Retry(t, now))
    ensures Inv(Next(s, Retry(t, now)))
  {
    var s' := Next(s, Retry(t, now));
    var p := s.threads[t];
    var c := s.cache;
    assert ThreadInv(c, p);
    TickKeeps(c);
    RecordKeeps(c, p.e, c.records[p.e].(refreshing := true));
    forall e: EntryId ensures SingleFlight(s', e) {
      assert SingleFlight(s, e);
      FlightsUpdate(s.threads, t, s'.threads[t], e);
    }
    forall i | 0 <= i < |s'.threads| ensures ThreadInv(s'.cache, s'.threads[i]) {
      ThreadStays(c, s'.cache, s.threads[i]);
    }
  }

  lemma StartKeepsInv(s: State, t: nat)
    requires Inv(s) && Enabled(s, StartLoad(t))
    ensures Inv(Next(s, StartLoad(t)))
  {
    var s' := Next(s, StartLoad(t));
    TickKeeps(s.cache);
    assert ThreadInv(s.cache, s.threads[t]);
    assert EntryInv(s.cache.records[s.threads[t].e], s.cache.history[s.threads[t].e], s.cache.epoch);
    forall e: EntryId ensures SingleFlight(s', e) {
      assert SingleFlight(s, e);
      FlightsUpdate(s.threads, t, s'.threads[t], e);
    }
    forall i | 0 <= i < |s'.threads| ensures ThreadInv(s'.cache, s'.threads[i]) {
      ThreadStays(s.cache, s'.cache, s.threads[i]);
    }
  }

  lemma RecordedSection(c: Cache, p: Thread, outcome: Result<Datum, string>, now: real)
    requires CacheInv(c) && p.Loading? && ThreadInv(c, p)
    ensures var c' := Recorded(c, p, outcome, now);
            && CacheInv(Tick(c')) && c'.epoch == c.epoch && c'.policy == c.policy
            && SameOrigin(c.history, c'.history) && |c'.history| == |c.history|
            && (forall e: EntryId :: e < |c.records| && e != p.e ==> c'.records[e] == c.records[e])
            && !c'.records[p.e].refreshing
            && forall x :: x in c'.entries ==> x in c.entries
  {
    match outcome
    case Ok(value) => RecordSuccessKeeps(c, p.key, p.e, value, now, p.startedAt);
    case Err(message) =>
      TickKeeps(c);
      RecordKeeps(c, p.e, RecordFailure(c, p.e, message, now).records[p.e]);
  }

  lemma FinishKeepsFlights(s: State, t: nat, outcome: Result<Datum, string>, now: real, e: EntryId)
    requires Inv(s) && Enabled(s, FinishLoad(t, outcome, now))
    ensures SingleFlight(Next(s, FinishLoad(t, outcome, now)), e)
  {
    var p := s.threads[t];
    var s' := Next(s, FinishLoad(t, outcome, now));
    assert ThreadInv(s.cache, p) && SingleFlight(s, e);
    RecordedSection(s.cache, p, outcome, now);
    var c := Recorded(s.cache, p, outcome, now);
    var q := Returned(if p.background || outcome.Err? then None else Some(Snap(c.policy, c.records[p.e], now)));
    FlightsUpdate(s.threads, t, q, e);
    FlightsWake(s.threads[t := q], p.e, e);
  }

  lemma FinishKeepsThreads(s: State, t: nat, outcome: Result<Datum, string>, now: real, i: nat)
    requires Inv(s) && Enabled(s, FinishLoad(t, outcome, now)) && i < |s.threads|
    ensures var s' := Next(s, FinishLoad(t, outcome, now)); ThreadInv(s'.cache, s'.threads[i])
  {
    assert ThreadInv(s.cache, s.threads[t]) && ThreadInv(s.cache, s.threads[i]);
    RecordedSection(s.cache, s.threads[t], outcome, now);
  }

  lemma FinishKeepsInv(s: State, t: nat, outcome: Result<Datum, string>, now: real)
    requires Inv(s) && Enabled(s, FinishLoad(t, outcome, now))
    ensures Inv(Next(s, FinishLoad(t, outcome, now)))
  {
    var s' := Next(s, FinishLoad(t, outcome, now));
    assert ThreadInv(s.cache, s.threads[t]);
    RecordedSection(s.cache, s.threads[t], outcome, now);
    forall e: EntryId ensures SingleFlight(s', e) {
      FinishKeepsFlights(s, t, outcome, now, e);
    }
    forall i | 0 <= i < |s'.threads| ensures ThreadInv(s'.cache, s'.threads[i]) {
      FinishKeepsThreads(s, t, outcome, now, i);
    }
  }

  lemma ShrinkKeepsInv(s: State, entries: Dict<Key, EntryId>)
    requires Inv(s) && SubDict(entries, s.cache.entries)
    ensures Inv(State(Tick(s.cache.(entries := entries)), s.threads))
  {
    ShrinkingKeeps(s.cache, entries);
    var s' := State(Tick(s.cache.(entries := entries)), s.threads);
    forall e: EntryId ensures SingleFlight(s', e) {
      assert SingleFlight(s, e);
    }
    forall i | 0 <= i < |s.threads| ensures ThreadInv(s'.cache, s.threads[i]) {
      assert ThreadInv(s.cache, s.threads[i]);
    }
  }

  lemma NextKeepsInv(s: State, step: Step)
    requires Inv(s) && Enabled(s, step)
    ensures Inv(Next(s, step))
  {
    match step
    case GetKey(key, force, now) => GetKeepsInv(s, key, force, now);
    case Retry(t, now) => RetryKeepsInv(s, t, now);
    case StartLoad(t) => StartKeepsInv(s, t);
    case FinishLoad(t, outcome, now) => FinishKeepsInv(s, t, outcome, now);
    case Invalidate(keys) =>
      DropSubDict(s.cache.entries, keys);
      ShrinkKeepsInv(s, Drop(s.cache.entries, keys));
    case Clear =>
      InFlightSubDict(s.cache.entries, IdleEntries(s.cache.records));
      ShrinkKeepsInv(s, InFlight(s.cache.entries, IdleEntries(s.cache.records)));
  }

  lemma {:induction false} RunsKeepInv(policy: Policy, states: seq<State>, steps: seq<Step>, i: nat)
    requires policy.maxEntries >= 1 && IsRun(policy, states, steps) && i < |states|
    ensures Inv(states[i]) && states[i].cache.epoch == i && states[i].cache.policy == policy
    decreases i
  {
    if i > 0 {
      RunsKeepInv(policy, states, steps, i - 1);
      assert Follows(states, steps, i - 1);
      NextKeepsInv(states[i - 1], steps[i - 1]);
      NextCounts(states[i - 1], steps[i - 1]);
    }
  }

  lemma NextCounts(s: State, step: Step)
    requires Inv(s) && Enabled(s, step)
    ensures Next(s, step).cache.epoch == s.cache.epoch + 1 && Next(s, step).cache.policy == s.cache.policy
  {
    if step.FinishLoad? {
      assert ThreadInv(s.cache, s.threads[step.t]);
    }
  }

  // ---- single flight and waiters, over whole runs --------------------------------------------------

  /**
   * For every entry, attached or detached: it is marked as refreshing exactly when one load
   * of it is running or queued, there is never more than one, and callers are parked on it
   * only in that time.
   */
  lemma SingleFlightAlways(policy: Policy, states: seq<State>, steps: seq<Step>, i: nat, e: EntryId)
    requires policy.maxEntries >= 1 && IsRun(policy, states, steps) && i < |states|
    ensures var s := states[i];
            && Flights(s.threads, e) <= 1
            && (Flights(s.threads, e) == 1 <==> e < |s.cache.records| && s.cache.records[e].refreshing)
            && forall t :: 0 <= t < |s.threads| && s.threads[t].Parked? && s.threads[t].e == e ==>
                 Flights(s.threads, e) == 1
  {
    RunsKeepInv(policy, states, steps, i);
    var s := states[i];
    assert SingleFlight(s, e);
    forall t | 0 <= t < |s.threads| && s.threads[t].Parked? && s.threads[t].e == e ensures Flights(s.threads, e) == 1 {
      assert ThreadInv(s.cache, s.threads[t]);
    }
  }

  /** The end of a load, good or bad, leaves nobody parked on its entry. */
  lemma FinishWakesEverybody(s: State, t: nat, outcome: Result<Datum, string>, now: real, u: nat)
    requires Enabled(s, FinishLoad(t, outcome, now)) && u < |s.threads|
    ensures var s' := Next(s, FinishLoad(t, outcome, now));
            && !(s'.threads[u].Parked? && s'.threads[u].e == s.threads[t].e)
            && (s.threads[u].Parked? && s.threads[u].e == s.threads[t].e ==>
                  s'.threads[u] == Woken(s.threads[t].e, s.threads[u].key))
  {
  }

  // ---- no stale repopulation -------------------------------------------------------------------------

  /** The step removes the entry of the key from the cache, whatever is in flight for it. */
  predicate Covers(step: Step, k: Key) {
    step.Invalidate? && k in step.keys
  }

  lemma StepEntries(s: State, step: Step, x: (Key, EntryId))
    requires Inv(s) && Enabled(s, step) && x in Next(s, step).cache.entries
    ensures x.1 < |Next(s, step).cache.history|
    ensures !Covers(step, x.0)
    ensures x in s.cache.entries || (step.GetKey? && Next(s, step).cache.history[x.1].created == s.cache.epoch)
    ensures x in s.cache.entries ==>
              x.1 < |s.cache.history| && Next(s, step).cache.history[x.1].created == s.cache.history[x.1].created
  {
    hide Evict, MoveToEnd, Snap;
    NextKeepsInv(s, step);
    match step
    case GetKey(key, force, now) =>
      BeginSection(s.cache, key, force, now);
      EntryForKeeps(s.cache, key);
    case FinishLoad(t, outcome, now) =>
      assert ThreadInv(s.cache, s.threads[t]);
      RecordedSection(s.cache, s.threads[t], outcome, now);
    case _ =>
  }

  /** An attached entry was created after every invalidation of its key. */
  lemma {:induction false} CreatedAfterInvalidation(policy: Policy, states: seq<State>, steps: seq<Step>, i: nat, j: nat,
                                                    x: (Key, EntryId))
    requires policy.maxEntries >= 1 && IsRun(policy, states, steps) && i < |states|
    requires x in states[i].cache.entries && x.1 < |states[i].cache.history| && j < i && Covers(steps[j], x.0)
    ensures j < states[i].cache.history[x.1].created
    decreases i
  {
    RunsKeepInv(policy, states, steps, i - 1);
    assert Follows(states, steps, i - 1);
    hide Next, Enabled, Inv;
    StepEntries(states[i - 1], steps[i - 1], x);
    if x in states[i - 1].cache.entries {
      CreatedAfterInvalidation(policy, states, steps, i - 1, j, x);
    }
  }

  /** Step `v` of the run started a load of entry `e`. */
  ghost predicate StartedAt(states: seq<State>, steps: seq<Step>, v: nat, e: EntryId) {
    && v < |steps| && v < |states| && steps[v].StartLoad?
    && steps[v].t < |states[v].threads| && states[v].threads[steps[v].t].Queued?
    && states[v].threads[steps[v].t].e == e
  }

  /** A thread that loads in the next state has just started or was loading before. */
  lemma StepLoads(s: State, step: Step, u: nat)
    requires Inv(s) && Enabled(s, step) && u < |Next(s, step).threads| && Next(s, step).threads[u].Loading?
    ensures u < |s.threads|
    ensures var p := Next(s, step).threads[u];
            s.threads[u] == p
            || (step == StartLoad(u) && p.startedAt == s.cache.epoch && s.threads[u] == Queued(p.e, p.key, p.background))
  {
    match step
    case GetKey(key, force, now) => BeginSection(s.cache, key, force, now);
    case FinishLoad(t, outcome, now) => assert ThreadInv(s.cache, s.threads[t]);
    case _ =>
  }

  /** A value in the next state was there before or comes from a load that ends now. */
  lemma StepValues(s: State, step: Step, e: EntryId)
    requires Inv(s) && Enabled(s, step)
    requires e < |Next(s, step).cache.records| == |Next(s, step).cache.history|
    requires Next(s, step).cache.records[e].value.Some?
    ensures var c' := Next(s, step).cache;
            || (e < |s.cache.records| == |s.cache.history| && c'.records[e].value == s.cache.records[e].value
                && c'.history[e].valueFrom == s.cache.history[e].valueFrom)
            || (step.FinishLoad? && s.threads[step.t].e == e && c'.history[e].valueFrom == s.threads[step.t].startedAt
                && step.outcome == Ok(c'.records[e].value.value))
  {
    hide Evict, MoveToEnd, Get;
    match step
    case GetKey(key, force, now) =>
      EntryForKeeps(s.cache, key);
    case FinishLoad(t, outcome, now) =>
      assert ThreadInv(s.cache, s.threads[t]);
      if outcome.Ok? {
        RecordSuccessParts(s.cache, s.threads[t].key, s.threads[t].e, outcome.value, now, s.threads[t].startedAt);
      }
    case _ =>
  }

  lemma {:induction false} LoadsWereStarted(policy: Policy, states: seq<State>, steps: seq<Step>, i: nat, u: nat)
    requires policy.maxEntries >= 1 && IsRun(policy, states, steps) && i < |states|
    requires u < |states[i].threads| && states[i].threads[u].Loading?
    ensures states[i].threads[u].startedAt < i
    ensures StartedAt(states, steps, states[i].threads[u].startedAt, states[i].threads[u].e)
    decreases i
  {
    RunsKeepInv(policy, states, steps, i - 1);
    assert Follows(states, steps, i - 1);
    StepLoads(states[i - 1], steps[i - 1], u);
    if states[i - 1].threads[u] == states[i].threads[u] {
      LoadsWereStarted(policy, states, steps, i - 1, u);
    }
  }

  lemma {:induction false} ValuesWereLoaded(policy: Policy, states: seq<State>, steps: seq<Step>, i: nat, e: EntryId)
    requires policy.maxEntries >= 1 && IsRun(policy, states, steps) && i < |states|
    requires e < |states[i].cache.records| == |states[i].cache.history| && states[i].cache.records[e].value.Some?
    ensures states[i].cache.history[e].valueFrom < i
    ensures StartedAt(states, steps, states[i].cache.history[e].valueFrom, e)
    decreases i
  {
    RunsKeepInv(policy, states, steps, i - 1);
    assert Follows(states, steps, i - 1);
    StepValues(states[i - 1], steps[i - 1], e);
    if e < |states[i - 1].cache.records| && states[i - 1].cache.records[e].value == states[i].cache.records[e].value
       && states[i].cache.history[e].valueFrom == states[i - 1].cache.history[e].valueFrom {
      ValuesWereLoaded(policy, states, steps, i - 1, e);
    } else {
      LoadsWereStarted(policy, states, steps, i - 1, steps[i - 1].t);
    }
  }

  /**
   * No stale repopulation: whatever the interleaving, the value of an attached entry comes
   * from a load of that entry that was started after every invalidation of its key.
   */
  lemma NoStaleRepopulation(policy: Policy, states: seq<State>, steps: seq<Step>, i: nat, x: (Key, EntryId))
    requires policy.maxEntries >= 1 && IsRun(policy, states, steps) && i < |states|
    requires x in states[i].cache.entries && x.1 < |states[i].cache.records| == |states[i].cache.history|
    requires states[i].cache.records[x.1].value.Some?
    ensures var from := states[i].cache.history[x.1].valueFrom;
            && from < i && StartedAt(states, steps, from, x.1)
            && forall j :: 0 <= j < i && Covers(steps[j], x.0) ==> j < from
  {
    RunsKeepInv(policy, states, steps, i);
    ValuesWereLoaded(policy, states, steps, i, x.1);
    assert EntryInv(states[i].cache.records[x.1], states[i].cache.history[x.1], states[i].cache.epoch);
    forall j | 0 <= j < i && Covers(steps[j], x.0) ensures j < states[i].cache.history[x.1].valueFrom {
      CreatedAfterInvalidation(policy, states, steps, i, j, x);
    }
  }

  // ---- bound and eviction ------------------------------------------------------------------------------

  lemma WithinBound(policy: Policy, states: seq<State>, steps: seq<Step>, i: nat)
    requires policy.maxEntries >= 1 && IsRun(policy, states, steps) && i < |states|
    ensures |states[i].cache.entries| <= policy.maxEntries
  {
    RunsKeepInv(policy, states, steps, i);
  }

  /**
   * Inserting into a full cache evicts exactly one entry: the least recently touched idle one.
   * It is the entry just inserted when all the others are in flight.
   */
  lemma InsertionEvictsOldestIdle(c: Cache, key: Key) returns (victim: (Key, EntryId))
    requires CacheInv(c) && !HasKey(c.entries, key) && |c.entries| == c.policy.maxEntries
    ensures var (c', e) := EntryFor(c, key);
            && (victim == (key, e) || victim in c.entries)
            && (forall x :: x in c'.entries <==> (x in c.entries || x == (key, e)) && x != victim)
            && (victim == (key, e) || !c.records[victim.1].refreshing)
            && (forall x :: x in c.entries && !c.records[x.1].refreshing ==>
                  victim in c.entries && c.history[victim.1].touched <= c.history[x.1].touched)
            && (victim == (key, e) <==> forall x :: x in c.entries ==> c.records[x.1].refreshing)
  {
    var e: EntryId := |c.records|;
    var grown: Dict<Key, EntryId> := c.entries + [(key, e)];
    var idle := IdleEntries(c.records + [BLANK]);
    AppendKeeps(c.entries, key, e);
    assert grown[|grown| - 1].1 in idle;
    OneLess(grown, idle);
    var i := OldestIdle(grown, idle);
    victim := grown[i];
    forall x ensures x in EntryFor(c, key).0.entries <==> (x in c.entries || x == (key, e)) && x != victim {
      RemovedOne(grown, i, x);
    }
    VictimIsOldest(c, (key, e));
  }

  /** The oldest idle entry of a dictionary to which an idle one has been appended. */
  lemma VictimIsOldest(c: Cache, last: (Key, EntryId))
    requires CacheInv(c) && last.1 == |c.records|
    ensures var grown, idle := c.entries + [last], IdleEntries(c.records + [BLANK]);
            && OldestIdle(grown, idle) < |grown|
            && var victim := grown[OldestIdle(grown, idle)];
            && (victim == last || (victim in c.entries && !c.records[victim.1].refreshing))
            && (forall x :: x in c.entries && !c.records[x.1].refreshing ==>
                  victim in c.entries && c.history[victim.1].touched <= c.history[x.1].touched)
            && (victim == last <==> forall x :: x in c.entries ==> c.records[x.1].refreshing)
  {
    var grown, idle := c.entries + [last], IdleEntries(c.records + [BLANK]);
    var i := OldestIdle(grown, idle);
    assert grown[|c.entries|].1 in idle;
    if i < |c.entries| {
      assert grown[i] == c.entries[i] && c.entries[i] in c.entries;
    }
    forall x | x in c.entries && !c.records[x.1].refreshing
      ensures i < |c.entries| && c.history[grown[i].1].touched <= c.history[x.1].touched
    {
      var j :| 0 <= j < |c.entries| && c.entries[j] == x;
      assert grown[j] == x && x.1 in idle;
      assert i <= j;
    }
  }

  lemma OneLess(d: Dict<Key, EntryId>, idle: set<EntryId>)
    requires OldestIdle(d, idle) < |d|
    ensures var i := OldestIdle(d, idle); Evict(d, idle, 1).0 == d[..i] + d[i + 1..]
  {
    EvictStep(d, idle, 1);
  }

  lemma RemovedOne(d: Dict<Key, EntryId>, i: nat, x: (Key, EntryId))
    requires DistinctKeys(d) && i < |d|
    ensures x in d[..i] + d[i + 1..] <==> x in d && x != d[i]
  {
    if x in d && x != d[i] {
      var j :| 0 <= j < |d| && d[j] == x;
      assert x in d[..i] || x in d[i + 1..] by {
        if j < i {
          assert d[..i][j] == x;
        } else {
          assert d[i + 1..][j - i - 1] == x;
        }
      }
    }
    if x in d[..i] {
      var j :| 0 <= j < i && d[j] == x;
    }
    if x in d[i + 1..] {
      var j :| 0 <= j < |d[i + 1..]| && d[i + 1..][j] == x;
      assert d[i + 1 + j] == x;
    }
  }
}
