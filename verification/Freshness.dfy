/**
 * What callers of a `ValueCache` are served: the decisions of `get` in terms of the policy and
 * of the record of an entry, and, over runs, where a record's times come from.
 */
module Freshness {
  import opened Wrappers
  import opened OrderedDicts
  import opened Eviction
  import opened CachedValues
  import opened ValueMachine

  /** What the constructor of a policy insists on (app/cache/types.py). */
  predicate Honored(p: Policy) {
    (p.freshFor.Some? ==> p.freshFor.value >= 0.0) && p.maxStale >= 0.0 && p.failureRetry >= 0.0 && p.maxEntries >= 1
  }

  /** The value was loaded recently enough to count as fresh. */
  predicate Young(p: Policy, r: Entry, now: real) {
    p.freshFor.Some? ==> now - r.loadedAt <= p.freshFor.value
  }

  /** It is not, but may still be served. */
  predicate InStaleWindow(p: Policy, r: Entry, now: real) {
    p.freshFor.Some? && p.freshFor.value < now - r.loadedAt <= p.freshFor.value + p.maxStale
  }

  /** The call returns the value of the record, with its age and whether it is fresh. */
  predicate Shows(answer: Thread, p: Policy, r: Entry, now: real, refreshing: bool) {
    && answer.Returned? && answer.snapshot.Some? && r.value.Some?
    && var shown := answer.snapshot.value;
       && shown.value == r.value.value && (shown.isFresh <==> Young(p, r, now))
       && shown.age == (if now < r.loadedAt then 0.0 else now - r.loadedAt)
       && shown.refreshing == refreshing && shown.warning == r.warning
  }

  // ---- get ------------------------------------------------------------------------------------------

  /** The records after a locked section that may have marked one of them. */
  ghost predicate Marked(before: seq<Entry>, now: seq<Entry>, e: EntryId, refreshing: bool) {
    && e < |before| == |now| && now[e] == before[e].(refreshing := refreshing)
    && forall i :: 0 <= i < |before| && i != e ==> now[i] == before[i]
  }

  lemma FindsEntry(c: Cache, key: Key, e: EntryId)
    requires CacheInv(c) && (key, e) in c.entries
    ensures HasKey(c.entries, key) && Get(c.entries, key) == Some(e) && e < |c.records| == |c.history|
  {
    hide ByRecency, EntryInv;
    KeyOf(c.entries, (key, e));
  }

  /**
   * `get` on a value that nobody is loading: fresh values are served as they are; in the stale
   * window they are served too, and refreshed unless a failure is too recent; all others, and
   * all on demand, are loaded first.
   */
  lemma GetValued(s: State, key: Key, force: bool, now: real, e: EntryId)
    requires Inv(s) && Honored(s.cache.policy) && (key, e) in s.cache.entries
    requires e < |s.cache.records| && s.cache.records[e].value.Some? && !s.cache.records[e].refreshing
    ensures var (s', n, p, r) := (Next(s, GetKey(key, force, now)), |s.threads|, s.cache.policy, s.cache.records[e]);
            if force || !(Young(p, r, now) || InStaleWindow(p, r, now)) then
              s'.threads == s.threads + [Queued(e, key, false)] && Marked(s.cache.records, s'.cache.records, e, true)
            else if !Young(p, r, now) && now >= r.retryAt then
              && |s'.threads| == n + 2 && s'.threads[..n] == s.threads
              && Shows(s'.threads[n], p, r, now, true) && s'.threads[n + 1] == Queued(e, key, true)
              && Marked(s.cache.records, s'.cache.records, e, true)
            else
              && |s'.threads| == n + 1 && s'.threads[..n] == s.threads
              && Shows(s'.threads[n], p, r, now, false) && s'.cache.records == s.cache.records
  {
    hide MoveToEnd, Evict, Get, HasKey, Inv;
    assert CacheInv(s.cache) by { InvCache(s); }
    FindsEntry(s.cache, key, e);
  }

  lemma InvCache(s: State)
    requires Inv(s)
    ensures CacheInv(s.cache)
  {
  }

  /** `get` while the entry is being loaded: a value is served unless a refresh is demanded. */
  lemma GetInFlight(s: State, key: Key, force: bool, now: real, e: EntryId)
    requires Inv(s) && Honored(s.cache.policy) && (key, e) in s.cache.entries
    requires e < |s.cache.records| && s.cache.records[e].refreshing
    ensures var (s', n, r) := (Next(s, GetKey(key, force, now)), |s.threads|, s.cache.records[e]);
            && |s'.threads| == n + 1 && s'.threads[..n] == s.threads && s'.cache.records == s.cache.records
            && if r.value.Some? && !force then Shows(s'.threads[n], s.cache.policy, r, now, true)
               else s'.threads[n] == Parked(e, key)
  {
    hide MoveToEnd, Evict, Get, HasKey, Inv;
    assert CacheInv(s.cache) by { InvCache(s); }
    FindsEntry(s.cache, key, e);
  }

  /** `get` on an entry without a value, which it makes if need be, loads. */
  lemma GetMissing(s: State, key: Key, force: bool, now: real)
    requires Inv(s)
    requires forall e: EntryId :: (key, e) in s.cache.entries && e < |s.cache.records| ==>
               s.cache.records[e].value.None? && !s.cache.records[e].refreshing
    ensures var (s', n) := (Next(s, GetKey(key, force, now)), |s.threads|);
            && |s'.threads| == n + 1 && s'.threads[..n] == s.threads
            && s'.threads[n].Queued? && !s'.threads[n].background && s'.threads[n].key == key
            && var e := s'.threads[n].e;
               && e < |s'.cache.records| && s'.cache.records[e].refreshing && s'.cache.records[e].value.None?
               && ((key, e) in s.cache.entries || e == |s.cache.records|)
  {
    hide MoveToEnd, Evict, Inv;
    assert CacheInv(s.cache) by { InvCache(s); }
    if HasKey(s.cache.entries, key) {
      var e := Get(s.cache.entries, key).value;
      assert (key, e) in s.cache.entries;
      FindsEntry(s.cache, key, e);
    }
  }

  /** A woken waiter waits again, returns the value that is there, or loads. */
  lemma RetryOutcome(s: State, t: nat, now: real)
    requires Inv(s) && Honored(s.cache.policy) && Enabled(s, Retry(t, now))
    ensures var (s', w, r) := (Next(s, Retry(t, now)), s.threads[t], s.cache.records[s.threads[t].e]);
            && |s'.threads| == |s.threads| && (forall u :: 0 <= u < |s.threads| && u != t ==> s'.threads[u] == s.threads[u])
            && if r.refreshing then s'.threads[t] == Parked(w.e, w.key) && s'.cache.records == s.cache.records
               else if r.value.Some? then Shows(s'.threads[t], s.cache.policy, r, now, false) && s'.cache.records == s.cache.records
               else s'.threads[t] == Queued(w.e, w.key, false) && Marked(s.cache.records, s'.cache.records, w.e, true)
  {
  }

  /** A call puts the entry it finds last, as most recently used, and evicts nothing. */
  lemma GetTouches(s: State, key: Key, force: bool, now: real, e: EntryId)
    requires Inv(s) && (key, e) in s.cache.entries
    ensures var entries := Next(s, GetKey(key, force, now)).cache.entries;
            && entries != [] && entries[|entries| - 1] == (key, e)
            && forall x :: x in entries <==> x in s.cache.entries
    ensures Next(s, GetKey(key, force, now)).cache.history[e].touched == s.cache.epoch
  {
    hide Evict, MoveToEnd, Inv, Get, HasKey, Choose, DistinctKeys;
    assert CacheInv(s.cache) by { InvCache(s); }
    FindsEntry(s.cache, key, e);
    MovedLast(s.cache.entries, key, e);
    ChooseKeeps(EntryFor(s.cache, key).0, e, force, now);
  }

  lemma MovedLast(d: Dict<Key, EntryId>, key: Key, e: EntryId)
    requires DistinctKeys(d) && HasKey(d, key) && Get(d, key) == Some(e)
    ensures var r := MoveToEnd(d, key); r != [] && r[|r| - 1] == (key, e) && forall x :: x in r <==> x in d
  {
    MoveToEndKeeps(d, key);
  }

  lemma ChooseKeeps(c: Cache, e: EntryId, force: bool, now: real)
    requires e < |c.records|
    ensures Choose(c, e, force, now).0.entries == c.entries && Choose(c, e, force, now).0.history == c.history
  {
  }

  // ---- the end of a load --------------------------------------------------------------------------------

  /** What a load leaves in the record of its entry. */
  predicate LeftBy(outcome: Result<Datum, string>, p: Policy, before: Entry, r: Entry, now: real) {
    && !r.refreshing
    && match outcome
       case Ok(value) => r.value == Some(value) && r.loadedAt == now && r.warning == None && r.retryAt == 0.0
       case Err(message) =>
         && r.value == before.value && r.loadedAt == before.loadedAt
         && r.warning == Some(message) && r.retryAt == now + p.failureRetry
  }

  lemma FinishOutcome(s: State, t: nat, outcome: Result<Datum, string>, now: real)
    requires Inv(s) && Honored(s.cache.policy) && Enabled(s, FinishLoad(t, outcome, now))
    ensures var (s', w, p) := (Next(s, FinishLoad(t, outcome, now)), s.threads[t], s.cache.policy);
            && |s'.cache.records| == |s.cache.records| && |s'.threads| == |s.threads|
            && LeftBy(outcome, p, s.cache.records[w.e], s'.cache.records[w.e], now)
            && (forall i :: 0 <= i < |s.cache.records| && i != w.e ==> s'.cache.records[i] == s.cache.records[i])
            && (if outcome.Ok? && !w.background then Shows(s'.threads[t], p, s'.cache.records[w.e], now, false)
                else s'.threads[t] == Returned(None))
  {
    hide MoveToEnd, Evict, Get;
  }

  // ---- over runs ------------------------------------------------------------------------------------------

  /** Step `j` of the run ends a load of the entry. */
  ghost predicate Finishes(states: seq<State>, steps: seq<Step>, j: nat, e: EntryId) {
    && j < |steps| && j < |states| && steps[j].FinishLoad?
    && steps[j].t < |states[j].threads| && states[j].threads[steps[j].t].Loading? && states[j].threads[steps[j].t].e == e
  }

  ghost predicate Succeeds(states: seq<State>, steps: seq<Step>, j: nat, e: EntryId) {
    Finishes(states, steps, j, e) && steps[j].outcome.Ok?
  }

  /** All but the end of a load leaves value, times and warning of a record alone. */
  lemma StepKeepsRecord(s: State, step: Step, e: EntryId)
    requires Inv(s) && Enabled(s, step) && e < |Next(s, step).cache.records|
    ensures var r := Next(s, step).cache.records[e];
            || (step.FinishLoad? && s.threads[step.t].e == e)
            || (e < |s.cache.records| && r.(refreshing := false) == s.cache.records[e].(refreshing := false))
            || (e == |s.cache.records| && r.value.None? && r.retryAt == 0.0)
  {
    hide Evict, MoveToEnd, Get;
    match step
    case GetKey(key, force, now) =>
      EntryForKeeps(s.cache, key);
    case FinishLoad(t, outcome, now) =>
      assert ThreadInv(s.cache, s.threads[t]);
      RecordedSection(s.cache, s.threads[t], outcome, now);
    case _ =>
  }

  lemma FinishedOrKept(policy: Policy, states: seq<State>, steps: seq<Step>, i: nat, e: EntryId)
    requires Honored(policy) && IsRun(policy, states, steps) && 1 <= i < |states| && e < |states[i].cache.records|
    ensures var (s, step, r) := (states[i - 1], steps[i - 1], states[i].cache.records[e]);
            && s.cache.policy == policy
            && if Finishes(states, steps, i - 1, e) then
                 e < |s.cache.records| && LeftBy(step.outcome, policy, s.cache.records[e], r, step.now)
               else
                 || (e < |s.cache.records| && r.(refreshing := false) == s.cache.records[e].(refreshing := false))
                 || (e == |s.cache.records| && r.value.None?)
  {
    RunsKeepInv(policy, states, steps, i - 1);
    assert Follows(states, steps, i - 1);
    var s, step := states[i - 1], steps[i - 1];
    hide Inv, Next;
    StepKeepsRecord(s, step, e);
    if Finishes(states, steps, i - 1, e) {
      FinishOutcome(s, step.t, step.outcome, step.now);
    }
  }

  /**
   * The time in the record of a value is the time at which the last successful load of the
   * entry ended, and the value is what that load brought.
   */
  lemma {:induction false} LoadedAtLastSuccess(policy: Policy, states: seq<State>, steps: seq<Step>, i: nat, e: EntryId)
    returns (j: nat)
    requires Honored(policy) && IsRun(policy, states, steps) && i < |states|
    requires e < |states[i].cache.records| && states[i].cache.records[e].value.Some?
    ensures j < i && Succeeds(states, steps, j, e) && forall m :: j < m < i ==> !Succeeds(states, steps, m, e)
    ensures var r := states[i].cache.records[e]; steps[j].outcome == Ok(r.value.value) && steps[j].now == r.loadedAt
    decreases i
  {
    assert i > 0;
    FinishedOrKept(policy, states, steps, i, e);
    hide IsRun, Finishes;
    if Succeeds(states, steps, i - 1, e) {
      j := i - 1;
    } else {
      j := LoadedAtLastSuccess(policy, states, steps, i - 1, e);
    }
  }

  /** After a failure the record says so, and until when not to refresh, as long as no other load ends. */
  lemma {:induction false} RetryAfterFailure(policy: Policy, states: seq<State>, steps: seq<Step>, i: nat, j: nat, e: EntryId)
    requires Honored(policy) && IsRun(policy, states, steps) && j < i < |states|
    requires Finishes(states, steps, j, e) && steps[j].outcome.Err?
    requires forall m :: j < m < i ==> !Finishes(states, steps, m, e)
    ensures e < |states[i].cache.records|
    ensures var r := states[i].cache.records[e];
            r.retryAt == steps[j].now + policy.failureRetry && r.warning == Some(steps[j].outcome.error)
    decreases i
  {
    if j + 1 < i {
      RetryAfterFailure(policy, states, steps, i - 1, j, e);
    }
    RecordsStay(policy, states, steps, i - 1, e);
    FinishedOrKept(policy, states, steps, i, e);
  }

  lemma RecordsStay(policy: Policy, states: seq<State>, steps: seq<Step>, i: nat, e: EntryId)
    requires Honored(policy) && IsRun(policy, states, steps) && i + 1 < |states|
    requires e < |states[i].cache.records| || Finishes(states, steps, i, e)
    ensures e < |states[i + 1].cache.records|
  {
    RunsKeepInv(policy, states, steps, i);
    assert Follows(states, steps, i);
    var s, step := states[i], steps[i];
    match step
    case GetKey(key, force, now) => BeginSection(s.cache, key, force, now);
    case FinishLoad(t, outcome, now) => FinishOutcome(s, t, outcome, now);
    case _ =>
  }

  /** Until the retry time after a failed load has passed, `get` queues no refresh of the entry. */
  lemma NoEarlyRefresh(policy: Policy, states: seq<State>, steps: seq<Step>, i: nat, j: nat, key: Key, e: EntryId)
    requires Honored(policy) && IsRun(policy, states, steps) && j < i < |steps|
    requires Finishes(states, steps, j, e) && steps[j].outcome.Err?
    requires forall m :: j < m < i ==> !Finishes(states, steps, m, e)
    requires steps[i].GetKey? && steps[i].key == key && (key, e) in states[i].cache.entries
    requires steps[i].now < steps[j].now + policy.failureRetry
    ensures |states[i + 1].threads| == |states[i].threads| + 1
    ensures var p := states[i + 1].threads[|states[i].threads|]; !(p.Queued? && p.background)
  {
    RetryAfterFailure(policy, states, steps, i, j, e);
    RunsKeepInv(policy, states, steps, i);
    assert Follows(states, steps, i);
    var s, step := states[i], steps[i];
    hide Inv, Next, IsRun;
    if s.cache.records[e].refreshing {
      GetInFlight(s, key, step.force, step.now, e);
    } else if s.cache.records[e].value.Some? {
      GetValued(s, key, step.force, step.now, e);
    } else {
      assert CacheInv(s.cache) by { InvCache(s); }
      OneEntry(s.cache, key, e);
      GetMissing(s, key, step.force, step.now);
    }
  }

  lemma OneEntry(c: Cache, key: Key, e: EntryId)
    requires CacheInv(c) && (key, e) in c.entries
    ensures forall x: EntryId :: (key, x) in c.entries ==> x == e
  {
    forall x: EntryId | (key, x) in c.entries ensures x == e {
      KeyOf(c.entries, (key, e));
      KeyOf(c.entries, (key, x));
    }
  }
}
