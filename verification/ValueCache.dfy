/** The cache object (app/cache/values.py): its methods are the locked sections of the machine. */
module ValueCaches {
  import opened Wrappers
  import opened OrderedDicts
  import opened Eviction
  import opened CachedValues

  class ValueCache {
    const policy: Policy
    var entries: Dict<Key, EntryId>
    var records: seq<Entry>
    ghost var history: seq<History>
    ghost var epoch: nat

    ghost function State(): Cache
      reads this
    {
      Cache(policy, entries, records, history, epoch)
    }

    constructor (policy: Policy)
      requires policy.maxEntries >= 1
      ensures State() == Empty(policy)
    {
      this.policy := policy;
      entries, records := [], [];
      history, epoch := [], 0;
    }

    method EvictCompleted()
      modifies this`entries
      ensures entries == Shrunk(old(entries), records, policy.maxEntries)
    {
      var dropped;
      entries, dropped := EvictLoop(entries, IdleEntries(records), policy.maxEntries);
    }

    method FindEntry(key: Key) returns (e: EntryId)
      requires Sized(State())
      modifies this
      ensures (State(), e) == EntryFor(old(State()), key)
    {
      match Get(entries, key)
      case Some(found) =>
        e := found;
        assert (key, e) in entries;
        entries := MoveToEnd(entries, key);
        history := history[e := history[e].(touched := epoch)];
      case None =>
        e := |records|;
        records := records + [BLANK];
        history := history + [History(key, epoch, 0, epoch)];
        entries := entries + [(key, e)];
        EvictCompleted();
    }

    method MarkRefreshing(e: EntryId)
      requires e < |records|
      modifies this`records
      ensures State() == Refreshing(old(State()), e)
    {
      records := records[e := records[e].(refreshing := true)];
    }

    /** The decision of `get` on an entry that nobody is loading. */
    method Decide(e: EntryId, force: bool, now: real) returns (reply: Reply)
      requires e < |records|
      modifies this`records
      ensures (State(), reply) == Choose(old(State()), e, force, now)
      ensures var r := old(records[e]);
              var age := if now > r.loadedAt then now - r.loadedAt else 0.0;
              var young := policy.freshFor.Some? ==> age <= policy.freshFor.value;
              var servable := young || age <= policy.freshFor.value + policy.maxStale;
              && (reply == Load <==> r.value.None? || force || !servable)
              && (reply.Serve? && reply.submitted <==> r.value.Some? && !force && !young && servable && now >= r.retryAt)
              && (reply.Serve? <==> reply != Load)
    {
      var r := records[e];
      if r.value.None? {
        MarkRefreshing(e);
        return Load;
      }
      var age := Age(r, now);
      if !force && IsFresh(policy, age) {
        return Serve(Snap(policy, r, now), false);
      }
      if !force && IsStaleServable(policy, age) {
        var submitted := now >= r.retryAt;
        if submitted {
          MarkRefreshing(e);
        }
        return Serve(Snap(policy, records[e], now), submitted);
      }
      MarkRefreshing(e);
      return Load;
    }

    /** The first locked section of `get`. */
    method BeginGet(key: Key, force: bool, now: real) returns (e: EntryId, reply: Reply)
      requires Sized(State())
      modifies this
      ensures (State(), e, reply) == Tock(Begin(old(State()), key, force, now))
    {
      e := FindEntry(key);
      if records[e].refreshing {
        reply := if records[e].value.Some? && !force then Serve(Snap(policy, records[e], now), false) else Park;
      } else {
        reply := Decide(e, force, now);
      }
      epoch := epoch + 1;
    }

    static ghost function Tock(r: (Cache, EntryId, Reply)): (Cache, EntryId, Reply) {
      (Tick(r.0), r.1, r.2)
    }

    /** A woken waiter that holds the lock again. */
    method ResumeGet(e: EntryId, now: real) returns (reply: Reply)
      requires e < |records|
      modifies this
      ensures State() == Tick(Resume(old(State()), e, now).0) && reply == Resume(old(State()), e, now).1
    {
      if records[e].refreshing {
        reply := Park;
      } else if records[e].value.Some? {
        reply := Serve(Snap(policy, records[e], now), false);
      } else {
        MarkRefreshing(e);
        reply := Load;
      }
      epoch := epoch + 1;
    }

    /** The locked section after a load that was started at `from` and succeeded. */
    method FinishSuccess(key: Key, e: EntryId, value: Datum, now: real, ghost from: nat)
      requires e < |records| == |history|
      modifies this
      ensures State() == Tick(RecordSuccess(old(State()), key, e, value, now, from))
    {
      records := records[e := Entry(Some(value), now, false, None, 0.0)];
      history := history[e := history[e].(valueFrom := from)];
      if Get(entries, key) == Some(e) {
        entries := MoveToEnd(entries, key);
        history := history[e := history[e].(touched := epoch)];
      }
      EvictCompleted();
      epoch := epoch + 1;
    }

    /** The locked section after a load that failed. */
    method FinishFailure(e: EntryId, message: string, now: real)
      requires e < |records|
      modifies this
      ensures State() == Tick(RecordFailure(old(State()), e, message, now))
    {
      records := records[e := records[e].(refreshing := false, warning := Some(message),
                                          retryAt := now + policy.failureRetry)];
      epoch := epoch + 1;
    }

    method Invalidate(key: Key) returns (found: bool)
      requires DistinctKeys(entries)
      modifies this
      ensures entries == Drop(old(entries), {key}) && State() == Tick(old(State()).(entries := Drop(old(entries), {key})))
      ensures found <==> HasKey(old(entries), key)
    {
      found := Get(entries, key).Some?;
      RemoveIsDrop(entries, key);
      entries := Remove(entries, key);
      epoch := epoch + 1;
    }

    /** `invalidate_matching`, for a predicate that holds of the given keys. */
    method InvalidateMatching(keys: set<Key>) returns (count: nat)
      modifies this
      ensures State() == Tick(old(State()).(entries := Drop(old(entries), keys)))
      ensures count == |old(entries)| - |entries|
    {
      var before := entries;
      entries := [];
      for i := 0 to |before|
        invariant entries == Drop(before[..i], keys) && |entries| <= i
        invariant records == old(records) && history == old(history) && epoch == old(epoch)
      {
        DropAppend(before[..i], before[i], keys);
        assert before[..i + 1] == before[..i] + [before[i]];
        if before[i].0 !in keys {
          entries := entries + [before[i]];
        }
      }
      assert before[..|before|] == before;
      count := |before| - |entries|;
      epoch := epoch + 1;
    }

    method Clear()
      modifies this
      ensures State() == Tick(old(State()).(entries := InFlight(old(entries), IdleEntries(records))))
    {
      var before, idle := entries, IdleEntries(records);
      entries := [];
      for i := 0 to |before|
        invariant entries == InFlight(before[..i], idle)
        invariant records == old(records) && history == old(history) && epoch == old(epoch)
      {
        InFlightAppend(before[..i], before[i], idle);
        assert before[..i + 1] == before[..i] + [before[i]];
        if before[i].1 !in idle {
          entries := entries + [before[i]];
        }
      }
      assert before[..|before|] == before;
      epoch := epoch + 1;
    }
  }

  lemma {:induction false} RemoveIsDrop(d: Dict<Key, EntryId>, key: Key)
    ensures Remove(d, key) == Drop(d, {key})
  {
    if d != [] {
      RemoveIsDrop(d[1..], key);
    }
  }

  lemma {:induction false} DropAppend(d: Dict<Key, EntryId>, x: (Key, EntryId), keys: set<Key>)
    ensures Drop(d + [x], keys) == Drop(d, keys) + if x.0 in keys then [] else [x]
  {
    if d == [] {
      assert d + [x] == [x] && [x][1..] == [];
    } else {
      assert (d + [x])[1..] == d[1..] + [x];
      DropAppend(d[1..], x, keys);
    }
  }

  lemma {:induction false} InFlightAppend(d: Dict<Key, EntryId>, x: (Key, EntryId), idle: set<EntryId>)
    ensures InFlight(d + [x], idle) == InFlight(d, idle) + if x.1 in idle then [] else [x]
  {
    if d == [] {
      assert d + [x] == [x] && [x][1..] == [];
    } else {
      assert (d + [x])[1..] == d[1..] + [x];
      InFlightAppend(d[1..], x, idle);
    }
  }
}
