/**
 * Whom a `ResourceCache` serves with what: over every run the future that a call of
 * `get_or_create` builds or waits for was created for the key of that call, after the last
 * invalidation of the key, and the dictionary is in the order of last use.
 */
module ResourceRequests {
  import opened Wrappers
  import opened OrderedDicts
  import opened Eviction
  import opened Resources
  import opened ResourceMachine

  // ---- one step -----------------------------------------------------------------------------------

  /** What every step does to the dictionary, entry by entry. */
  lemma StepEntries(s: State, step: Step, e: (Key, FutureId))
    requires Inv(s) && Enabled(s, step)
    ensures var (before, now) := (s.cache.entries, Next(s, step).cache.entries);
            match step
            case GetOrCreate(key) =>
              e in now <==> e in before || (e == (key, |s.cache.futures|) && forall f :: (key, f) !in before)
            case Invalidate(key) => e in now <==> e in before && e.0 != key
            case CloseAll => e !in now
            case FinishBuild(t) => (e in now ==> e in before) && (e in before && e !in now ==> MayGo(s, t, e.1))
            case _ => e in now <==> e in before
  {
    match step
    case GetOrCreate(key) => JoinEntries(s.cache, key, e);
    case FinishBuild(t) =>
      if s.cache.futures[s.threads[t].f].outcome.Ready? {
        SettleEntries(s, t, e);
      } else {
        assert ThreadInv(s.cache, s.threads[t]) && KeyInv(s.cache, s.threads[t]);
        WithdrawSection(s.cache, s.threads[t].f, s.threads[t].key);
      }
    case _ =>
  }

  /** Why a creator's final section may detach a future: it is its own and failed, or there are too many. */
  predicate MayGo(s: State, t: nat, f: FutureId)
    requires Enabled(s, FinishBuild(t))
  {
    if s.cache.futures[s.threads[t].f].outcome.Ready?
    then |s.cache.entries| > s.cache.maxEntries && Done(s.cache, f)
    else f == s.threads[t].f
  }

  lemma JoinEntries(c: Cache, key: Key, e: (Key, FutureId))
    requires DistinctKeys(c.entries)
    ensures e in Join(c, key).0.entries <==> e in c.entries || (e == (key, |c.futures|) && forall f :: (key, f) !in c.entries)
  {
    if HasKey(c.entries, key) {
      MoveToEndKeeps(c.entries, key);
      assert (key, Get(c.entries, key).value) in c.entries;
    } else {
      NoEntry(c.entries, key);
    }
  }

  lemma NoEntry(d: Dict<Key, FutureId>, key: Key)
    requires !HasKey(d, key)
    ensures forall f: FutureId :: (key, f) !in d
  {
  }

  function TouchedBySettle(c: Cache, f: FutureId, key: Key): Dict<Key, FutureId> {
    if Get(c.entries, key) == Some(f) then MoveToEnd(c.entries, key) else c.entries
  }

  lemma SettleEntries(s: State, t: nat, e: (Key, FutureId))
    requires Inv(s) && Enabled(s, FinishBuild(t)) && s.cache.futures[s.threads[t].f].outcome.Ready?
    ensures var now := Next(s, FinishBuild(t)).cache.entries;
            (e in now ==> e in s.cache.entries) && (e in s.cache.entries && e !in now ==> MayGo(s, t, e.1))
  {
    hide Evict, MoveToEnd, Get;
    var c, f, key := s.cache, s.threads[t].f, s.threads[t].key;
    SettleSection(c, f, key);
    var touched := TouchedBySettle(c, f, key);
    TouchedElements(c, f, key);
    EvictKeepsKeys(touched, DoneFutures(c.futures), Excess(touched, c.maxEntries));
    if Excess(touched, c.maxEntries) == 0 {
      NoExcess(touched, DoneFutures(c.futures));
    }
  }

  lemma TouchedElements(c: Cache, f: FutureId, key: Key)
    requires DistinctKeys(c.entries)
    ensures var touched := TouchedBySettle(c, f, key);
            DistinctKeys(touched) && |touched| == |c.entries| && forall e :: e in touched <==> e in c.entries
  {
    if Get(c.entries, key) == Some(f) {
      MoveToEndKeeps(c.entries, key);
    }
  }

  lemma NoExcess(d: Dict<Key, FutureId>, idle: set<FutureId>)
    ensures Evict(d, idle, 0) == (d, [])
  {
  }

  /** A call joins the future that stands under its key, or starts a new one. */
  lemma RequestFinds(s: State, key: Key)
    requires Inv(s)
    ensures var s' := Next(s, GetOrCreate(key));
            && |s'.threads| == |s.threads| + 1
            && var p := s'.threads[|s.threads|];
               if exists f :: (key, f) in s.cache.entries
               then p.Waiting? && p.key == key && (key, p.f) in s.cache.entries && s'.cache.futures == s.cache.futures
               else p == Creating(|s.cache.futures|, key) && |s'.cache.futures| == |s.cache.futures| + 1
  {
    if f :| (key, f) in s.cache.entries {
      KeyOf(s.cache.entries, (key, f));
    }
  }

  // ---- whose future -----------------------------------------------------------------------------------

  /** The call is one of `get_or_create`, at work on a future. */
  predicate Asks(p: Thread) {
    p.Waiting? || p.Creating? || p.Publishing?
  }

  /** Step `j` of the run was `get_or_create(key)`, found nothing, and created the future. */
  ghost predicate CreatedAt(states: seq<State>, steps: seq<Step>, j: nat, f: FutureId, key: Key) {
    && j < |steps| && j + 1 < |states| && steps[j] == GetOrCreate(key)
    && |states[j].cache.futures| == f && |states[j + 1].cache.futures| == f + 1
  }

  ghost predicate CreatedFor(states: seq<State>, steps: seq<Step>, i: nat, f: FutureId, key: Key) {
    exists j: nat :: j < i && CreatedAt(states, steps, j, f, key)
  }

  lemma CreatedEarlier(states: seq<State>, steps: seq<Step>, i: nat, f: FutureId, key: Key)
    requires CreatedFor(states, steps, i, f, key)
    ensures CreatedFor(states, steps, i + 1, f, key)
  {
    var j: nat :| j < i && CreatedAt(states, steps, j, f, key);
  }

  /** What stands under a key was created for that key. */
  lemma {:induction false} EntriesOfOwnKey(max: nat, states: seq<State>, steps: seq<Step>, i: nat, e: (Key, FutureId))
    requires IsRun(max, states, steps) && i < |states| && e in states[i].cache.entries
    ensures CreatedFor(states, steps, i, e.1, e.0)
    decreases i
  {
    assert i > 0;
    RunsKeepInv(max, states, steps, i - 1);
    assert Follows(states, steps, i - 1);
    var s, step := states[i - 1], steps[i - 1];
    StepEntries(s, step, e);
    hide Inv, Next, CreatedFor;
    if e in s.cache.entries {
      EntriesOfOwnKey(max, states, steps, i - 1, e);
      CreatedEarlier(states, steps, i - 1, e.1, e.0);
    } else {
      assert step.GetOrCreate? && e == (step.key, |s.cache.futures|);
      RequestFinds(s, step.key);
      assert CreatedAt(states, steps, i - 1, e.1, e.0);
      CreatedNow(states, steps, i - 1, e.1, e.0);
    }
  }

  lemma CreatedNow(states: seq<State>, steps: seq<Step>, j: nat, f: FutureId, key: Key)
    requires CreatedAt(states, steps, j, f, key)
    ensures CreatedFor(states, steps, j + 1, f, key)
  {
  }

  /** A call that asks keeps its key and its future; a new one is a call of `get_or_create`. */
  lemma StepThreads(s: State, step: Step, t: nat)
    requires Inv(s) && Enabled(s, step) && t < |Next(s, step).threads| && Asks(Next(s, step).threads[t])
    ensures var p := Next(s, step).threads[t];
            || (t < |s.threads| && Asks(s.threads[t]) && s.threads[t].key == p.key && s.threads[t].f == p.f)
            || (t == |s.threads| && step == GetOrCreate(p.key))
  {
  }

  /**
   * In every run, the future that a call builds or waits for was created for the key that the
   * call was made with.
   */
  lemma {:induction false} FutureOfOwnKey(max: nat, states: seq<State>, steps: seq<Step>, i: nat, t: nat)
    requires IsRun(max, states, steps) && i < |states| && t < |states[i].threads| && Asks(states[i].threads[t])
    ensures CreatedFor(states, steps, i, states[i].threads[t].f, states[i].threads[t].key)
    ensures exists j :: 0 <= j < i && j < |steps| && steps[j] == GetOrCreate(states[i].threads[t].key) && |states[j].threads| == t
    decreases i
  {
    assert i > 0;
    RunsKeepInv(max, states, steps, i - 1);
    assert Follows(states, steps, i - 1);
    var s, step, p := states[i - 1], steps[i - 1], states[i].threads[t];
    StepThreads(s, step, t);
    hide Inv, Next, CreatedFor;
    if t < |s.threads| {
      FutureOfOwnKey(max, states, steps, i - 1, t);
      CreatedEarlier(states, steps, i - 1, p.f, p.key);
    } else {
      RequestFinds(s, p.key);
      if p.Waiting? {
        EntriesOfOwnKey(max, states, steps, i - 1, (p.key, p.f));
        CreatedEarlier(states, steps, i - 1, p.f, p.key);
      } else {
        CreatedNow(states, steps, i - 1, p.f, p.key);
      }
      assert steps[i - 1] == GetOrCreate(p.key) && |states[i - 1].threads| == t;
    }
  }

  lemma {:induction false} FuturesGrow(max: nat, states: seq<State>, steps: seq<Step>, j: nat, i: nat)
    requires IsRun(max, states, steps) && j <= i < |states|
    ensures |states[j].cache.futures| <= |states[i].cache.futures|
    decreases i
  {
    if j < i {
      FuturesGrow(max, states, steps, j, i - 1);
      assert Follows(states, steps, i - 1);
    }
  }

  /** A future is created once, so two calls share one only if they ask for one key. */
  lemma CreatedOnce(max: nat, states: seq<State>, steps: seq<Step>, i: nat, f: FutureId, k: Key, l: Key)
    requires IsRun(max, states, steps) && CreatedFor(states, steps, i, f, k) && CreatedFor(states, steps, i, f, l)
    ensures k == l
  {
    var a: nat :| a < i && CreatedAt(states, steps, a, f, k);
    var b: nat :| b < i && CreatedAt(states, steps, b, f, l);
    if a < b {
      FuturesGrow(max, states, steps, a + 1, b);
    } else if b < a {
      FuturesGrow(max, states, steps, b + 1, a);
    }
  }

  lemma SharedMeansSameKey(max: nat, states: seq<State>, steps: seq<Step>, i: nat, t: nat, u: nat)
    requires IsRun(max, states, steps) && i < |states| && t < |states[i].threads| && u < |states[i].threads|
    requires var (p, q) := (states[i].threads[t], states[i].threads[u]); Asks(p) && Asks(q) && p.f == q.f
    ensures states[i].threads[t].key == states[i].threads[u].key
  {
    FutureOfOwnKey(max, states, steps, i, t);
    FutureOfOwnKey(max, states, steps, i, u);
    CreatedOnce(max, states, steps, i, states[i].threads[t].f, states[i].threads[t].key, states[i].threads[u].key);
  }

  // ---- invalidation -------------------------------------------------------------------------------------

  predicate Removes(step: Step, key: Key) {
    step == Invalidate(key) || step == CloseAll
  }

  /** What stands under a key has been created after every invalidation of the key. */
  lemma {:induction false} CreatedAfterInvalidation(max: nat, states: seq<State>, steps: seq<Step>, i: nat, j: nat, e: (Key, FutureId))
    requires IsRun(max, states, steps) && i < |states| && e in states[i].cache.entries && j < i && Removes(steps[j], e.0)
    ensures |states[j].cache.futures| <= e.1
    decreases i
  {
    RunsKeepInv(max, states, steps, i - 1);
    assert Follows(states, steps, i - 1);
    StepEntries(states[i - 1], steps[i - 1], e);
    hide Inv, Next;
    if e in states[i - 1].cache.entries {
      CreatedAfterInvalidation(max, states, steps, i - 1, j, e);
    } else {
      FuturesGrow(max, states, steps, j, i - 1);
    }
  }

  /** A call that is made after an invalidation of its key is never served what was built before. */
  lemma ServedAfterInvalidation(max: nat, states: seq<State>, steps: seq<Step>, i: nat, j: nat, key: Key)
    requires IsRun(max, states, steps) && j < i < |steps| && Removes(steps[j], key) && steps[i] == GetOrCreate(key)
    ensures var t := |states[i].threads|;
            && t < |states[i + 1].threads| && Asks(states[i + 1].threads[t])
            && |states[j].cache.futures| <= states[i + 1].threads[t].f
  {
    RunsKeepInv(max, states, steps, i);
    assert Follows(states, steps, i);
    RequestFinds(states[i], key);
    var p := states[i + 1].threads[|states[i].threads|];
    if p.Waiting? {
      CreatedAfterInvalidation(max, states, steps, i, j, (key, p.f));
    } else {
      FuturesGrow(max, states, steps, j, i);
    }
  }

  // ---- least recently used ----------------------------------------------------------------------------------

  /** `a` stands before `b`. */
  ghost predicate Before(d: Dict<Key, FutureId>, a: (Key, FutureId), b: (Key, FutureId)) {
    exists p, q :: 0 <= p < q < |d| && d[p] == a && d[q] == b
  }

  lemma {:induction false} BeforeInSub(r: Dict<Key, FutureId>, d: Dict<Key, FutureId>, a: (Key, FutureId), b: (Key, FutureId))
    requires SubDict(r, d) && Before(r, a, b)
    ensures Before(d, a, b)
  {
    var p, q :| 0 <= p < q < |r| && r[p] == a && r[q] == b;
    if r[0] == d[0] {
      if p == 0 {
        SubDictElements(r[1..], d[1..]);
        assert r[1..][q - 1] in d[1..];
        var j :| 0 <= j < |d[1..]| && d[1..][j] == b;
        assert d[j + 1] == b;
      } else {
        assert r[1..][p - 1] == a && r[1..][q - 1] == b;
        BeforeInSub(r[1..], d[1..], a, b);
        BeforeLater(d, a, b);
      }
    } else {
      BeforeInSub(r, d[1..], a, b);
      BeforeLater(d, a, b);
    }
  }

  lemma BeforeLater(d: Dict<Key, FutureId>, a: (Key, FutureId), b: (Key, FutureId))
    requires d != [] && Before(d[1..], a, b)
    ensures Before(d, a, b)
  {
    var p, q :| 0 <= p < q < |d[1..]| && d[1..][p] == a && d[1..][q] == b;
    assert d[p + 1] == a && d[q + 1] == b;
  }

  /** The step uses the entry of the key: a call asks for it, or its creator settles. */
  predicate Touches(s: State, step: Step, key: Key) {
    match step
    case GetOrCreate(k) => k == key
    case FinishBuild(t) =>
      && Enabled(s, step) && s.threads[t].key == key && s.cache.futures[s.threads[t].f].outcome.Ready?
      && (key, s.threads[t].f) in s.cache.entries
    case _ => false
  }

  lemma BeforeMoved(d: Dict<Key, FutureId>, key: Key, a: (Key, FutureId), b: (Key, FutureId))
    requires DistinctKeys(d) && HasKey(d, key) && Before(MoveToEnd(d, key), a, b)
    ensures a.0 != key && (b.0 != key ==> Before(d, a, b))
  {
    var rest := Remove(d, key);
    var last := (key, Get(d, key).value);
    MoveToEndKeeps(d, key);
    var p, q :| 0 <= p < q < |rest + [last]| && (rest + [last])[p] == a && (rest + [last])[q] == b;
    assert rest[p] in rest;
    if b.0 != key {
      assert rest[p] == a && rest[q] == b;
      RemoveSubDict(d, key);
      BeforeInSub(rest, d, a, b);
    }
  }

  lemma BeforeAppended(d: Dict<Key, FutureId>, last: (Key, FutureId), a: (Key, FutureId), b: (Key, FutureId))
    requires !HasKey(d, last.0) && Before(d + [last], a, b)
    ensures a.0 != last.0 && (b.0 != last.0 ==> Before(d, a, b))
  {
    var p, q :| 0 <= p < q < |d + [last]| && (d + [last])[p] == a && (d + [last])[q] == b;
    assert d[p] == a;
    if b.0 != last.0 {
      assert d[q] == b;
    }
  }

  /** A step puts what it uses last and leaves the order of the others. */
  lemma StepOrder(s: State, step: Step, a: (Key, FutureId), b: (Key, FutureId))
    requires Inv(s) && Enabled(s, step) && Before(Next(s, step).cache.entries, a, b)
    ensures !Touches(s, step, a.0)
    ensures Touches(s, step, b.0) || Before(s.cache.entries, a, b)
  {
    hide Evict, Get, MoveToEnd, Remove, Before, FutureInv, Balanced, CreatorsInv, ThreadsInv;
    match step
    case GetOrCreate(key) =>
      if HasKey(s.cache.entries, key) {
        BeforeMoved(s.cache.entries, key, a, b);
      } else {
        BeforeAppended(s.cache.entries, (key, |s.cache.futures|), a, b);
      }
    case Invalidate(key) => PopOrder(s.cache, key, a, b);
    case CloseAll => NotBefore(a, b);
    case FinishBuild(t) => FinishOrder(s, t, a, b);
    case _ =>
  }

  lemma PopOrder(c: Cache, key: Key, a: (Key, FutureId), b: (Key, FutureId))
    requires Before(Pop(c, key).0.entries, a, b)
    ensures Before(c.entries, a, b)
  {
    if HasKey(c.entries, key) {
      RemoveSubDict(c.entries, key);
      BeforeInSub(Remove(c.entries, key), c.entries, a, b);
    }
  }

  lemma NotBefore(a: (Key, FutureId), b: (Key, FutureId))
    ensures !Before([], a, b)
  {
  }

  lemma FinishOrder(s: State, t: nat, a: (Key, FutureId), b: (Key, FutureId))
    requires DistinctKeys(s.cache.entries) && Enabled(s, FinishBuild(t))
    requires Before(Next(s, FinishBuild(t)).cache.entries, a, b)
    ensures !Touches(s, FinishBuild(t), a.0)
    ensures Touches(s, FinishBuild(t), b.0) || Before(s.cache.entries, a, b)
  {
    hide Evict, MoveToEnd, Remove, Before;
    var c, f, key := s.cache, s.threads[t].f, s.threads[t].key;
    if (key, f) in c.entries {
      KeyOf(c.entries, (key, f));
    }
    if c.futures[f].outcome.Ready? {
      var touched := TouchedBySettle(c, f, key);
      EvictSubDict(touched, DoneFutures(c.futures), Excess(touched, c.maxEntries));
      BeforeInSub(Evict(touched, DoneFutures(c.futures), Excess(touched, c.maxEntries)).0, touched, a, b);
      if Get(c.entries, key) == Some(f) {
        BeforeMoved(c.entries, key, a, b);
      }
    } else if Get(c.entries, key) == Some(f) {
      RemoveSubDict(c.entries, key);
      BeforeInSub(Remove(c.entries, key), c.entries, a, b);
    }
  }

  /** Step `j` used the key `l`, and none from then on up to step `i` used `k`. */
  ghost predicate UsedSince(states: seq<State>, steps: seq<Step>, i: nat, j: nat, k: Key, l: Key)
    requires i <= |steps| && i <= |states|
  {
    && j < i && Touches(states[j], steps[j], l)
    && forall m :: j <= m < i ==> !Touches(states[m], steps[m], k)
  }

  /**
   * The dictionary is ordered by last use: of two entries the later one has been used after
   * the last use of the earlier one. So what eviction takes first is least recently used.
   */
  lemma {:induction false} OrderedByUse(max: nat, states: seq<State>, steps: seq<Step>, i: nat, a: (Key, FutureId), b: (Key, FutureId))
    returns (j: nat)
    requires IsRun(max, states, steps) && i < |states| && Before(states[i].cache.entries, a, b)
    ensures UsedSince(states, steps, i, j, a.0, b.0)
    decreases i
  {
    assert i > 0;
    RunsKeepInv(max, states, steps, i - 1);
    assert Follows(states, steps, i - 1);
    hide Inv, Next, Before, Touches, UsedSince;
    StepOrder(states[i - 1], steps[i - 1], a, b);
    if Touches(states[i - 1], steps[i - 1], b.0) {
      j := i - 1;
      UsedNow(states, steps, i, a.0, b.0);
    } else {
      j := OrderedByUse(max, states, steps, i - 1, a, b);
      UsedStill(states, steps, i, j, a.0, b.0);
    }
  }

  lemma UsedNow(states: seq<State>, steps: seq<Step>, i: nat, k: Key, l: Key)
    requires 1 <= i <= |steps| && i <= |states| && Touches(states[i - 1], steps[i - 1], l) && !Touches(states[i - 1], steps[i - 1], k)
    ensures UsedSince(states, steps, i, i - 1, k, l)
  {
  }

  lemma UsedStill(states: seq<State>, steps: seq<Step>, i: nat, j: nat, k: Key, l: Key)
    requires 1 <= i <= |steps| && i <= |states| && UsedSince(states, steps, i - 1, j, k, l)
    requires !Touches(states[i - 1], steps[i - 1], k)
    ensures UsedSince(states, steps, i, j, k, l)
  {
    hide Touches;
  }

  /** Of the completed futures, eviction keeps none that stands before one it detaches. */
  lemma EvictionTakesOldest(s: State, t: nat, a: (Key, FutureId), b: (Key, FutureId))
    requires Inv(s) && Enabled(s, FinishBuild(t)) && s.cache.futures[s.threads[t].f].outcome.Ready?
    requires var now := Next(s, FinishBuild(t)).cache.entries;
             a in now && Done(s.cache, a.1) && b in s.cache.entries && b !in now
    ensures !Before(TouchedBySettle(s.cache, s.threads[t].f, s.threads[t].key), a, b)
  {
    hide Get, MoveToEnd;
    var c := s.cache;
    var touched := TouchedBySettle(c, s.threads[t].f, s.threads[t].key);
    var idle := DoneFutures(c.futures);
    TouchedElements(c, s.threads[t].f, s.threads[t].key);
    var cut := EvictsOldest(touched, idle, Excess(touched, c.maxEntries));
    KeptAfterCut(touched, idle, cut, a, b);
  }

  lemma KeptAfterCut(d: Dict<Key, FutureId>, idle: set<FutureId>, cut: nat, a: (Key, FutureId), b: (Key, FutureId))
    requires DistinctKeys(d) && cut <= |d| && a.1 in idle
    requires a in Busy(d[..cut], idle) + d[cut..] && b !in Busy(d[..cut], idle) + d[cut..]
    ensures !Before(d, a, b)
  {
    BusyOnly(d[..cut], idle, a);
    assert a in d[cut..];
    var m :| 0 <= m < |d[cut..]| && d[cut..][m] == a;
    assert d[cut + m] == a;
    forall q | cut + m < q < |d| ensures d[q] != b {
      assert d[cut..][q - cut] == d[q];
    }
  }

  lemma {:induction false} BusyOnly(d: Dict<Key, FutureId>, idle: set<FutureId>, a: (Key, FutureId))
    requires a.1 in idle
    ensures a !in Busy(d, idle)
  {
    if d != [] {
      BusyOnly(d[1..], idle, a);
    }
  }
}
