/**
 * The state a `ValueCache` guards and the effect of each of its locked sections
 * (app/cache/values.py). An entry is known by its number, because it outlives its place in
 * the dictionary; `history` and `epoch` count the sections and are not part of the cache.
 */
module CachedValues {
  import opened Wrappers
  import opened OrderedDicts
  import opened Eviction

  type Key = string

  type Datum = string

  type EntryId = nat

  datatype Policy = Policy(freshFor: Option<real>, maxStale: real, failureRetry: real, maxEntries: nat)

  datatype Entry = Entry(
    value: Option<Datum>,
    loadedAt: real,
    refreshing: bool,
    warning: Option<string>,
    retryAt: real)

  /** When an entry was created and last touched, and when the load of its value was started. */
  datatype History = History(key: Key, created: nat, valueFrom: nat, touched: nat)

  datatype Cache = Cache(
    policy: Policy,
    entries: Dict<Key, EntryId>,
    records: seq<Entry>,
    history: seq<History>,
    epoch: nat)

  datatype Snapshot = Snapshot(value: Datum, isFresh: bool, age: real, refreshing: bool, warning: Option<string>)

  /** What a locked section of `get` decides; `submitted` tells that it queued a refresh. */
  datatype Reply = Serve(snapshot: Snapshot, submitted: bool) | Park | Load

  const BLANK := Entry(None, 0.0, false, None, 0.0)

  function Empty(policy: Policy): Cache {
    Cache(policy, [], [], [], 0)
  }

  function IdleEntries(records: seq<Entry>): set<EntryId> {
    set e: EntryId | 0 <= e < |records| && !records[e].refreshing
  }

  function Shrunk(entries: Dict<Key, EntryId>, records: seq<Entry>, max: nat): Dict<Key, EntryId> {
    Evict(entries, IdleEntries(records), Excess(entries, max)).0
  }

  function Touched(c: Cache, e: EntryId): seq<History>
    requires e < |c.history|
  {
    c.history[e := c.history[e].(touched := c.epoch)]
  }

  predicate Sized(c: Cache) {
    && |c.records| == |c.history|
    && forall x :: x in c.entries ==> x.1 < |c.records|
  }

  /** `_entry_for`: find and touch the entry of a key, or insert one and evict. */
  function EntryFor(c: Cache, key: Key): (r: (Cache, EntryId))
    requires Sized(c)
    ensures r.1 < |r.0.records|
  {
    if HasKey(c.entries, key) then
      var e := Get(c.entries, key).value;
      (c.(entries := MoveToEnd(c.entries, key), history := Touched(c, e)), e)
    else
      var e: EntryId := |c.records|;
      var records := c.records + [BLANK];
      (c.(entries := Shrunk(c.entries + [(key, e)], records, c.policy.maxEntries),
          records := records,
          history := c.history + [History(key, c.epoch, 0, c.epoch)]), e)
  }

  function Age(r: Entry, now: real): real {
    if now - r.loadedAt > 0.0 then now - r.loadedAt else 0.0
  }

  predicate IsFresh(p: Policy, age: real) {
    p.freshFor.None? || age <= p.freshFor.value
  }

  predicate IsStaleServable(p: Policy, age: real) {
    p.freshFor.Some? && age <= p.freshFor.value + p.maxStale
  }

  function Snap(p: Policy, r: Entry, now: real): Snapshot
    requires r.value.Some?
  {
    Snapshot(r.value.value, IsFresh(p, Age(r, now)), Age(r, now), r.refreshing, r.warning)
  }

  function Refreshing(c: Cache, e: EntryId): Cache
    requires e < |c.records|
  {
    c.(records := c.records[e := c.records[e].(refreshing := true)])
  }

  /** The decision on an entry that nobody is loading. */
  function Choose(c: Cache, e: EntryId, force: bool, now: real): (Cache, Reply)
    requires e < |c.records|
  {
    var r := c.records[e];
    if r.value.None? then (Refreshing(c, e), Load)
    else if !force && IsFresh(c.policy, Age(r, now)) then (c, Serve(Snap(c.policy, r, now), false))
    else if !force && IsStaleServable(c.policy, Age(r, now)) then
      if now >= r.retryAt then
        (Refreshing(c, e), Serve(Snap(c.policy, r.(refreshing := true), now), true))
      else (c, Serve(Snap(c.policy, r, now), false))
    else (Refreshing(c, e), Load)
  }

  /** The first locked section of `get`. */
  function Begin(c: Cache, key: Key, force: bool, now: real): (Cache, EntryId, Reply)
    requires Sized(c)
  {
    var (c', e) := EntryFor(c, key);
    var r := c'.records[e];
    if r.refreshing then
      if r.value.Some? && !force then (c', e, Serve(Snap(c.policy, r, now), false)) else (c', e, Park)
    else
      var (c'', reply) := Choose(c', e, force, now);
      (c'', e, reply)
  }

  /** What a waiter does when it has been woken and holds the lock again. */
  function Resume(c: Cache, e: EntryId, now: real): (Cache, Reply)
    requires e < |c.records|
  {
    var r := c.records[e];
    if r.refreshing then (c, Park)
    else if r.value.Some? then (c, Serve(Snap(c.policy, r, now), false))
    else (Refreshing(c, e), Load)
  }

  /** `_record_success`; `from` is when the load was started. */
  function RecordSuccess(c: Cache, key: Key, e: EntryId, value: Datum, now: real, from: nat): Cache
    requires e < |c.records| == |c.history|
  {
    var records := c.records[e := Entry(Some(value), now, false, None, 0.0)];
    var own := Get(c.entries, key) == Some(e);
    var entries := if own then MoveToEnd(c.entries, key) else c.entries;
    var h := c.history[e].(valueFrom := from);
    c.(records := records,
       entries := Shrunk(entries, records, c.policy.maxEntries),
       history := c.history[e := if own then h.(touched := c.epoch) else h])
  }

  function RecordFailure(c: Cache, e: EntryId, message: string, now: real): Cache
    requires e < |c.records|
  {
    c.(records := c.records[e := c.records[e].(refreshing := false, warning := Some(message),
                                               retryAt := now + c.policy.failureRetry)])
  }

  /** `invalidate` and `invalidate_matching`: entries go, whatever is in flight for them. */
  function Drop(entries: Dict<Key, EntryId>, keys: set<Key>): (r: Dict<Key, EntryId>)
    ensures forall x :: x in r <==> x in entries && x.0 !in keys
  {
    if entries == [] then []
    else
      assert entries == [entries[0]] + entries[1..];
      if entries[0].0 in keys then Drop(entries[1..], keys) else [entries[0]] + Drop(entries[1..], keys)
  }

  /** `clear` keeps what is being loaded. */
  function InFlight(entries: Dict<Key, EntryId>, idle: set<EntryId>): (r: Dict<Key, EntryId>)
    ensures forall x :: x in r <==> x in entries && x.1 !in idle
  {
    if entries == [] then []
    else
      assert entries == [entries[0]] + entries[1..];
      if entries[0].1 in idle then InFlight(entries[1..], idle) else [entries[0]] + InFlight(entries[1..], idle)
  }

  // ---- recency ---------------------------------------------------------------------------------

  /** The dictionary is ordered by the time of the last touch. */
  ghost predicate ByRecency(entries: Dict<Key, EntryId>, history: seq<History>) {
    && (forall x :: x in entries ==> x.1 < |history|)
    && forall i, j :: 0 <= i < j < |entries| ==> history[entries[i].1].touched < history[entries[j].1].touched
  }

  ghost predicate TouchedBefore(entries: Dict<Key, EntryId>, history: seq<History>, epoch: nat) {
    forall x :: x in entries ==> x.1 < |history| && history[x.1].touched < epoch
  }

  lemma FirstOldest(d: Dict<Key, EntryId>, history: seq<History>)
    requires ByRecency(d, history) && d != []
    ensures forall x :: x in d[1..] ==> x.1 < |history| && d[0] in d && history[d[0].1].touched < history[x.1].touched
    ensures ByRecency(d[1..], history)
  {
    assert d == [d[0]] + d[1..];
    forall x | x in d[1..] ensures x.1 < |history| && history[d[0].1].touched < history[x.1].touched {
      var j :| 0 <= j < |d[1..]| && d[1..][j] == x;
      assert d[j + 1] == x;
    }
  }

  lemma {:induction false} SubDictOrder(r: Dict<Key, EntryId>, d: Dict<Key, EntryId>, history: seq<History>)
    requires SubDict(r, d) && ByRecency(d, history)
    ensures ByRecency(r, history)
  {
    SubDictElements(r, d);
    if r != [] {
      assert d == [d[0]] + d[1..];
      if r[0] == d[0] {
        SubDictOrder(r[1..], d[1..], history);
        SubDictElements(r[1..], d[1..]);
        FirstOldest(d, history);
        assert r == [r[0]] + r[1..];
        forall i, j | 0 <= i < j < |r| ensures history[r[i].1].touched < history[r[j].1].touched {
          assert r[1..][j - 1] in d[1..];
          if i > 0 {
            assert r[1..][i - 1] == r[i];
          }
        }
      } else {
        FirstOldest(d, history);
        SubDictOrder(r, d[1..], history);
      }
    }
  }

  lemma {:induction false} DropSubDict(d: Dict<Key, EntryId>, keys: set<Key>)
    ensures SubDict(Drop(d, keys), d)
  {
    if d != [] {
      DropSubDict(d[1..], keys);
      if d[0].0 in keys {
        SubDictSkip(Drop(d, keys), d);
      }
    }
  }

  lemma {:induction false} InFlightSubDict(d: Dict<Key, EntryId>, idle: set<EntryId>)
    ensures SubDict(InFlight(d, idle), d)
  {
    if d != [] {
      InFlightSubDict(d[1..], idle);
      if d[0].1 in idle {
        SubDictSkip(InFlight(d, idle), d);
      }
    }
  }

  // ---- what every section keeps ------------------------------------------------------------------

  /** The dictionary is within its bound and in order of touch; stamps lie in the past. */
  ghost predicate CacheInv(c: Cache) {
    && Sized(c) && DistinctKeys(c.entries) && 1 <= c.policy.maxEntries && |c.entries| <= c.policy.maxEntries
    && (forall x :: x in c.entries ==> c.history[x.1].key == x.0)
    && ByRecency(c.entries, c.history)
    && forall e: EntryId :: e < |c.records| ==> EntryInv(c.records[e], c.history[e], c.epoch)
  }

  ghost predicate EntryInv(r: Entry, h: History, epoch: nat) {
    h.created < epoch && h.touched < epoch && (r.value.Some? ==> h.created <= h.valueFrom)
  }

  function Tick(c: Cache): Cache {
    c.(epoch := c.epoch + 1)
  }

  /** Entries keep their key and the time of their creation. */
  ghost predicate SameOrigin(h: seq<History>, h': seq<History>) {
    |h| <= |h'| && forall e: EntryId :: e < |h| ==> h'[e].key == h[e].key && h'[e].created == h[e].created
  }

  lemma MoveToEndRecency(d: Dict<Key, EntryId>, history: seq<History>, key: Key, epoch: nat, h: History)
    requires ByRecency(d, history) && TouchedBefore(d, history, epoch) && HasKey(d, key)
    requires h.touched == epoch && forall x :: x in d && x.1 == Get(d, key).value ==> x.0 == key
    ensures Get(d, key).value < |history| && ByRecency(MoveToEnd(d, key), history[Get(d, key).value := h])
  {
    var e: EntryId := Get(d, key).value;
    assert (key, e) in d;
    var rest: Dict<Key, EntryId> := Remove(d, key);
    RemoveSubDict(d, key);
    SubDictOrder(rest, d, history);
    var moved: Dict<Key, EntryId> := MoveToEnd(d, key);
    assert moved == rest + [(key, e)];
    forall i | 0 <= i < |rest| ensures rest[i].1 != e && history[rest[i].1].touched < epoch {
      assert rest[i] in rest;
    }
    forall x | x in moved ensures x.1 < |history| {
      assert x in rest || x == (key, e);
    }
  }

  lemma InvBounds(c: Cache)
    requires CacheInv(c)
    ensures TouchedBefore(c.entries, c.history, c.epoch)
  {
    forall x | x in c.entries ensures c.history[x.1].touched < c.epoch {
      assert EntryInv(c.records[x.1], c.history[x.1], c.epoch);
    }
  }

  lemma TouchKeeps(c: Cache, key: Key)
    requires CacheInv(c) && HasKey(c.entries, key)
    ensures var e := Get(c.entries, key).value;
            && e < |c.records| && c.history[e].key == key
            && CacheInv(Tick(c.(entries := MoveToEnd(c.entries, key), history := Touched(c, e))))
  {
    hide MoveToEnd, ByRecency;
    var e := Get(c.entries, key).value;
    assert (key, e) in c.entries;
    InvBounds(c);
    MoveToEndKeeps(c.entries, key);
    MoveToEndRecency(c.entries, c.history, key, c.epoch, c.history[e].(touched := c.epoch));
  }

  /** Making room for a new entry: one idle entry goes, and the new one is idle. */
  lemma ShrunkFits(entries: Dict<Key, EntryId>, records: seq<Entry>, max: nat, last: EntryId)
    requires 1 <= max && |entries| <= max + 1 && (|entries| > max ==> last in IdleEntries(records))
    requires entries != [] ==> entries[|entries| - 1].1 == last
    ensures |Shrunk(entries, records, max)| <= max
  {
    var idle := IdleEntries(records);
    var cut := EvictsOldest(entries, idle, Excess(entries, max));
    var (kept, dropped) := Evict(entries, idle, Excess(entries, max));
    if dropped == [] && |entries| > max {
      EvictsNone(entries, idle, Excess(entries, max));
      assert false;
    }
  }

  lemma {:induction false} EvictsNone(entries: Dict<Key, EntryId>, idle: set<EntryId>, excess: nat)
    requires Evict(entries, idle, excess).1 == []
    ensures Evict(entries, idle, excess).0 == entries
  {
    if entries != [] && excess != 0 && entries[0].1 !in idle {
      EvictsNone(entries[1..], idle, excess);
      assert entries == [entries[0]] + entries[1..];
    }
  }

  lemma InsertKeeps(c: Cache, key: Key)
    requires CacheInv(c) && !HasKey(c.entries, key)
    ensures CacheInv(Tick(EntryFor(c, key).0))
    ensures forall x :: x in EntryFor(c, key).0.entries ==> x in c.entries || x == (key, |c.records|)
  {
    hide Evict, MoveToEnd, SubDict, ByRecency, Values, Get;
    var e: EntryId := |c.records|;
    var grown := c.entries + [(key, e)];
    var c' := EntryFor(c, key).0;
    GrownInOrder(c, key);
    AppendKeeps(c.entries, key, e);
    ShrunkFits(grown, c'.records, c.policy.maxEntries, e);
    EvictSubDict(grown, IdleEntries(c'.records), Excess(grown, c.policy.maxEntries));
    SubDictElements(c'.entries, grown);
    SubDictKeys(c'.entries, grown);
    SubDictOrder(c'.entries, grown, c'.history);
  }

  /** A new entry is touched last. */
  lemma GrownInOrder(c: Cache, key: Key)
    requires CacheInv(c)
    ensures ByRecency(c.entries + [(key, |c.records|)], c.history + [History(key, c.epoch, 0, c.epoch)])
  {
    InvBounds(c);
    forall i | 0 <= i < |c.entries| ensures c.entries[i].1 < |c.records| && c.history[c.entries[i].1].touched < c.epoch {
      assert c.entries[i] in c.entries;
    }
    hide CacheInv, EntryInv, DistinctKeys;
  }

  lemma EntryForKeeps(c: Cache, key: Key)
    requires CacheInv(c)
    ensures var (c', e) := EntryFor(c, key);
            && CacheInv(Tick(c')) && SameOrigin(c.history, c'.history) && c'.history[e].key == key
            && c'.epoch == c.epoch && c'.policy == c.policy
            && (forall i :: 0 <= i < |c.records| ==> c'.records[i] == c.records[i])
            && (e < |c.records| ==> c'.records == c.records)
            && (e >= |c.records| ==> e == |c.records| && c'.records == c.records + [BLANK] && c'.history[e].created == c.epoch)
            && forall x :: x in c'.entries ==> x in c.entries || (x == (key, |c.records|) && e == |c.records|)
  {
    if HasKey(c.entries, key) {
      TouchKeeps(c, key);
      MoveToEndKeeps(c.entries, key);
    } else {
      InsertKeeps(c, key);
    }
  }

  /** Changing the load state of an entry without giving it a value. */
  lemma RecordKeeps(c: Cache, e: EntryId, r: Entry)
    requires CacheInv(Tick(c)) && e < |c.records| && r.value == c.records[e].value
    ensures CacheInv(Tick(c.(records := c.records[e := r])))
  {
  }

  /** Storing a value, before its entry is touched and room is made. */
  lemma StoreKeeps(c: Cache, e: EntryId, r: Entry, from: nat)
    requires CacheInv(c) && e < |c.records| && c.history[e].created <= from
    ensures var h := c.history[e].(valueFrom := from);
            CacheInv(c.(records := c.records[e := r], history := c.history[e := h]))
  {
    var h := c.history[e].(valueFrom := from);
    var history := c.history[e := h];
    assert EntryInv(c.records[e], c.history[e], c.epoch);
    forall i | 0 <= i < |c.entries| ensures c.entries[i].1 < |c.history| {
      assert c.entries[i] in c.entries;
    }
  }

  lemma RoomKeeps(c: Cache)
    requires CacheInv(c)
    ensures var entries := Shrunk(c.entries, c.records, c.policy.maxEntries);
            CacheInv(c.(entries := entries)) && forall x :: x in entries ==> x in c.entries
  {
    var entries := Shrunk(c.entries, c.records, c.policy.maxEntries);
    EvictSubDict(c.entries, IdleEntries(c.records), Excess(c.entries, c.policy.maxEntries));
    SubDictElements(entries, c.entries);
    SubDictKeys(entries, c.entries);
    SubDictOrder(entries, c.entries, c.history);
  }

  function Stored(c: Cache, e: EntryId, value: Datum, now: real, from: nat): Cache
    requires e < |c.records| == |c.history|
  {
    c.(records := c.records[e := Entry(Some(value), now, false, None, 0.0)],
       history := c.history[e := c.history[e].(valueFrom := from)])
  }

  function Roomy(c: Cache): Cache {
    c.(entries := Shrunk(c.entries, c.records, c.policy.maxEntries))
  }

  /** Storing, touching and making room are the parts of recording a success. */
  lemma RecordSuccessParts(c: Cache, key: Key, e: EntryId, value: Datum, now: real, from: nat)
    requires e < |c.records| == |c.history|
    ensures var s := Stored(c, e, value, now, from);
            RecordSuccess(c, key, e, value, now, from) ==
              if Get(c.entries, key) == Some(e)
              then Roomy(s.(entries := MoveToEnd(c.entries, key), history := Touched(s, e)))
              else Roomy(s)
  {
    var s := Stored(c, e, value, now, from);
    assert Touched(s, e) == c.history[e := c.history[e].(valueFrom := from).(touched := c.epoch)];
  }

  lemma RecordSuccessKeeps(c: Cache, key: Key, e: EntryId, value: Datum, now: real, from: nat)
    requires CacheInv(c) && e < |c.records| && c.history[e].key == key && c.history[e].created <= from
    ensures var c' := RecordSuccess(c, key, e, value, now, from);
            CacheInv(Tick(c')) && forall x :: x in c'.entries ==> x in c.entries
  {
    var s := Stored(c, e, value, now, from);
    StoreKeeps(c, e, Entry(Some(value), now, false, None, 0.0), from);
    RecordSuccessParts(c, key, e, value, now, from);
    if Get(c.entries, key) == Some(e) {
      TouchKeeps(s, key);
      MoveToEndKeeps(c.entries, key);
      RoomKeeps(Tick(s.(entries := MoveToEnd(c.entries, key), history := Touched(s, e))));
    } else {
      RoomKeeps(s);
      TickKeeps(Roomy(s));
    }
  }

  lemma TickKeeps(c: Cache)
    requires CacheInv(c)
    ensures CacheInv(Tick(c))
  {
  }

  lemma ShrinkingKeeps(c: Cache, entries: Dict<Key, EntryId>)
    requires CacheInv(c) && SubDict(entries, c.entries)
    ensures CacheInv(Tick(c.(entries := entries)))
  {
    SubDictElements(entries, c.entries);
    SubDictKeys(entries, c.entries);
    SubDictOrder(entries, c.entries, c.history);
  }
}
