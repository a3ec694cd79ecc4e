/**
 * The state a `ResourceCache` guards and the effect of each of its atomic sections
 * (app/cache/resources.py). A future is known by its number, because it outlives its
 * entry; `discharged` and `closes` are history.
 */
module Resources {
  import opened Wrappers
  import opened OrderedDicts
  import opened Eviction

  type Key = string

  type FutureId = nat

  datatype Outcome = Building | Failed | Ready

  /** `callbacks` counts the pending `_close_completed` callbacks. */
  datatype Future = Future(outcome: Outcome, callbacks: nat)

  datatype Cache = Cache(
    maxEntries: nat,
    entries: Dict<Key, FutureId>,
    futures: seq<Future>,
    closes: multiset<FutureId>,
    discharged: multiset<FutureId>,
    settled: set<FutureId>)

  predicate Done(c: Cache, f: FutureId) {
    f < |c.futures| && !c.futures[f].outcome.Building?
  }

  function Empty(maxEntries: nat): Cache {
    Cache(maxEntries, [], [], multiset{}, multiset{}, {})
  }

  // ---- get_or_create ---------------------------------------------------------------------

  /** The first locked section: join the flight of the key, or start one. */
  function Join(c: Cache, key: Key): (Cache, FutureId, bool) {
    if HasKey(c.entries, key) then
      (c.(entries := MoveToEnd(c.entries, key)), Get(c.entries, key).value, false)
    else
      (c.(entries := c.entries + [(key, |c.futures|)], futures := c.futures + [Future(Building, 0)]), |c.futures|, true)
  }

  /** `set_result` or `set_exception`: the callbacks registered so far become due. */
  function Complete(c: Cache, f: FutureId, ok: bool): (Cache, nat)
    requires f < |c.futures|
  {
    (c.(futures := c.futures[f := Future(if ok then Ready else Failed, 0)]), c.futures[f].callbacks)
  }

  function DoneFutures(futures: seq<Future>): set<FutureId> {
    set f: FutureId | 0 <= f < |futures| && !futures[f].outcome.Building?
  }

  function DetachExcess(entries: Dict<Key, FutureId>, futures: seq<Future>, max: nat): (Dict<Key, FutureId>, seq<FutureId>)
  {
    Evict(entries, DoneFutures(futures), Excess(entries, max))
  }

  /** The locked section after a successful build: touch the own entry, detach what is too much. */
  function Settle(c: Cache, f: FutureId, key: Key): (Cache, seq<FutureId>) {
    var touched := if Get(c.entries, key) == Some(f) then MoveToEnd(c.entries, key) else c.entries;
    var (kept, detached) := DetachExcess(touched, c.futures, c.maxEntries);
    (c.(entries := kept, settled := c.settled + {f}), detached)
  }

  /** The locked section after a failed build: remove the entry only if it is still the own one. */
  function Withdraw(c: Cache, f: FutureId, key: Key): Cache {
    var own := Get(c.entries, key) == Some(f);
    c.(entries := if own then Remove(c.entries, key) else c.entries,
       discharged := if own then c.discharged + multiset{f} else c.discharged,
       settled := c.settled + {f})
  }

  // ---- invalidate, close_all ---------------------------------------------------------------

  function Pop(c: Cache, key: Key): (Cache, seq<FutureId>) {
    match Get(c.entries, key)
    case None => (c, [])
    case Some(f) => (c.(entries := Remove(c.entries, key)), [f])
  }

  function FuturesOf(entries: Dict<Key, FutureId>): seq<FutureId> {
    if entries == [] then [] else [entries[0].1] + FuturesOf(entries[1..])
  }

  function PopAll(c: Cache): (Cache, seq<FutureId>) {
    (c.(entries := []), FuturesOf(c.entries))
  }

  // ---- _close_futures ------------------------------------------------------------------------

  /** `_close_completed`: a failed future has nothing to close. */
  function CloseCompleted(c: Cache, f: FutureId): Cache
    requires f < |c.futures|
  {
    c.(discharged := c.discharged + multiset{f},
       closes := if c.futures[f].outcome.Ready? then c.closes + multiset{f} else c.closes)
  }

  /** `add_done_callback` runs the callback at once on a future that has completed meanwhile. */
  function AddCallback(c: Cache, f: FutureId): Cache
    requires f < |c.futures|
  {
    if Done(c, f) then CloseCompleted(c, f)
    else c.(futures := c.futures[f := c.futures[f].(callbacks := c.futures[f].callbacks + 1)])
  }

  lemma {:induction false} FuturesOfValues(entries: Dict<Key, FutureId>)
    ensures multiset(FuturesOf(entries)) == Values(entries)
  {
    if entries != [] {
      FuturesOfValues(entries[1..]);
    }
  }
}
