/** The cache object (app/cache/resources.py): its methods are the atomic sections of the machine. */
module ResourceCaches {
  import opened Wrappers
  import opened OrderedDicts
  import opened Eviction
  import opened Resources

  class ResourceCache {
    const maxEntries: nat
    var entries: Dict<Key, FutureId>
    var futures: seq<Future>
    ghost var closes: multiset<FutureId>
    ghost var discharged: multiset<FutureId>
    ghost var settled: set<FutureId>

    ghost function State(): Cache
      reads this
    {
      Cache(maxEntries, entries, futures, closes, discharged, settled)
    }

    constructor (maxEntries: nat)
      requires maxEntries >= 1
      ensures State() == Empty(maxEntries)
    {
      this.maxEntries := maxEntries;
      entries, futures := [], [];
      closes, discharged, settled := multiset{}, multiset{}, {};
    }

    /** The first locked section of `get_or_create`. */
    method Begin(key: Key) returns (future: FutureId, creator: bool)
      modifies this
      ensures (State(), future, creator) == Join(old(State()), key)
      ensures creator <==> !HasKey(old(entries), key)
      ensures creator ==> future == |old(futures)| && entries == old(entries) + [(key, future)]
      ensures !creator ==> (key, future) in old(entries) && futures == old(futures)
    {
      match Get(entries, key)
      case Some(f) =>
        entries := MoveToEnd(entries, key);
        future, creator := f, false;
      case None =>
        future, creator := |futures|, true;
        entries := entries + [(key, future)];
        futures := futures + [Future(Building, 0)];
    }

    /** `set_result` and `set_exception`; the callbacks that became due are the caller's to run. */
    method SetOutcome(future: FutureId, ok: bool) returns (due: nat)
      requires future < |futures|
      modifies this
      ensures (State(), due) == Complete(old(State()), future, ok)
    {
      due := futures[future].callbacks;
      futures := futures[future := Future(if ok then Ready else Failed, 0)];
    }

    /** The locked section after a successful build. */
    method SettleBuild(future: FutureId, key: Key) returns (detached: seq<FutureId>)
      modifies this
      ensures (State(), detached) == Settle(old(State()), future, key)
    {
      if Get(entries, key) == Some(future) {
        entries := MoveToEnd(entries, key);
      }
      settled := settled + {future};
      detached := DetachExcessLocked();
    }

    method DetachExcessLocked() returns (detached: seq<FutureId>)
      modifies this`entries
      ensures (entries, detached) == DetachExcess(old(entries), futures, maxEntries)
    {
      entries, detached := EvictLoop(entries, DoneFutures(futures), maxEntries);
    }

    /** The locked section after a failed build. */
    method WithdrawBuild(future: FutureId, key: Key)
      modifies this
      ensures State() == Withdraw(old(State()), future, key)
    {
      if Get(entries, key) == Some(future) {
        entries := Remove(entries, key);
        discharged := discharged + multiset{future};
      }
      settled := settled + {future};
    }

    /** The locked section of `invalidate`. */
    method PopEntry(key: Key) returns (popped: seq<FutureId>)
      modifies this
      ensures (State(), popped) == Pop(old(State()), key)
      ensures !HasKey(old(entries), key) ==> popped == [] && entries == old(entries)
      ensures HasKey(old(entries), key) ==> |popped| == 1 && (key, popped[0]) in old(entries)
      ensures forall e :: e in entries <==> e in old(entries) && e.0 != key
    {
      match Get(entries, key)
      case None => popped := [];
      case Some(f) =>
        entries := Remove(entries, key);
        popped := [f];
    }

    /** The locked section of `close_all`. */
    method PopEverything() returns (popped: seq<FutureId>)
      modifies this
      ensures (State(), popped) == PopAll(old(State()))
    {
      popped := FuturesOf(entries);
      entries := [];
    }

    /** `_close_completed` on a completed future; `closed` tells whether a resource was closed. */
    method CloseOne(future: FutureId) returns (closed: bool)
      requires future < |futures|
      modifies this
      ensures State() == CloseCompleted(old(State()), future)
      ensures closed <==> futures[future].outcome.Ready?
    {
      discharged := discharged + multiset{future};
      closed := futures[future].outcome.Ready?;
      if closed {
        closes := closes + multiset{future};
      }
    }

    /** `add_done_callback(_close_completed)`. */
    method AddDoneCallback(future: FutureId)
      requires future < |futures|
      modifies this
      ensures State() == AddCallback(old(State()), future)
    {
      if futures[future].outcome.Building? {
        futures := futures[future := futures[future].(callbacks := futures[future].callbacks + 1)];
      } else {
        var _ := CloseOne(future);
      }
    }
  }
}
