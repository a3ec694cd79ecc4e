/**
 * Eviction from an ordered dictionary: both caches drop the oldest entries they may drop,
 * one after the other, until the dictionary is small enough.
 */
module Eviction {
  import opened OrderedDicts

  function Excess<K, V>(entries: Dict<K, V>, max: nat): nat {
    if |entries| > max then |entries| - max else 0
  }

  /** The position of the oldest entry whose value is in `idle`, or the length when there is none. */
  function OldestIdle<K, V(==)>(entries: Dict<K, V>, idle: set<V>): (i: nat)
    ensures i <= |entries|
    ensures forall j :: 0 <= j < i ==> entries[j].1 !in idle
    ensures i < |entries| ==> entries[i].1 in idle
  {
    if entries == [] || entries[0].1 in idle then 0 else 1 + OldestIdle(entries[1..], idle)
  }

  /** One pass over the entries, oldest first, that drops up to `excess` idle ones. */
  function Evict<K, V(==)>(entries: Dict<K, V>, idle: set<V>, excess: nat): (Dict<K, V>, seq<V>) {
    if entries == [] || excess == 0 then (entries, [])
    else if entries[0].1 in idle then
      var (kept, dropped) := Evict(entries[1..], idle, excess - 1);
      (kept, [entries[0].1] + dropped)
    else
      var (kept, dropped) := Evict(entries[1..], idle, excess);
      ([entries[0]] + kept, dropped)
  }

  /** Taking out the oldest idle entry is the first step of the pass. */
  lemma {:induction false} EvictStep<K, V>(entries: Dict<K, V>, idle: set<V>, excess: nat)
    requires excess > 0 && OldestIdle(entries, idle) < |entries|
    ensures var i := OldestIdle(entries, idle);
            var (kept, dropped) := Evict(entries[..i] + entries[i + 1..], idle, excess - 1);
            Evict(entries, idle, excess) == (kept, [entries[i].1] + dropped)
  {
    var i := OldestIdle(entries, idle);
    if i == 0 {
      assert entries[..0] + entries[1..] == entries[1..];
    } else {
      EvictStep(entries[1..], idle, excess);
      var rest := entries[1..];
      var shorter := [entries[0]] + (rest[..i - 1] + rest[i..]);
      assert entries[..i] + entries[i + 1..] == shorter;
      assert shorter[1..] == rest[..i - 1] + rest[i..];
      assert entries[i] == rest[i - 1];
    }
  }

  lemma {:induction false} NothingToEvict<K, V>(entries: Dict<K, V>, idle: set<V>, excess: nat)
    requires OldestIdle(entries, idle) == |entries|
    ensures Evict(entries, idle, excess) == (entries, [])
  {
    if entries != [] {
      assert entries == [entries[0]] + entries[1..];
      NothingToEvict(entries[1..], idle, excess);
    }
  }

  /** The `while` loop of both caches. */
  method EvictLoop<K, V(==)>(entries: Dict<K, V>, idle: set<V>, max: nat) returns (kept: Dict<K, V>, dropped: seq<V>)
    ensures (kept, dropped) == Evict(entries, idle, Excess(entries, max))
  {
    ghost var goal := Evict(entries, idle, Excess(entries, max));
    kept, dropped := entries, [];
    assert [] + goal.1 == goal.1;
    while |kept| > max
      invariant Evict(kept, idle, Excess(kept, max)).0 == goal.0
      invariant dropped + Evict(kept, idle, Excess(kept, max)).1 == goal.1
    {
      var i := OldestIdle(kept, idle);
      if i == |kept| {
        NothingToEvict(kept, idle, Excess(kept, max));
        break;
      }
      EvictStep(kept, idle, Excess(kept, max));
      ghost var more := Evict(kept[..i] + kept[i + 1..], idle, Excess(kept, max) - 1).1;
      assert dropped + ([kept[i].1] + more) == dropped + [kept[i].1] + more;
      dropped := dropped + [kept[i].1];
      kept := kept[..i] + kept[i + 1..];
    }
    assert dropped + [] == dropped;
  }

  // ---- least recently used first -----------------------------------------------------------

  predicate NoneIdle<K(!new), V(==, !new)>(entries: Dict<K, V>, idle: set<V>) {
    forall i :: 0 <= i < |entries| ==> entries[i].1 !in idle
  }

  function Busy<K, V(==)>(entries: Dict<K, V>, idle: set<V>): Dict<K, V> {
    if entries == [] then []
    else (if entries[0].1 in idle then [] else [entries[0]]) + Busy(entries[1..], idle)
  }

  function IdleValues<K, V(==)>(entries: Dict<K, V>, idle: set<V>): seq<V> {
    if entries == [] then []
    else (if entries[0].1 in idle then [entries[0].1] else []) + IdleValues(entries[1..], idle)
  }

  /**
   * There is a position such that the idle entries before it are dropped, in order, and
   * everything else is kept. Either `excess` entries go, or no idle one is left.
   */
  lemma {:induction false} EvictsOldest<K(!new), V(!new)>(entries: Dict<K, V>, idle: set<V>, excess: nat) returns (cut: nat)
    ensures var (kept, dropped) := Evict(entries, idle, excess);
            && cut <= |entries|
            && kept == Busy(entries[..cut], idle) + entries[cut..]
            && dropped == IdleValues(entries[..cut], idle)
            && |dropped| <= excess && |kept| + |dropped| == |entries|
            && (|dropped| == excess || NoneIdle(kept, idle))
  {
    if entries == [] || excess == 0 {
      cut := 0;
    } else {
      var first := entries[0].1 in idle;
      var rest := EvictsOldest(entries[1..], idle, if first then excess - 1 else excess);
      cut := rest + 1;
      assert entries[..cut][1..] == entries[1..][..rest];
      assert entries[cut..] == entries[1..][rest..];
    }
  }

  /** Each value is kept or dropped, and only idle ones are dropped. */
  lemma {:induction false} EvictKeepsValues<K(!new), V(!new)>(entries: Dict<K, V>, idle: set<V>, excess: nat)
    ensures var (kept, dropped) := Evict(entries, idle, excess);
            Values(entries) == Values(kept) + multiset(dropped) && forall v :: v in dropped ==> v in idle
  {
    if entries != [] && excess != 0 {
      var first := entries[0].1 in idle;
      EvictKeepsValues(entries[1..], idle, if first then excess - 1 else excess);
      var (kept, dropped) := Evict(entries[1..], idle, if first then excess - 1 else excess);
      assert ([entries[0]] + kept)[1..] == kept && ([entries[0]] + kept)[0] == entries[0];
      assert Values(entries) == multiset{entries[0].1} + Values(entries[1..]);
      if first {
        assert multiset([entries[0].1] + dropped) == multiset{entries[0].1} + multiset(dropped);
      } else {
        assert Values([entries[0]] + kept) == multiset{entries[0].1} + Values(kept);
      }
    }
  }

  lemma {:induction false} EvictKeepsKeys<K(!new), V(!new)>(entries: Dict<K, V>, idle: set<V>, excess: nat)
    requires DistinctKeys(entries)
    ensures var (kept, dropped) := Evict(entries, idle, excess);
            && DistinctKeys(kept) && (forall e :: e in kept ==> e in entries)
            && (forall e :: e in entries && e.1 !in idle ==> e in kept)
  {
    if entries != [] && excess != 0 {
      var first := entries[0].1 in idle;
      EvictKeepsKeys(entries[1..], idle, if first then excess - 1 else excess);
      var (kept, dropped) := Evict(entries[1..], idle, if first then excess - 1 else excess);
      forall i | 0 <= i < |kept| ensures kept[i].0 != entries[0].0 {
        assert kept[i] in entries[1..];
      }
      assert entries == [entries[0]] + entries[1..];
    }
  }

  lemma {:induction false} EvictSubDict<K(!new), V(!new)>(d: Dict<K, V>, idle: set<V>, excess: nat)
    ensures SubDict(Evict(d, idle, excess).0, d)
  {
    if d == [] || excess == 0 {
      SubDictSelf(d);
    } else if d[0].1 in idle {
      EvictSubDict(d[1..], idle, excess - 1);
      SubDictSkip(Evict(d[1..], idle, excess - 1).0, d);
    } else {
      EvictSubDict(d[1..], idle, excess);
    }
  }
}
