/** Python's `OrderedDict` as a sequence of key-value pairs, oldest first. */
module OrderedDicts {
  import opened Wrappers
  import opened Collections

  type Dict<K, V> = seq<(K, V)>

  ghost predicate DistinctKeys<K, V>(d: Dict<K, V>) {
    forall i, j :: 0 <= i < j < |d| ==> d[i].0 != d[j].0
  }

  predicate HasKey<K(==, !new), V(!new)>(d: Dict<K, V>, k: K) {
    exists i :: 0 <= i < |d| && d[i].0 == k
  }

  function Get<K(==, !new), V(!new)>(d: Dict<K, V>, k: K): (r: Option<V>)
    ensures r.Some? <==> HasKey(d, k)
    ensures r.Some? ==> (k, r.value) in d
  {
    if d == [] then None
    else if d[0].0 == k then Some(d[0].1)
    else
      assert d == [d[0]] + d[1..];
      Get(d[1..], k)
  }

  function Remove<K(==, !new), V(!new)>(d: Dict<K, V>, k: K): (r: Dict<K, V>)
    ensures forall e :: e in r <==> e in d && e.0 != k
    ensures |r| <= |d|
  {
    if d == [] then []
    else
      assert d == [d[0]] + d[1..];
      if d[0].0 == k then Remove(d[1..], k) else [d[0]] + Remove(d[1..], k)
  }

  function MoveToEnd<K(==, !new), V(!new)>(d: Dict<K, V>, k: K): Dict<K, V>
    requires HasKey(d, k)
  {
    Remove(d, k) + [(k, Get(d, k).value)]
  }

  function Values<K, V>(d: Dict<K, V>): multiset<V> {
    if d == [] then multiset{} else multiset{d[0].1} + Values(d[1..])
  }

  lemma KeyOf<K(!new), V(!new)>(d: Dict<K, V>, e: (K, V))
    requires DistinctKeys(d) && e in d
    ensures HasKey(d, e.0) && Get(d, e.0) == Some(e.1)
  {
    var f := (e.0, Get(d, e.0).value);
    var i :| 0 <= i < |d| && d[i] == e;
    var j :| 0 <= j < |d| && d[j] == f;
  }

  lemma {:induction false} RemoveKeepsKeys<K(!new), V(!new)>(d: Dict<K, V>, k: K)
    requires DistinctKeys(d)
    ensures DistinctKeys(Remove(d, k)) && !HasKey(Remove(d, k), k)
  {
    if d != [] {
      assert d == [d[0]] + d[1..];
      RemoveKeepsKeys(d[1..], k);
      var r := Remove(d[1..], k);
      forall i | 0 <= i < |r| ensures r[i].0 != d[0].0 {
        assert r[i] in d[1..];
      }
    }
    forall i | 0 <= i < |Remove(d, k)| ensures Remove(d, k)[i].0 != k {
      assert Remove(d, k)[i] in Remove(d, k);
    }
  }

  lemma {:induction false} RemoveAbsent<K(!new), V(!new)>(d: Dict<K, V>, k: K)
    requires !HasKey(d, k)
    ensures Remove(d, k) == d
  {
    if d != [] {
      assert d[0].0 != k;
      forall i | 0 <= i < |d[1..]| ensures d[1..][i].0 != k {
        assert d[i + 1].0 != k;
      }
      RemoveAbsent(d[1..], k);
    }
  }

  /** Removing a key takes exactly its value away. */
  lemma {:induction false} RemoveValues<K(!new), V(!new)>(d: Dict<K, V>, k: K)
    requires DistinctKeys(d) && HasKey(d, k)
    ensures Values(d) == Values(Remove(d, k)) + multiset{Get(d, k).value}
    ensures |d| == |Remove(d, k)| + 1
  {
    var rest := d[1..];
    if d[0].0 == k {
      RemoveAbsent(rest, k);
    } else {
      var i :| 0 <= i < |d| && d[i].0 == k;
      assert rest[i - 1].0 == k;
      RemoveValues(rest, k);
      var r := [d[0]] + Remove(rest, k);
      assert r[1..] == Remove(rest, k);
    }
  }

  lemma {:induction false} ValuesConcat<K(!new), V(!new)>(a: Dict<K, V>, b: Dict<K, V>)
    ensures Values(a + b) == Values(a) + Values(b)
  {
    if a == [] {
      assert a + b == b;
    } else {
      assert (a + b)[1..] == a[1..] + b;
      ValuesConcat(a[1..], b);
    }
  }

  lemma {:induction false} ValueOccurs<K(!new), V(!new)>(d: Dict<K, V>, v: V)
    ensures v in Values(d) <==> exists k :: (k, v) in d
  {
    if d != [] {
      ValueOccurs(d[1..], v);
      if k :| (k, v) in d {
        assert d[0] == (k, v) || (k, v) in d[1..];
      }
      if v == d[0].1 {
        assert (d[0].0, v) in d;
      }
      if k :| (k, v) in d[1..] {
        assert (k, v) in d;
      }
    }
  }

  lemma MoveToEndKeeps<K(!new), V(!new)>(d: Dict<K, V>, k: K)
    requires DistinctKeys(d) && HasKey(d, k)
    ensures var r := MoveToEnd(d, k);
            DistinctKeys(r) && Values(r) == Values(d) && |r| == |d| && forall e :: e in r <==> e in d
  {
    RemoveKeepsKeys(d, k);
    RemoveValues(d, k);
    var last := (k, Get(d, k).value);
    ValuesConcat(Remove(d, k), [last]);
    assert Values([last]) == multiset{last.1} by { assert [last][1..] == []; }
    forall e | e in d ensures e in MoveToEnd(d, k) {
      if e.0 == k {
        KeyOf(d, e);
      }
    }
  }

  lemma AppendKeeps<K(!new), V(!new)>(d: Dict<K, V>, k: K, v: V)
    requires DistinctKeys(d) && !HasKey(d, k)
    ensures DistinctKeys(d + [(k, v)]) && Values(d + [(k, v)]) == Values(d) + multiset{v}
  {
    ValuesConcat(d, [(k, v)]);
    assert Values([(k, v)]) == multiset{v} by { assert [(k, v)][1..] == []; }
  }

  lemma {:induction false} PairsFit<K(!new), V(!new)>(d: Dict<K, V>)
    ensures |Elements(d)| <= |d|
  {
    if d != [] {
      assert d == [d[0]] + d[1..];
      PairsFit(d[1..]);
      assert Elements(d) == {d[0]} + Elements(d[1..]);
    }
  }

  lemma SubsetSize<T>(a: set<T>, b: set<T>)
    requires a <= b
    ensures |a| <= |b|
  {
    assert b == a + (b - a);
  }

  // ---- order -------------------------------------------------------------------------------------

  /** Some of the entries, in the same order. */
  ghost predicate SubDict<K(!new), V(!new)>(r: Dict<K, V>, d: Dict<K, V>) {
    if r == [] then true
    else d != [] && (if r[0] == d[0] then SubDict(r[1..], d[1..]) else SubDict(r, d[1..]))
  }

  lemma {:induction false} SubDictElements<K(!new), V(!new)>(r: Dict<K, V>, d: Dict<K, V>)
    requires SubDict(r, d)
    ensures |r| <= |d| && forall x :: x in r ==> x in d
  {
    if r != [] {
      assert d == [d[0]] + d[1..];
      if r[0] == d[0] {
        assert r == [r[0]] + r[1..];
        SubDictElements(r[1..], d[1..]);
      } else {
        SubDictElements(r, d[1..]);
      }
    }
  }

  lemma {:induction false} SubDictKeys<K(!new), V(!new)>(r: Dict<K, V>, d: Dict<K, V>)
    requires SubDict(r, d) && DistinctKeys(d)
    ensures DistinctKeys(r)
  {
    if r != [] {
      assert d == [d[0]] + d[1..];
      if r[0] == d[0] {
        SubDictKeys(r[1..], d[1..]);
        SubDictElements(r[1..], d[1..]);
        forall i | 1 <= i < |r| ensures r[i].0 != r[0].0 {
          assert r[1..][i - 1] in d[1..];
          var j :| 0 <= j < |d[1..]| && d[1..][j] == r[i];
          assert d[j + 1].0 != d[0].0;
        }
      } else {
        SubDictKeys(r, d[1..]);
      }
    }
  }

  lemma {:induction false} SubDictSelf<K(!new), V(!new)>(d: Dict<K, V>)
    ensures SubDict(d, d)
  {
    if d != [] {
      SubDictSelf(d[1..]);
    }
  }

  /** Dropping the head of the larger dictionary's prefix: a sub-dictionary of the tail is one of the whole. */
  lemma {:induction false} SubDictSkip<K(!new), V(!new)>(r: Dict<K, V>, d: Dict<K, V>)
    requires d != [] && SubDict(r, d[1..])
    ensures SubDict(r, d)
  {
    if r != [] && r[0] == d[0] {
      SubDictTail(r, d[1..]);
    }
  }

  lemma {:induction false} SubDictTail<K(!new), V(!new)>(r: Dict<K, V>, d: Dict<K, V>)
    requires r != [] && SubDict(r, d)
    ensures SubDict(r[1..], d)
  {
    if r[0] == d[0] {
      if r[1..] != [] {
        SubDictSkip(r[1..], d);
      }
    } else {
      SubDictTail(r, d[1..]);
      SubDictSkip(r[1..], d);
    }
  }

  lemma {:induction false} RemoveSubDict<K(!new), V(!new)>(d: Dict<K, V>, k: K)
    ensures SubDict(Remove(d, k), d)
  {
    if d != [] {
      RemoveSubDict(d[1..], k);
      if d[0].0 == k {
        SubDictSkip(Remove(d, k), d);
      }
    }
  }
}
