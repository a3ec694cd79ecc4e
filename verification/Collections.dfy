/** Facts about sequences, walks in a finite relation and orders that respect one. */
module Collections {

  ghost predicate Distinct<T>(s: seq<T>) {
    forall i, j :: 0 <= i < j < |s| ==> s[i] != s[j]
  }

  function Elements<T>(s: seq<T>): set<T> {
    set x | x in s
  }

  /** A sequence without repetition over a finite set is no longer than the set. */
  lemma {:induction false} DistinctFits<T>(s: seq<T>, domain: set<T>)
    requires Distinct(s)
    requires forall x :: x in s ==> x in domain
    ensures |s| <= |domain|
  {
    if s != [] {
      forall x | x in s[1..] ensures x in domain - {s[0]} {
        var i :| 0 <= i < |s[1..]| && s[1..][i] == x;
        assert s[i + 1] == x;
      }
      DistinctFits(s[1..], domain - {s[0]});
    }
  }

  lemma DistinctBoth<T>(a: seq<T>, b: seq<T>)
    requires Distinct(a) && Distinct(b) && forall x :: x in a ==> x !in b
    ensures Distinct(a + b)
  {
    forall i, j | 0 <= i < j < |a + b| ensures (a + b)[i] != (a + b)[j] {
      if i < |a| <= j {
        assert a[i] in a && b[j - |a|] in b;
      }
    }
  }

  lemma DistinctMore<T>(a: seq<T>, x: T)
    requires Distinct(a) && x !in Elements(a)
    ensures Distinct(a + [x]) && Elements(a + [x]) == Elements(a) + {x}
  {
    assert forall i :: 0 <= i < |a| ==> a[i] in Elements(a);
  }

  /** The elements of a set in some order. */
  method Enumerate<T(==)>(s: set<T>) returns (r: seq<T>)
    ensures Distinct(r) && Elements(r) == s
  {
    hide Distinct, Elements;
    r := [];
    NothingEnumerated<T>();
    var todo := s;
    while todo != {}
      invariant Distinct(r) && Elements(r) + todo == s && Elements(r) !! todo
      decreases |todo|
    {
      var x :| x in todo;
      DistinctMore(r, x);
      r, todo := r + [x], todo - {x};
    }
  }

  lemma NothingEnumerated<T>()
    ensures Distinct<T>([]) && Elements<T>([]) == {}
  {
  }

  /** A walk follows the pairs of `r`; a single vertex is a walk. */
  ghost predicate IsWalk<T>(r: set<(T, T)>, w: seq<T>) {
    |w| >= 1 && forall i :: 0 <= i < |w| - 1 ==> (w[i], w[i + 1]) in r
  }

  ghost predicate IsClosedWalk<T>(r: set<(T, T)>, w: seq<T>) {
    IsWalk(r, w) && |w| >= 2 && w[0] == w[|w| - 1]
  }

  ghost predicate Cyclic<T(!new)>(r: set<(T, T)>) {
    exists w :: IsClosedWalk(r, w)
  }

  /** Every successor of an element of `order` stands before it. */
  ghost predicate DependenciesFirst<T(!new)>(r: set<(T, T)>, order: seq<T>) {
    forall i, y :: 0 <= i < |order| && (order[i], y) in r ==> y in order[..i]
  }

  /** A walk that starts at position `i` of such an order only moves to earlier positions. */
  lemma {:induction false} WalkDescends<T(!new)>(r: set<(T, T)>, order: seq<T>, w: seq<T>, i: nat, j: nat)
    requires DependenciesFirst(r, order) && IsWalk(r, w)
    requires i < |order| && w[0] == order[i] && 1 <= j < |w|
    ensures w[j] in order[..i]
  {
    assert (w[0], w[1]) in r;
    if j > 1 {
      var k :| 0 <= k < i && order[k] == w[1];
      assert IsWalk(r, w[1..]) by {
        forall m | 0 <= m < |w[1..]| - 1 ensures (w[1..][m], w[1..][m + 1]) in r {
          assert (w[m + 1], w[m + 2]) in r;
        }
      }
      WalkDescends(r, order, w[1..], k, j - 1);
    }
  }

  lemma OrderedIsAcyclic<T(!new)>(r: set<(T, T)>, order: seq<T>, w: seq<T>)
    requires DependenciesFirst(r, order) && Distinct(order)
    requires IsClosedWalk(r, w)
    ensures w[0] !in order
  {
    if w[0] in order {
      var i :| 0 <= i < |order| && order[i] == w[0];
      WalkDescends(r, order, w, i, |w| - 1);
      assert false;
    }
  }

  lemma WalkSlice<T>(r: set<(T, T)>, w: seq<T>, i: nat, j: nat)
    requires IsWalk(r, w) && i <= j < |w|
    ensures IsWalk(r, w[i..j + 1])
  {
    var v := w[i..j + 1];
    forall m | 0 <= m < |v| - 1 ensures (v[m], v[m + 1]) in r {
      assert (w[i + m], w[i + m + 1]) in r;
    }
  }

  /** `y` has a successor inside `stuck`. */
  ghost predicate StepsWithin<T(!new)>(r: set<(T, T)>, stuck: set<T>, y: T) {
    exists z :: z in stuck && (y, z) in r
  }

  /**
   * If every element of a non-empty finite set has a successor inside the set, each of
   * its elements starts a walk inside the set that comes back to a vertex it has visited.
   */
  lemma StuckWalk<T(!new)>(r: set<(T, T)>, stuck: set<T>, x: T) returns (w: seq<T>, i: nat)
    requires forall y {:trigger StepsWithin(r, stuck, y)} :: y in stuck ==> StepsWithin(r, stuck, y)
    requires x in stuck
    ensures IsWalk(r, w) && w[0] == x && i < |w| - 1 && w[i] == w[|w| - 1]
    ensures forall y :: y in w ==> y in stuck
  {
    w := [x];
    while true
      invariant IsWalk(r, w) && w[0] == x && Distinct(w)
      invariant forall y :: y in w ==> y in stuck
      decreases |stuck| - |w|
    {
      DistinctFits(w, stuck);
      var last := w[|w| - 1];
      assert last in w;
      assert StepsWithin(r, stuck, last);
      var next :| next in stuck && (last, next) in r;
      if k :| 0 <= k < |w| && w[k] == next {
        w := w + [next];
        i := k;
        return;
      }
      w := w + [next];
      DistinctFits(w, stuck);
    }
  }

  lemma AppendOrdered<T(!new)>(r: set<(T, T)>, order: seq<T>, x: T)
    requires DependenciesFirst(r, order) && forall y :: (x, y) in r ==> y in Elements(order)
    ensures DependenciesFirst(r, order + [x])
  {
    var next := order + [x];
    forall i, y | 0 <= i < |next| && (next[i], y) in r ensures y in next[..i] {
      assert next[..i] == order[..i];
      assert order[..|order|] == order;
    }
  }

  /** Without a cycle some element of a non-empty finite set has no successor inside it. */
  lemma SomeLeaf<T(!new)>(r: set<(T, T)>, todo: set<T>) returns (x: T)
    requires !Cyclic(r) && todo != {}
    ensures x in todo && !StepsWithin(r, todo, x)
  {
    if x' :| x' in todo && !StepsWithin(r, todo, x') {
      x := x';
    } else {
      x :| x in todo;
      var w, i := StuckWalk(r, todo, x);
      WalkSlice(r, w, i, |w| - 1);
      assert IsClosedWalk(r, w[i..|w| - 1 + 1]);
      assert false;
    }
  }

  /** A closed finite set without a cycle has an order with successors first. */
  lemma AcyclicOrder<T(!new)>(r: set<(T, T)>, universe: set<T>) returns (order: seq<T>)
    requires !Cyclic(r) && forall x, y :: x in universe && (x, y) in r ==> y in universe
    ensures Distinct(order) && Elements(order) == universe && DependenciesFirst(r, order)
  {
    hide Distinct, Cyclic;
    NothingEnumerated<T>();
    order := [];
    var todo := universe;
    while todo != {}
      invariant Distinct(order) && DependenciesFirst(r, order)
      invariant Elements(order) + todo == universe && Elements(order) !! todo
      decreases |todo|
    {
      var x := SomeLeaf(r, todo);
      assert forall y :: (x, y) in r ==> y in Elements(order);
      AppendOrdered(r, order, x);
      DistinctMore(order, x);
      order, todo := order + [x], todo - {x};
    }
  }
}
