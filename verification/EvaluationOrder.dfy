/** The order in which derived variables are evaluated (`_evaluation_order`, Kahn's algorithm). */
module EvaluationOrder {
  import opened Collections
  import opened Sorting

  /** The pending names, in dictionary order, whose dependencies are all satisfied. */
  function Ready(pending: seq<string>, deps: map<string, set<string>>, satisfied: set<string>): (r: seq<string>)
    requires forall x :: x in pending ==> x in deps
    ensures forall x :: x in r <==> x in pending && deps[x] <= satisfied
    ensures Distinct(pending) ==> Distinct(r)
  {
    if pending == [] then []
    else
      var rest := Ready(pending[1..], deps, satisfied);
      assert pending == [pending[0]] + pending[1..];
      if deps[pending[0]] <= satisfied then [pending[0]] + rest else rest
  }

  function Without(pending: seq<string>, ready: seq<string>): (r: seq<string>)
    ensures forall x :: x in r <==> x in pending && x !in ready
    ensures Distinct(pending) ==> Distinct(r)
    ensures |r| <= |pending| && ((exists x :: x in pending && x in ready) ==> |r| < |pending|)
  {
    if pending == [] then []
    else
      var rest := Without(pending[1..], ready);
      assert pending == [pending[0]] + pending[1..];
      if pending[0] in ready then rest else [pending[0]] + rest
  }

  /** The rounds of `_evaluation_order`: the names in order, and those left pending. */
  function Rounds(pending: seq<string>, deps: map<string, set<string>>, ordered: seq<string>): (r: (seq<string>, seq<string>))
    requires forall x :: x in pending ==> x in deps
    ensures forall x :: x in r.0 ==> x in ordered || x in pending
    ensures forall x :: x in r.1 ==> x in pending
    decreases |pending|
  {
    var ready := Ready(pending, deps, Elements(ordered));
    if ready == [] then (ordered, pending)
    else
      assert ready[0] in ready;
      assert forall x :: x in Sort(ready) <==> x in multiset(Sort(ready));
      Rounds(Without(pending, ready), deps, ordered + Sort(ready))
  }

  /** The loop of `_evaluation_order`; `left` holds the names of the reported cycle. */
  method OrderNames(names: seq<string>, deps: map<string, set<string>>)
    returns (ordered: seq<string>, left: seq<string>)
    requires Distinct(names) && forall x :: x in names ==> x in deps
    ensures (ordered, left) == Rounds(names, deps, [])
  {
    ordered, left := [], names;
    var satisfied: set<string> := {};
    while left != []
      invariant forall x :: x in left ==> x in deps
      invariant satisfied == Elements(ordered)
      invariant Rounds(left, deps, ordered) == Rounds(names, deps, [])
      decreases |left|
    {
      var ready := Ready(left, deps, satisfied);
      if ready == [] {
        break;
      }
      assert ready[0] in ready;
      ordered, satisfied := AppendRound(ordered, satisfied, Sort(ready));
      left := Without(left, ready);
    }
  }

  method AppendRound(ordered: seq<string>, satisfied: set<string>, round: seq<string>)
    returns (ordered': seq<string>, satisfied': set<string>)
    requires satisfied == Elements(ordered)
    ensures ordered' == ordered + round && satisfied' == Elements(ordered')
  {
    ordered', satisfied' := ordered, satisfied;
    for i := 0 to |round|
      invariant ordered' == ordered + round[..i] && satisfied' == Elements(ordered')
    {
      ordered' := ordered' + [round[i]];
      satisfied' := satisfied' + {round[i]};
    }
    assert round[..|round|] == round;
  }

  /** The pairs (name, dependency). */
  function Pairs(deps: map<string, set<string>>): set<(string, string)> {
    set x, y | x in deps && y in deps[x] :: (x, y)
  }

  ghost predicate Progress(deps: map<string, set<string>>, ordered: seq<string>, pending: seq<string>) {
    && Distinct(ordered) && Distinct(pending) && Elements(ordered) !! Elements(pending)
    && Elements(ordered) + Elements(pending) == deps.Keys
    && DependenciesFirst(Pairs(deps), ordered)
  }

  /** One round keeps the order sound: a ready name depends on names ordered before. */
  lemma RoundKeepsProgress(deps: map<string, set<string>>, ordered: seq<string>, pending: seq<string>)
    requires Progress(deps, ordered, pending) && forall x :: x in pending ==> x in deps
    ensures var ready := Ready(pending, deps, Elements(ordered));
            Progress(deps, ordered + Sort(ready), Without(pending, ready))
  {
    hide Sort;
    var ready := Ready(pending, deps, Elements(ordered));
    var round := Sort(ready);
    SortKeeps(ready);
    forall x ensures (x in round <==> x in ready) && (x in ready ==> x in Elements(pending)) {
      assert x in Elements(round) <==> x in Elements(ready);
    }
    var next := ordered + round;
    forall x | x in ordered ensures x !in round {
      assert x in Elements(ordered);
    }
    DistinctBoth(ordered, round);
    forall i, y | 0 <= i < |next| && (next[i], y) in Pairs(deps) ensures y in next[..i] {
      if i < |ordered| {
        assert next[..i] == ordered[..i];
      } else {
        assert next[i] in round;
        assert y in Elements(ordered);
        assert next[..i][..|ordered|] == ordered;
      }
    }
    assert Elements(next) == Elements(ordered) + Elements(round);
  }

  /** A pending name that waits for another name outside the order. */
  predicate Stuck(deps: map<string, set<string>>, order: seq<string>, x: string) {
    x in deps && !(deps[x] <= Elements(order))
  }

  lemma {:induction false} RoundsProgress(pending: seq<string>, deps: map<string, set<string>>, ordered: seq<string>)
    requires Progress(deps, ordered, pending) && forall x :: x in pending ==> x in deps
    ensures var (order, left) := Rounds(pending, deps, ordered);
            && Progress(deps, order, left)
            && forall x {:trigger Stuck(deps, order, x)} :: x in left ==> Stuck(deps, order, x)
    decreases |pending|
  {
    var ready := Ready(pending, deps, Elements(ordered));
    if ready != [] {
      assert ready[0] in ready;
      RoundKeepsProgress(deps, ordered, pending);
      RoundsProgress(Without(pending, ready), deps, ordered + Sort(ready));
    }
  }

  /** From `x` the references lead back to a name met on the way. */
  ghost predicate LeadsToCycle(r: set<(string, string)>, x: string) {
    exists w: seq<string>, i: nat :: IsWalk(r, w) && w[0] == x && i < |w| - 1 && w[i] == w[|w| - 1]
  }

  /**
   * The order lists each name at most once and after everything it depends on. What it
   * leaves out is exactly what leads to a reference cycle.
   */
  lemma OrderIsExact(names: seq<string>, deps: map<string, set<string>>)
    requires Distinct(names) && Elements(names) == deps.Keys
    requires forall x :: x in deps ==> deps[x] <= deps.Keys
    ensures var (order, left) := Rounds(names, deps, []);
            && Distinct(order) && DependenciesFirst(Pairs(deps), order)
            && Elements(order) !! Elements(left) && Elements(order) + Elements(left) == deps.Keys
            && (forall x :: x in deps ==> (x in left <==> LeadsToCycle(Pairs(deps), x)))
            && (left == [] <==> !Cyclic(Pairs(deps)))
  {
    var (order, left) := Rounds(names, deps, []);
    assert Progress(deps, [], names);
    RoundsProgress(names, deps, []);
    forall x | x in deps ensures x in order || x in left {
      assert x in Elements(order) + Elements(left);
    }
    forall x | x in left ensures x in deps {
      assert x in Elements(order) + Elements(left);
    }
    OmittedLeadToCycles(deps, order, left);
    OmittedIffCyclic(deps, order, left);
  }

  lemma OmittedLeadToCycles(deps: map<string, set<string>>, order: seq<string>, left: seq<string>)
    requires Distinct(order) && DependenciesFirst(Pairs(deps), order)
    requires forall y :: y in deps ==> y in order || y in left
    requires forall y :: y in deps ==> deps[y] <= deps.Keys
    requires forall y {:trigger Stuck(deps, order, y)} :: y in left ==> Stuck(deps, order, y)
    ensures forall x :: x in deps ==> (x in left <==> LeadsToCycle(Pairs(deps), x))
  {
    forall x | x in deps ensures x in left <==> LeadsToCycle(Pairs(deps), x) {
      if x in left {
        var w, i := LeftLeadsToCycle(deps, order, left, x);
      } else {
        OrderedLeadsNowhere(Pairs(deps), order, x);
      }
    }
  }

  lemma OmittedIffCyclic(deps: map<string, set<string>>, order: seq<string>, left: seq<string>)
    requires Distinct(order) && DependenciesFirst(Pairs(deps), order)
    requires forall y :: y in deps ==> y in order || y in left
    requires forall y :: y in deps ==> deps[y] <= deps.Keys
    requires forall y {:trigger Stuck(deps, order, y)} :: y in left ==> Stuck(deps, order, y)
    ensures left == [] <==> !Cyclic(Pairs(deps))
  {
    var r := Pairs(deps);
    if left != [] {
      var w, i := LeftLeadsToCycle(deps, order, left, left[0]);
      WalkSlice(r, w, i, |w| - 1);
      var loop := w[i..|w| - 1 + 1];
      assert IsClosedWalk(r, loop);
    }
    if w :| IsClosedWalk(r, w) {
      OrderedIsAcyclic(r, order, w);
      assert (w[0], w[1]) in r;
      assert w[0] in deps && w[0] in left;
    }
  }

  lemma LeftLeadsToCycle(deps: map<string, set<string>>, order: seq<string>, left: seq<string>, x: string)
    returns (w: seq<string>, i: nat)
    requires forall y :: y in deps ==> y in order || y in left
    requires forall y :: y in deps ==> deps[y] <= deps.Keys
    requires forall y {:trigger Stuck(deps, order, y)} :: y in left ==> Stuck(deps, order, y)
    requires x in left
    ensures IsWalk(Pairs(deps), w) && w[0] == x && i < |w| - 1 && w[i] == w[|w| - 1]
  {
    var r, stuck := Pairs(deps), Elements(left);
    forall y | y in stuck ensures StepsWithin(r, stuck, y) {
      assert Stuck(deps, order, y);
      var z :| z in deps[y] && z !in Elements(order);
      assert z in stuck && (y, z) in r;
    }
    w, i := StuckWalk(r, stuck, x);
  }

  lemma OrderedLeadsNowhere(r: set<(string, string)>, order: seq<string>, x: string)
    requires Distinct(order) && DependenciesFirst(r, order) && x in order
    ensures !LeadsToCycle(r, x)
  {
    if w: seq<string>, i: nat :| IsWalk(r, w) && w[0] == x && i < |w| - 1 && w[i] == w[|w| - 1] {
      var k :| 0 <= k < |order| && order[k] == x;
      if i > 0 {
        WalkDescends(r, order, w, k, i);
      }
      assert w[i] in order;
      WalkSlice(r, w, i, |w| - 1);
      assert w[i..] == w[i..|w| - 1 + 1];
      OrderedIsAcyclic(r, order, w[i..]);
    }
  }
}
