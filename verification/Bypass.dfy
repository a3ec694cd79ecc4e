/**
 * Node bypass (app/pipelines/upgrades.py, `_bypass_nodes`): retired nodes are deleted and
 * every input of theirs is spliced to every output.
 */
module Bypass {
  import opened Wrappers
  import opened Collections
  import opened Graphs
  import opened Numbering

  // ---- paths ---------------------------------------------------------------------------------

  ghost predicate IsPath(edges: seq<Edge>, p: seq<Edge>) {
    && |p| >= 1 && (forall i :: 0 <= i < |p| ==> p[i] in edges)
    && forall i :: 0 <= i < |p| - 1 ==> p[i].target == p[i + 1].source
  }

  /** The inner nodes of the path are all in `via`. */
  ghost predicate Through(p: seq<Edge>, via: set<string>) {
    forall i :: 0 <= i < |p| - 1 ==> p[i].target in via
  }

  /** What the path connects, through which ports. */
  function PathConnection(p: seq<Edge>): Connection
    requires |p| >= 1
  {
    Connection(p[0].source, p[|p| - 1].target, p[0].sourcePort, p[|p| - 1].targetPort)
  }

  /** A path of `edges` that makes the connection `c` with inner nodes in `via` and ends outside. */
  ghost predicate BridgedBy(edges: seq<Edge>, via: set<string>, c: Connection, p: seq<Edge>) {
    IsPath(edges, p) && Through(p, via) && PathConnection(p) == c && c.source !in via && c.target !in via
  }

  ghost predicate Bridges(edges: seq<Edge>, via: set<string>, c: Connection) {
    exists p :: BridgedBy(edges, via, c, p)
  }

  /** There is a path from `u` to `v`. */
  ghost predicate Reaches(edges: seq<Edge>, u: string, v: string) {
    exists p: seq<Edge> :: IsPath(edges, p) && p[0].source == u && p[|p| - 1].target == v
  }

  ghost predicate Acyclic(edges: seq<Edge>) {
    forall u :: !Reaches(edges, u, u)
  }

  lemma PathSlice(edges: seq<Edge>, p: seq<Edge>, i: nat, j: nat)
    requires IsPath(edges, p) && i < j <= |p|
    ensures IsPath(edges, p[i..j])
  {
    forall k | 0 <= k < |p[i..j]| - 1 ensures p[i..j][k].target == p[i..j][k + 1].source {
      assert p[i + k].target == p[i + k + 1].source;
    }
  }

  lemma PathConcat(edges: seq<Edge>, p: seq<Edge>, q: seq<Edge>)
    requires IsPath(edges, p) && IsPath(edges, q) && p[|p| - 1].target == q[0].source
    ensures IsPath(edges, p + q)
  {
  }

  // ---- cycles inside a set of nodes ---------------------------------------------------------------

  /** The edges between nodes of `nodes`. */
  function Inner(edges: seq<Edge>, nodes: set<string>): set<(string, string)> {
    set e | e in edges && e.source in nodes && e.target in nodes :: (e.source, e.target)
  }

  /** A path from a node to itself that stays inside a set is a cycle there. */
  lemma ClosedPathIsCycle(edges: seq<Edge>, nodes: set<string>, p: seq<Edge>)
    requires IsPath(edges, p) && p[|p| - 1].target == p[0].source
    requires forall i :: 0 <= i < |p| ==> p[i].target in nodes
    ensures Cyclic(Inner(edges, nodes))
  {
    var w := [p[0].source] + seq(|p|, i requires 0 <= i < |p| => p[i].target);
    forall i | 0 <= i < |w| - 1 ensures (w[i], w[i + 1]) in Inner(edges, nodes) {
      assert p[i] in edges && w[i] == p[i].source && w[i + 1] == p[i].target;
      assert p[i].source == if i == 0 then p[|p| - 1].target else p[i - 1].target;
    }
    assert IsClosedWalk(Inner(edges, nodes), w);
  }

  /** Without cycles inside `via` and `node`, a path through them meets `node` at most once. */
  lemma MeetsOnce(edges: seq<Edge>, via: set<string>, node: string, p: seq<Edge>, i: nat, j: nat)
    requires !Cyclic(Inner(edges, via + {node})) && IsPath(edges, p) && i < j < |p| - 1
    requires Through(p, via + {node})
    ensures !(p[i].target == node && p[j].target == node)
  {
    if p[i].target == node && p[j].target == node {
      PathSlice(edges, p, i + 1, j + 1);
      var q := p[i + 1..j + 1];
      assert p[i].target == p[i + 1].source == q[0].source;
      ClosedPathIsCycle(edges, via + {node}, q);
    }
  }

  // ---- bypassing one node -----------------------------------------------------------------------

  function Untouched(edges: seq<Edge>, node: string): (r: seq<Edge>)
    ensures forall e :: e in r <==> e in edges && e.source != node && e.target != node
  {
    if edges == [] then []
    else
      assert edges == [edges[0]] + edges[1..];
      (if edges[0].source != node && edges[0].target != node then [edges[0]] else []) + Untouched(edges[1..], node)
  }

  function Incoming(edges: seq<Edge>, node: string): (r: seq<Edge>)
    ensures forall e :: e in r <==> e in edges && e.target == node
  {
    if edges == [] then []
    else
      assert edges == [edges[0]] + edges[1..];
      (if edges[0].target == node then [edges[0]] else []) + Incoming(edges[1..], node)
  }

  function Outgoing(edges: seq<Edge>, node: string): (r: seq<Edge>)
    ensures forall e :: e in r <==> e in edges && e.source == node
  {
    if edges == [] then []
    else
      assert edges == [edges[0]] + edges[1..];
      (if edges[0].source == node then [edges[0]] else []) + Outgoing(edges[1..], node)
  }

  function Spliced(inbound: Edge, outbound: Edge): Connection {
    Connection(inbound.source, outbound.target, inbound.sourcePort, outbound.targetPort)
  }

  function Connections(edges: seq<Edge>): set<Connection> {
    set e | e in edges :: ConnectionOf(e)
  }

  function Ids(edges: seq<Edge>): set<string> {
    set e | e in edges :: e.id
  }

  ghost predicate DistinctIds(edges: seq<Edge>) {
    forall i, j :: 0 <= i < j < |edges| ==> edges[i].id != edges[j].id
  }

  /** Edge `k` is new: its connection does not repeat an earlier one and its id is the first free one. */
  ghost predicate NewEdge(edges: seq<Edge>, k: nat)
    requires k < |edges|
  {
    && ConnectionOf(edges[k]) !in Connections(edges[..k])
    && FirstFree("edge-" + edges[k].source + "-" + edges[k].target, Ids(edges[..k]), edges[k].id)
  }

  /** `r` extends `kept` by new edges only. */
  ghost predicate ExtendsWithNew(kept: seq<Edge>, r: seq<Edge>) {
    && |kept| <= |r| && r[..|kept|] == kept
    && forall k :: |kept| <= k < |r| ==> NewEdge(r, k)
  }

  /** One `rewritten.append(...)`, unless the connection is there already. */
  method AppendSpliced(kept: seq<Edge>, edges: seq<Edge>, c: Connection) returns (r: seq<Edge>)
    requires ExtendsWithNew(kept, edges)
    ensures ExtendsWithNew(kept, r) && Connections(r) == Connections(edges) + {c}
  {
    if c in Connections(edges) {
      return edges;
    }
    var id := FindFree("edge-" + c.source + "-" + c.target, Ids(edges));
    r := edges + [Edge(id, c.source, c.target, c.sourcePort, c.targetPort)];
    assert Connections(r) == Connections(edges) + {c} by {
      assert ConnectionOf(r[|edges|]) == c && forall e :: e in r <==> e in edges || e == r[|edges|];
    }
    forall k | |kept| <= k < |r| ensures NewEdge(r, k) {
      if k < |edges| {
        assert NewEdge(edges, k) && r[..k] == edges[..k];
      } else {
        assert r[..k] == edges;
      }
    }
  }

  /** All inputs spliced to all outputs. */
  function Splices(incoming: seq<Edge>, outgoing: seq<Edge>): set<Connection> {
    set a, b | a in incoming && b in outgoing :: Spliced(a, b)
  }

  lemma NothingSpliced(kept: seq<Edge>, outgoing: seq<Edge>)
    ensures ExtendsWithNew(kept, kept) && Connections(kept) == Connections(kept) + Splices([], outgoing)
  {
  }

  lemma MoreSplices(incoming: seq<Edge>, inbound: Edge, outgoing: seq<Edge>)
    ensures Splices(incoming + [inbound], outgoing) == Splices(incoming, outgoing) + Splices([inbound], outgoing)
  {
  }

  /** One round of the outer loop. */
  method BypassNode(edges: seq<Edge>, node: string) returns (r: seq<Edge>)
    ensures ExtendsWithNew(Untouched(edges, node), r)
    ensures Connections(r) == Connections(Untouched(edges, node)) + Splices(Incoming(edges, node), Outgoing(edges, node))
  {
    hide Untouched, Incoming, Outgoing, Connections, ExtendsWithNew, Splices;
    NothingSpliced(Untouched(edges, node), Outgoing(edges, node));
    var incoming, outgoing, kept := Incoming(edges, node), Outgoing(edges, node), Untouched(edges, node);
    r := kept;
    for i := 0 to |incoming|
      invariant ExtendsWithNew(kept, r)
      invariant Connections(r) == Connections(kept) + Splices(incoming[..i], outgoing)
    {
      assert incoming[..i + 1] == incoming[..i] + [incoming[i]];
      MoreSplices(incoming[..i], incoming[i], outgoing);
      r := SpliceOne(kept, r, incoming[i], outgoing);
    }
    assert incoming[..|incoming|] == incoming;
  }

  /** The inner loop: one input against all outputs. */
  method SpliceOne(kept: seq<Edge>, edges: seq<Edge>, inbound: Edge, outgoing: seq<Edge>) returns (r: seq<Edge>)
    requires ExtendsWithNew(kept, edges)
    ensures ExtendsWithNew(kept, r)
    ensures Connections(r) == Connections(edges) + Splices([inbound], outgoing)
  {
    r := edges;
    for j := 0 to |outgoing|
      invariant ExtendsWithNew(kept, r)
      invariant Connections(r) == Connections(edges) + Splices([inbound], outgoing[..j])
    {
      assert outgoing[..j + 1] == outgoing[..j] + [outgoing[j]];
      assert Splices([inbound], outgoing[..j + 1]) == Splices([inbound], outgoing[..j]) + {Spliced(inbound, outgoing[j])};
      r := AppendSpliced(kept, r, Spliced(inbound, outgoing[j]));
    }
    assert outgoing[..|outgoing|] == outgoing;
  }

  // ---- bypassing a list of nodes ----------------------------------------------------------------

  /** The connections of `now` are those of the paths of `edges` through `via`. */
  ghost predicate Exact(edges: seq<Edge>, via: set<string>, now: seq<Edge>) {
    forall c :: c in Connections(now) <==> Bridges(edges, via, c)
  }

  lemma NothingBypassed(edges: seq<Edge>)
    ensures Exact(edges, {}, edges)
  {
    forall c ensures c in Connections(edges) <==> Bridges(edges, {}, c) {
      if c in Connections(edges) {
        var e :| e in edges && ConnectionOf(e) == c;
        assert BridgedBy(edges, {}, c, [e]);
      }
      if p: seq<Edge> :| BridgedBy(edges, {}, c, p) {
        assert p[0] in edges && ConnectionOf(p[0]) == c;
      }
    }
  }

  /** An input of the node and an output of it make the connection. */
  ghost predicate JoinedBy(now: seq<Edge>, node: string, c: Connection, a: Connection, b: Connection) {
    && a in Connections(now) && b in Connections(now) && a.target == node && b.source == node
    && c == Connection(a.source, b.target, a.sourcePort, b.targetPort)
  }

  ghost predicate Joins(now: seq<Edge>, node: string, c: Connection) {
    exists a, b :: JoinedBy(now, node, c, a, b)
  }

  /** What the bypass of `node` makes of the connections of `now`. */
  ghost predicate SplicedFrom(now: seq<Edge>, node: string, next: seq<Edge>) {
    forall c :: c in Connections(next) <==>
      || (c in Connections(now) && c.source != node && c.target != node)
      || Joins(now, node, c)
  }

  lemma BypassSplices(now: seq<Edge>, node: string, next: seq<Edge>)
    requires Connections(next) == Connections(Untouched(now, node)) + Splices(Incoming(now, node), Outgoing(now, node))
    ensures SplicedFrom(now, node, next)
  {
    forall c ensures c in Connections(next) <==>
      || (c in Connections(now) && c.source != node && c.target != node)
      || Joins(now, node, c)
    {
      if c in Splices(Incoming(now, node), Outgoing(now, node)) {
        var a, b :| a in Incoming(now, node) && b in Outgoing(now, node) && c == Spliced(a, b);
        assert ConnectionOf(a) in Connections(now) && ConnectionOf(b) in Connections(now);
        assert JoinedBy(now, node, c, ConnectionOf(a), ConnectionOf(b));
      }
      if a, b :| JoinedBy(now, node, c, a, b) {
        var e :| e in now && ConnectionOf(e) == a;
        var f :| f in now && ConnectionOf(f) == b;
        assert e in Incoming(now, node) && f in Outgoing(now, node) && c == Spliced(e, f);
      }
      if c in Connections(now) && c.source != node && c.target != node {
        var e :| e in now && ConnectionOf(e) == c;
        assert e in Untouched(now, node);
      }
    }
  }

  /** A spliced connection is the connection of the two paths put together. */
  lemma SpliceIsBridge(edges: seq<Edge>, via: set<string>, node: string, p: seq<Edge>, q: seq<Edge>)
    requires !Cyclic(Inner(edges, via + {node})) && node !in via
    requires |p| >= 1 && |q| >= 1
    requires BridgedBy(edges, via, PathConnection(p), p) && BridgedBy(edges, via, PathConnection(q), q)
    requires p[|p| - 1].target == node && q[0].source == node
    ensures BridgedBy(edges, via + {node}, PathConnection(p + q), p + q)
    ensures PathConnection(p + q) == Connection(p[0].source, q[|q| - 1].target, p[0].sourcePort, q[|q| - 1].targetPort)
  {
    PathConcat(edges, p, q);
    if p[0].source == node {
      ClosedPathIsCycle(edges, via + {node}, p);
    }
    if q[|q| - 1].target == node {
      ClosedPathIsCycle(edges, via + {node}, q);
    }
    forall i | 0 <= i < |p + q| - 1 ensures (p + q)[i].target in via + {node} {
      if i == |p| - 1 {
        assert (p + q)[i] == p[|p| - 1];
      } else if i >= |p| {
        assert (p + q)[i] == q[i - |p|];
      }
    }
  }

  /** A path through `node` falls into two paths that do not pass it. */
  lemma BridgeSplits(edges: seq<Edge>, via: set<string>, node: string, p: seq<Edge>, k: nat)
    requires k < |p| - 1 && !Cyclic(Inner(edges, via + {node})) && node !in via && BridgedBy(edges, via + {node}, PathConnection(p), p)
    requires p[k].target == node
    ensures BridgedBy(edges, via, PathConnection(p[..k + 1]), p[..k + 1])
    ensures BridgedBy(edges, via, PathConnection(p[k + 1..]), p[k + 1..])
    ensures PathConnection(p[..k + 1]).target == node && PathConnection(p[k + 1..]).source == node
  {
    var a, b := p[..k + 1], p[k + 1..];
    PathSlice(edges, p, 0, k + 1);
    PathSlice(edges, p, k + 1, |p|);
    assert a == p[0..k + 1] && b == p[k + 1..|p|];
    forall i | 0 <= i < |a| - 1 ensures a[i].target in via {
      MeetsOnce(edges, via, node, p, i, k);
    }
    forall i | 0 <= i < |b| - 1 ensures b[i].target in via {
      MeetsOnce(edges, via, node, p, k, k + 1 + i);
    }
  }

  /** One more node: exactness for `via` becomes exactness for `via` and the node. */
  lemma StepExact(edges: seq<Edge>, via: set<string>, now: seq<Edge>, node: string, next: seq<Edge>)
    requires !Cyclic(Inner(edges, via + {node})) && Exact(edges, via, now) && SplicedFrom(now, node, next) && node !in via
    ensures Exact(edges, via + {node}, next)
  {
    forall c ensures c in Connections(next) <==> Bridges(edges, via + {node}, c) {
      if c in Connections(next) {
        NextIsBridged(edges, via, now, node, next, c);
      }
      if p :| BridgedBy(edges, via + {node}, c, p) {
        BridgeIsNext(edges, via, now, node, next, p);
      }
    }
  }

  lemma NextIsBridged(edges: seq<Edge>, via: set<string>, now: seq<Edge>, node: string, next: seq<Edge>, c: Connection)
    requires !Cyclic(Inner(edges, via + {node})) && Exact(edges, via, now) && SplicedFrom(now, node, next) && node !in via
    requires c in Connections(next)
    ensures Bridges(edges, via + {node}, c)
  {
    hide Inner, Cyclic;
    if c in Connections(now) && c.source != node && c.target != node {
      var p :| BridgedBy(edges, via, c, p);
      assert BridgedBy(edges, via + {node}, c, p);
    } else {
      var a, b :| JoinedBy(now, node, c, a, b);
      var p :| BridgedBy(edges, via, a, p);
      var q :| BridgedBy(edges, via, b, q);
      SpliceIsBridge(edges, via, node, p, q);
      assert BridgedBy(edges, via + {node}, c, p + q);
    }
  }

  lemma BridgeIsNext(edges: seq<Edge>, via: set<string>, now: seq<Edge>, node: string, next: seq<Edge>, p: seq<Edge>)
    requires !Cyclic(Inner(edges, via + {node})) && Exact(edges, via, now) && SplicedFrom(now, node, next) && node !in via
    requires |p| >= 1 && BridgedBy(edges, via + {node}, PathConnection(p), p)
    ensures PathConnection(p) in Connections(next)
  {
    hide Inner, Cyclic, IsPath;
    var c := PathConnection(p);
    if k :| 0 <= k < |p| - 1 && p[k].target == node {
      BridgeSplits(edges, via, node, p, k);
      var a, b := PathConnection(p[..k + 1]), PathConnection(p[k + 1..]);
      assert Bridges(edges, via, a) && Bridges(edges, via, b);
      assert JoinedBy(now, node, c, a, b);
    } else {
      forall i | 0 <= i < |p| - 1 ensures p[i].target in via {
        assert p[i].target != node;
      }
      assert BridgedBy(edges, via, c, p);
    }
  }

  /** Bypassing a node twice changes nothing: no connection ends at it any more. */
  lemma RepeatExact(edges: seq<Edge>, via: set<string>, now: seq<Edge>, node: string, next: seq<Edge>)
    requires Exact(edges, via, now) && SplicedFrom(now, node, next) && node in via
    ensures Exact(edges, via, next)
  {
    forall c ensures c in Connections(next) <==> c in Connections(now) {
      forall a | a in Connections(now) ensures a.source != node && a.target != node {
        assert Bridges(edges, via, a);
      }
    }
  }

  // ---- a cycle of bypassed nodes stays ------------------------------------------------------------

  /** The walk without its visits of `node`. */
  function Skip(w: seq<string>, node: string): seq<string> {
    if w == [] then [] else (if w[0] == node then [] else [w[0]]) + Skip(w[1..], node)
  }

  /** `s` joins what `r` joins directly or through `node`. */
  ghost predicate Contracts(r: set<(string, string)>, node: string, s: set<(string, string)>) {
    && (forall x, y :: (x, y) in r && x != node && y != node ==> (x, y) in s)
    && (forall x, y :: (x, node) in r && (node, y) in r ==> (x, y) in s)
  }

  lemma FirstStep<T>(r: set<(T, T)>, w: seq<T>)
    requires IsWalk(r, w) && |w| > 1
    ensures (w[0], w[1]) in r && IsWalk(r, w[1..])
  {
    WalkSlice(r, w, 1, |w| - 1);
    assert w[1..|w| - 1 + 1] == w[1..];
  }

  lemma PrependStep<T>(r: set<(T, T)>, x: T, w: seq<T>)
    requires IsWalk(r, w) && (x, w[0]) in r
    ensures IsWalk(r, [x] + w)
  {
    var v := [x] + w;
    forall i | 0 <= i < |v| - 1 ensures (v[i], v[i + 1]) in r {
      assert i > 0 ==> (w[i - 1], w[i]) in r;
    }
  }

  lemma {:induction false} SkipIsWalk(r: set<(string, string)>, node: string, s: set<(string, string)>, w: seq<string>)
    requires IsWalk(r, w) && Contracts(r, node, s) && (node, node) !in r
    requires |w| >= 1 && w[0] != node && w[|w| - 1] != node
    ensures var v := Skip(w, node);
            IsWalk(s, v) && |v| >= 1 && v[0] == w[0] && v[|v| - 1] == w[|w| - 1] && (|w| > 1 ==> |v| > 1)
    decreases |w|
  {
    if |w| == 1 {
      assert w[1..] == [];
    } else {
      hide IsWalk;
      FirstStep(r, w);
      var rest := w[1..];
      if w[1] == node {
        FirstStep(r, rest);
        assert (w[0], rest[1]) in s;
        rest := rest[1..];
      }
      SkipIsWalk(r, node, s, rest);
      assert Skip(w, node) == [w[0]] + Skip(rest, node);
      PrependStep(s, w[0], Skip(rest, node));
    }
  }

  /** Contracting a node of a cyclic relation leaves a cycle. */
  lemma CycleSurvives(r: set<(string, string)>, node: string, s: set<(string, string)>)
    requires Cyclic(r) && Contracts(r, node, s)
    ensures Cyclic(s)
  {
    var w :| IsClosedWalk(r, w);
    if (node, node) in r {
      assert IsClosedWalk(s, [node, node]);
    } else {
      assert (w[0], w[1]) in r;
      var v := w;
      if w[0] == node {
        v := w[1..] + [w[1]];
        forall i | 0 <= i < |v| - 1 ensures (v[i], v[i + 1]) in r {
          assert i + 1 < |w| - 1 ==> (w[i + 1], w[i + 2]) in r;
        }
      }
      SkipIsWalk(r, node, s, v);
      assert IsClosedWalk(s, Skip(v, node));
    }
  }

  lemma SpliceContracts(now: seq<Edge>, node: string, next: seq<Edge>, nodes: set<string>)
    requires SplicedFrom(now, node, next) && node in nodes
    ensures Contracts(Inner(now, nodes), node, Inner(next, nodes))
  {
    forall x, y | (x, y) in Inner(now, nodes) && x != node && y != node ensures (x, y) in Inner(next, nodes) {
      var e :| e in now && e.source == x && e.target == y;
      assert ConnectionOf(e) in Connections(next);
      var f :| f in next && ConnectionOf(f) == ConnectionOf(e);
    }
    forall x, y | (x, node) in Inner(now, nodes) && (node, y) in Inner(now, nodes) ensures (x, y) in Inner(next, nodes) {
      var a :| a in now && a.source == x && a.target == node;
      var b :| b in now && b.source == node && b.target == y;
      assert ConnectionOf(a) in Connections(now) && ConnectionOf(b) in Connections(now);
      var c := Connection(x, y, a.sourcePort, b.targetPort);
      assert c in Connections(next) by {
        assert JoinedBy(now, node, c, ConnectionOf(a), ConnectionOf(b));
      }
      var f :| f in next && ConnectionOf(f) == c;
    }
  }

  lemma InnerMonotone(edges: seq<Edge>, some: set<string>, all: set<string>)
    requires some <= all && Cyclic(Inner(edges, some))
    ensures Cyclic(Inner(edges, all))
  {
    var w :| IsClosedWalk(Inner(edges, some), w);
    forall i | 0 <= i < |w| - 1 ensures (w[i], w[i + 1]) in Inner(edges, all) {
      assert (w[i], w[i + 1]) in Inner(edges, some);
    }
    assert IsClosedWalk(Inner(edges, all), w);
  }

  lemma CycleIsNotExact(edges: seq<Edge>, via: set<string>, now: seq<Edge>)
    requires Cyclic(Inner(now, via))
    ensures !Exact(edges, via, now)
  {
    var w :| IsClosedWalk(Inner(now, via), w);
    assert (w[0], w[1]) in Inner(now, via);
    var e :| e in now && e.source in via;
    assert ConnectionOf(e) in Connections(now) && !Bridges(edges, via, ConnectionOf(e));
  }

  /** A self-loop on a bypassed node is such a cycle: the bypass creates it again. */
  lemma SelfLoopReturns(now: seq<Edge>, node: string, next: seq<Edge>)
    requires now == [Edge("e", node, node, None, None)] && SplicedFrom(now, node, next)
    ensures Cyclic(Inner(now, {node})) && ConnectionOf(now[0]) in Connections(next) && !Exact(now, {node}, next)
  {
    var c := ConnectionOf(now[0]);
    assert now[0] in now;
    assert IsClosedWalk(Inner(now, {node}), [node, node]);
    assert JoinedBy(now, node, c, c, c);
    assert !Bridges(now, {node}, c);
  }

  /**
   * `_bypass_nodes` leaves exactly the connections of the paths whose inner nodes are all
   * bypassed if and only if no cycle runs inside the bypassed nodes. The order of the ids does
   * not matter, no connection is duplicated that was not before, and ids stay distinct.
   */
  method BypassNodes(edges: seq<Edge>, ids: seq<string>) returns (rewritten: seq<Edge>)
    ensures Exact(edges, Elements(ids), rewritten) <==> !Cyclic(Inner(edges, Elements(ids)))
    ensures DistinctIds(edges) ==> DistinctIds(rewritten)
    ensures forall c :: Copies(rewritten, c) <= if Copies(edges, c) > 0 then Copies(edges, c) else 1
  {
    rewritten := edges;
    ghost var all := Elements(ids);
    NothingBypassed(edges);
    assert Elements(ids[..0]) == {};
    for i := 0 to |ids|
      invariant !Cyclic(Inner(edges, all)) ==> Exact(edges, Elements(ids[..i]), rewritten)
      invariant Cyclic(Inner(edges, all)) ==> Cyclic(Inner(rewritten, all))
      invariant DistinctIds(edges) ==> DistinctIds(rewritten)
      invariant forall c :: Copies(rewritten, c) <= if Copies(edges, c) > 0 then Copies(edges, c) else 1
    {
      var next := BypassNode(rewritten, ids[i]);
      BypassSplices(rewritten, ids[i], next);
      RoundExact(edges, ids, i, rewritten, next);
      NoNewDuplicates(rewritten, ids[i], next);
      rewritten := next;
    }
    assert ids[..|ids|] == ids;
    if Cyclic(Inner(edges, all)) {
      CycleIsNotExact(edges, all, rewritten);
    }
  }

  lemma RoundExact(edges: seq<Edge>, ids: seq<string>, i: nat, now: seq<Edge>, next: seq<Edge>)
    requires i < |ids| && SplicedFrom(now, ids[i], next)
    requires !Cyclic(Inner(edges, Elements(ids))) ==> Exact(edges, Elements(ids[..i]), now)
    requires Cyclic(Inner(edges, Elements(ids))) ==> Cyclic(Inner(now, Elements(ids)))
    ensures !Cyclic(Inner(edges, Elements(ids))) ==> Exact(edges, Elements(ids[..i + 1]), next)
    ensures Cyclic(Inner(edges, Elements(ids))) ==> Cyclic(Inner(next, Elements(ids)))
  {
    var all, via := Elements(ids), Elements(ids[..i]);
    assert ids[..i + 1] == ids[..i] + [ids[i]];
    assert Elements(ids[..i + 1]) == via + {ids[i]};
    if Cyclic(Inner(edges, all)) {
      SpliceContracts(now, ids[i], next, all);
      CycleSurvives(Inner(now, all), ids[i], Inner(next, all));
    } else if ids[i] in via {
      RepeatExact(edges, via, now, ids[i], next);
      assert via + {ids[i]} == via;
    } else {
      assert via + {ids[i]} <= all;
      if Cyclic(Inner(edges, via + {ids[i]})) {
        InnerMonotone(edges, via + {ids[i]}, all);
      }
      StepExact(edges, via, now, ids[i], next);
    }
  }

  // ---- ids and duplicates --------------------------------------------------------------------------

  /** How many edges make the connection `c`. */
  function Copies(edges: seq<Edge>, c: Connection): nat {
    if edges == [] then 0
    else Copies(edges[..|edges| - 1], c) + if ConnectionOf(edges[|edges| - 1]) == c then 1 else 0
  }

  lemma {:induction false} CopiesPositive(edges: seq<Edge>, c: Connection)
    ensures Copies(edges, c) > 0 <==> c in Connections(edges)
  {
    if edges != [] {
      var n := |edges| - 1;
      CopiesPositive(edges[..n], c);
      assert edges == edges[..n] + [edges[n]];
    }
  }

  lemma {:induction false} CopiesConcat(a: seq<Edge>, b: seq<Edge>, c: Connection)
    ensures Copies(a + b, c) == Copies(a, c) + Copies(b, c)
  {
    if b == [] {
      assert a + b == a;
    } else {
      assert (a + b)[..|a + b| - 1] == a + b[..|b| - 1];
      CopiesConcat(a, b[..|b| - 1], c);
    }
  }

  lemma {:induction false} UntouchedCopies(edges: seq<Edge>, node: string, c: Connection)
    ensures Copies(Untouched(edges, node), c) <= Copies(edges, c)
  {
    if edges != [] {
      UntouchedCopies(edges[1..], node, c);
      assert edges == [edges[0]] + edges[1..];
      CopiesConcat([edges[0]], edges[1..], c);
      var keep := edges[0].source != node && edges[0].target != node;
      CopiesConcat(if keep then [edges[0]] else [], Untouched(edges[1..], node), c);
    }
  }

  /** New edges repeat nothing, so each connection keeps its copies or gets at most one. */
  lemma {:induction false} NewCopies(kept: seq<Edge>, r: seq<Edge>, c: Connection)
    requires ExtendsWithNew(kept, r)
    ensures Copies(r, c) <= if Copies(kept, c) > 0 then Copies(kept, c) else 1
    decreases |r|
  {
    if |r| == |kept| {
      assert r == kept;
    } else {
      var n := |r| - 1;
      NewStep(kept, r);
      NewCopies(kept, r[..n], c);
      assert NewEdge(r, n);
      CopiesPositive(r[..n], c);
    }
  }

  lemma NewStep(kept: seq<Edge>, r: seq<Edge>)
    requires ExtendsWithNew(kept, r) && |r| > |kept|
    ensures ExtendsWithNew(kept, r[..|r| - 1])
  {
    var s := r[..|r| - 1];
    forall k | |kept| <= k < |s| ensures NewEdge(s, k) {
      assert NewEdge(r, k) && r[..k] == s[..k];
    }
    assert s[..|kept|] == r[..|kept|];
  }

  lemma {:induction false} NewIds(kept: seq<Edge>, r: seq<Edge>)
    requires ExtendsWithNew(kept, r) && DistinctIds(kept)
    ensures DistinctIds(r)
    decreases |r|
  {
    if |r| == |kept| {
      assert r == kept;
    } else {
      var n := |r| - 1;
      NewStep(kept, r);
      NewIds(kept, r[..n]);
      assert NewEdge(r, n);
      forall i | 0 <= i < n ensures r[i].id != r[n].id {
        assert r[..n][i] in r[..n];
      }
      forall i, j | 0 <= i < j < |r| ensures r[i].id != r[j].id {
        if j < n {
          assert r[..n][i].id != r[..n][j].id;
        }
      }
    }
  }

  lemma {:induction false} UntouchedIds(edges: seq<Edge>, node: string)
    requires DistinctIds(edges)
    ensures DistinctIds(Untouched(edges, node))
  {
    if edges != [] {
      var rest := edges[1..];
      UntouchedIds(rest, node);
      var r := Untouched(rest, node);
      forall i | 0 <= i < |r| ensures r[i].id != edges[0].id {
        assert r[i] in rest;
        var j :| 0 <= j < |rest| && rest[j] == r[i];
        assert edges[j + 1] == r[i];
      }
    }
  }

  lemma NoNewDuplicates(now: seq<Edge>, node: string, next: seq<Edge>)
    requires ExtendsWithNew(Untouched(now, node), next)
    ensures DistinctIds(now) ==> DistinctIds(next)
    ensures forall c :: Copies(next, c) <= if Copies(now, c) > 0 then Copies(now, c) else 1
  {
    if DistinctIds(now) {
      UntouchedIds(now, node);
      NewIds(Untouched(now, node), next);
    }
    forall c ensures Copies(next, c) <= if Copies(now, c) > 0 then Copies(now, c) else 1 {
      NewCopies(Untouched(now, node), next, c);
      UntouchedCopies(now, node, c);
    }
  }

  // ---- what survives -----------------------------------------------------------------------------

  /** An edge of the result stands for a path of the original. */
  lemma EdgeExpands(edges: seq<Edge>, via: set<string>, now: seq<Edge>, e: Edge)
    requires Exact(edges, via, now) && e in now
    ensures Reaches(edges, e.source, e.target) && e.source !in via && e.target !in via
  {
    assert ConnectionOf(e) in Connections(now);
    var p :| BridgedBy(edges, via, ConnectionOf(e), p);
  }

  lemma ReachesTransitive(edges: seq<Edge>, u: string, v: string, w: string)
    requires Reaches(edges, u, v) && Reaches(edges, v, w)
    ensures Reaches(edges, u, w)
  {
    var p: seq<Edge> :| IsPath(edges, p) && p[0].source == u && p[|p| - 1].target == v;
    var q: seq<Edge> :| IsPath(edges, q) && q[0].source == v && q[|q| - 1].target == w;
    PathConcat(edges, p, q);
    assert (p + q)[|p + q| - 1] == q[|q| - 1];
  }

  lemma {:induction false} PathExpands(edges: seq<Edge>, via: set<string>, now: seq<Edge>, p: seq<Edge>)
    requires Exact(edges, via, now) && IsPath(now, p)
    ensures Reaches(edges, p[0].source, p[|p| - 1].target)
    ensures p[0].source !in via && p[|p| - 1].target !in via
    decreases |p|
  {
    EdgeExpands(edges, via, now, p[0]);
    if |p| > 1 {
      PathSlice(now, p, 1, |p|);
      var rest := p[1..|p|];
      PathExpands(edges, via, now, rest);
      assert p[0].target == rest[0].source;
      ReachesTransitive(edges, p[0].source, rest[0].source, rest[|rest| - 1].target);
    }
  }

  /** The first kept node on a path, counted in edges. */
  lemma FirstKept(p: seq<Edge>, via: set<string>) returns (k: nat)
    requires |p| >= 1 && p[|p| - 1].target !in via
    ensures k < |p| && p[k].target !in via && forall i :: 0 <= i < k ==> p[i].target in via
  {
    k := 0;
    while p[k].target in via
      invariant k < |p| && forall i :: 0 <= i < k ==> p[i].target in via
      decreases |p| - k
    {
      k := k + 1;
    }
  }

  /** A path whose inner nodes are bypassed and whose ends are kept is one edge of the result. */
  lemma BridgeIsEdge(edges: seq<Edge>, via: set<string>, now: seq<Edge>, p: seq<Edge>)
    requires Exact(edges, via, now) && IsPath(edges, p) && Through(p, via)
    requires p[0].source !in via && p[|p| - 1].target !in via
    ensures Reaches(now, p[0].source, p[|p| - 1].target)
  {
    assert BridgedBy(edges, via, PathConnection(p), p);
    assert PathConnection(p) in Connections(now);
    var e :| e in now && ConnectionOf(e) == PathConnection(p);
    var q := [e];
    assert IsPath(now, q) && q[0].source == p[0].source && q[|q| - 1].target == p[|p| - 1].target;
  }

  /** A path up to its first kept node is one edge of the result. */
  lemma FirstBridge(edges: seq<Edge>, via: set<string>, now: seq<Edge>, p: seq<Edge>) returns (k: nat)
    requires Exact(edges, via, now) && IsPath(edges, p) && p[0].source !in via && p[|p| - 1].target !in via
    ensures k < |p| && p[k].target !in via && Reaches(now, p[0].source, p[k].target)
  {
    hide Exact, Reaches;
    k := FirstKept(p, via);
    PathSlice(edges, p, 0, k + 1);
    BridgeIsEdge(edges, via, now, p[0..k + 1]);
  }

  lemma {:induction false} PathContracts(edges: seq<Edge>, via: set<string>, now: seq<Edge>, p: seq<Edge>)
    requires Exact(edges, via, now) && IsPath(edges, p) && p[0].source !in via && p[|p| - 1].target !in via
    ensures Reaches(now, p[0].source, p[|p| - 1].target)
    decreases |p|
  {
    hide Exact, Reaches;
    var k := FirstBridge(edges, via, now, p);
    if k + 1 < |p| {
      PathSlice(edges, p, k + 1, |p|);
      var tail := p[k + 1..|p|];
      assert p[k].target == p[k + 1].source;
      PathContracts(edges, via, now, tail);
      ReachesTransitive(now, p[0].source, tail[0].source, tail[|tail| - 1].target);
    }
  }

  /** Among kept nodes the bypass changes neither which reach which nor acyclicity. */
  lemma ReachabilitySurvives(edges: seq<Edge>, via: set<string>, now: seq<Edge>, u: string, v: string)
    requires Exact(edges, via, now) && u !in via && v !in via
    ensures Reaches(now, u, v) <==> Reaches(edges, u, v)
  {
    if p: seq<Edge> :| IsPath(now, p) && p[0].source == u && p[|p| - 1].target == v {
      PathExpands(edges, via, now, p);
    }
    if p: seq<Edge> :| IsPath(edges, p) && p[0].source == u && p[|p| - 1].target == v {
      PathContracts(edges, via, now, p);
    }
  }

  lemma AcyclicitySurvives(edges: seq<Edge>, via: set<string>, now: seq<Edge>)
    requires Exact(edges, via, now) && Acyclic(edges)
    ensures Acyclic(now)
  {
    forall u ensures !Reaches(now, u, u) {
      if p: seq<Edge> :| IsPath(now, p) && p[0].source == u && p[|p| - 1].target == u {
        PathExpands(edges, via, now, p);
      }
    }
  }

  /** On acyclic edges, which validated pipelines have, the bypass is exact. */
  lemma AcyclicHasNoInnerCycle(edges: seq<Edge>, nodes: set<string>)
    requires Acyclic(edges)
    ensures !Cyclic(Inner(edges, nodes))
  {
    if w :| IsClosedWalk(Inner(edges, nodes), w) {
      WalkReaches(edges, nodes, w);
    }
  }

  lemma {:induction false} WalkReaches(edges: seq<Edge>, nodes: set<string>, w: seq<string>)
    requires IsWalk(Inner(edges, nodes), w) && |w| >= 2
    ensures Reaches(edges, w[0], w[|w| - 1])
    decreases |w|
  {
    assert (w[0], w[1]) in Inner(edges, nodes);
    var e :| e in edges && e.source == w[0] && e.target == w[1];
    assert IsPath(edges, [e]);
    assert Reaches(edges, [e][0].source, [e][|[e]| - 1].target);
    if |w| > 2 {
      WalkSlice(Inner(edges, nodes), w, 1, |w| - 1);
      assert w[1..|w| - 1 + 1] == w[1..];
      WalkReaches(edges, nodes, w[1..]);
      ReachesTransitive(edges, w[0], w[1], w[|w| - 1]);
    }
  }

  predicate Touches(e: Edge, removed: set<string>) {
    e.source in removed || e.target in removed
  }

  /** The edge half of `upgrade_definition`: bypass, then drop what touches a removed node. */
  method UpgradeEdges(edges: seq<Edge>, bypassed: seq<string>, removed: set<string>)
    returns (kept: seq<Edge>, dropped: bool)
    ensures !Cyclic(Inner(edges, Elements(bypassed))) ==>
              && (forall c :: c in Connections(kept) <==>
                    Bridges(edges, Elements(bypassed), c) && c.source !in removed && c.target !in removed)
              && (dropped <==>
                    exists c :: Bridges(edges, Elements(bypassed), c) && (c.source in removed || c.target in removed))
    ensures DistinctIds(edges) ==> DistinctIds(kept)
  {
    var rewritten := BypassNodes(edges, bypassed);
    kept, dropped := [], false;
    for i := 0 to |rewritten|
      invariant forall e :: e in kept <==> e in rewritten[..i] && !Touches(e, removed)
      invariant dropped <==> exists e :: e in rewritten[..i] && Touches(e, removed)
      invariant DistinctIds(rewritten) ==> DistinctIds(kept)
    {
      assert rewritten[..i + 1] == rewritten[..i] + [rewritten[i]];
      if Touches(rewritten[i], removed) {
        dropped := true;
      } else {
        if DistinctIds(rewritten) {
          forall k | 0 <= k < |kept| ensures kept[k].id != rewritten[i].id {
            assert kept[k] in rewritten[..i];
          }
        }
        kept := kept + [rewritten[i]];
      }
    }
    assert rewritten[..|rewritten|] == rewritten;
    forall c ensures c in Connections(kept) <==> c in Connections(rewritten) && c.source !in removed && c.target !in removed {
      if c in Connections(rewritten) && c.source !in removed && c.target !in removed {
        var e :| e in rewritten && ConnectionOf(e) == c;
        assert e in kept;
      }
    }
    if dropped {
      var e :| e in rewritten && Touches(e, removed);
      assert ConnectionOf(e) in Connections(rewritten);
    }
    if c :| c in Connections(rewritten) && (c.source in removed || c.target in removed) {
      var e :| e in rewritten && ConnectionOf(e) == c;
      assert Touches(e, removed);
    }
  }
}
