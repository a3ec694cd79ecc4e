/**
 * Fusion limits (app/pipelines/upgrades.py, `_insert_fusion_limits`): fusion nodes that cut
 * their results become fusion nodes that do not, each followed by a Result Limit node. The
 * meaning of a definition is what its nodes deliver to each other
 * (app/pipelines/execution/executor.py).
 */
module FusionLimits {
  import opened Wrappers
  import opened Collections
  import opened Graphs
  import opened Numbering

  const LIMIT_TYPE := "limit.results"

  const FUSION_PREFIX := "fusion."

  /** A cut depth as configured, and the rest of a config, of which nothing else matters here. */
  type Cut = string

  datatype Config = Config(topK: Option<Cut>, maxResults: Option<Cut>, rest: string)

  datatype Node = Node(id: string, ty: string, name: string, config: Config)

  predicate IsFusion(n: Node) {
    FUSION_PREFIX <= n.ty
  }

  // ---- meaning ---------------------------------------------------------------------------------

  datatype Payload = Results(matches: seq<string>, usage: int) | Other(content: string)

  type Outputs = map<string, Payload>

  /** What reaches an input port, and along which edge. */
  datatype Arrival = Arrival(edge: string, port: string, payload: Payload)

  datatype Version = TruncatingFusion | PlainFusion

  /** What a run brings with it: the depth of a cut, the requested depth and the other nodes' behaviour. */
  datatype Semantics = Semantics(
    depth: Cut -> nat,
    requested: Option<int>,
    fuse: (string, string, seq<Arrival>) -> seq<string>,
    usage: (string, string, seq<Arrival>) -> int,
    other: (Node, seq<Arrival>) -> Outputs)

  function Take(matches: seq<string>, k: int): seq<string> {
    if k <= 0 then [] else if k < |matches| then matches[..k] else matches
  }

  /** The explicit cut, else the requested depth, else everything. */
  function CutMatches(sem: Semantics, cut: Option<Cut>, matches: seq<string>): seq<string> {
    if cut.Some? then Take(matches, sem.depth(cut.value))
    else if sem.requested.Some? then Take(matches, sem.requested.value)
    else matches
  }

  /** A cut keeps the first matches: as many as configured, else as requested, else all. */
  lemma CutMeaning(sem: Semantics, cut: Option<Cut>, matches: seq<string>)
    ensures var kept := CutMatches(sem, cut, matches);
            && kept <= matches
            && (cut.Some? ==> |kept| == if sem.depth(cut.value) < |matches| then sem.depth(cut.value) else |matches|)
            && (cut.None? && sem.requested.Some? ==>
                  var k := sem.requested.value; |kept| == if k < 0 then 0 else if k < |matches| then k else |matches|)
            && (cut.None? && sem.requested.None? ==> kept == matches)
  {
  }

  function LastOn(port: string, arrivals: seq<Arrival>): Option<Payload> {
    if arrivals == [] then None
    else if arrivals[|arrivals| - 1].port == port then Some(arrivals[|arrivals| - 1].payload)
    else LastOn(port, arrivals[..|arrivals| - 1])
  }

  /** What counts on a port is the last that arrived there. */
  lemma {:induction false} LastOnMeaning(port: string, arrivals: seq<Arrival>)
    ensures var r := LastOn(port, arrivals);
            if forall a :: a in arrivals ==> a.port != port then r == None
            else exists k :: 0 <= k < |arrivals| && arrivals[k].port == port && r == Some(arrivals[k].payload)
                             && forall j :: k < j < |arrivals| ==> arrivals[j].port != port
  {
    if arrivals != [] {
      var n := |arrivals| - 1;
      assert arrivals == arrivals[..n] + [arrivals[n]];
      if arrivals[n].port != port {
        LastOnMeaning(port, arrivals[..n]);
        if a :| a in arrivals && a.port == port {
          assert a in arrivals[..n];
          var k :| 0 <= k < n && arrivals[..n][k].port == port && LastOn(port, arrivals) == Some(arrivals[..n][k].payload)
                   && forall j :: k < j < n ==> arrivals[..n][j].port != port;
          assert arrivals[k].port == port && forall j :: k < j < n ==> arrivals[j] == arrivals[..n][j];
        }
      }
    }
  }

  function RunNode(sem: Semantics, version: Version, n: Node, arrivals: seq<Arrival>): Outputs {
    if IsFusion(n) then
      var fused := sem.fuse(n.ty, n.config.rest, arrivals);
      var kept := if version.TruncatingFusion? then CutMatches(sem, n.config.topK, fused) else fused;
      map["results" := Results(kept, sem.usage(n.ty, n.config.rest, arrivals))]
    else if n.ty == LIMIT_TYPE then
      match LastOn("results", arrivals)
      case Some(Results(matches, usage)) => map["results" := Results(CutMatches(sem, n.config.maxResults, matches), usage)]
      case _ => map[]
    else sem.other(n, arrivals)
  }

  function Port(p: Option<string>): string {
    if p.Some? && p.value != "" then p.value else "default"
  }

  function Delivery(e: Edge, values: map<string, Outputs>, id: string): seq<Arrival> {
    if e.target == id && e.source in values && Port(e.sourcePort) in values[e.source]
    then [Arrival(e.id, Port(e.targetPort), values[e.source][Port(e.sourcePort)])] else []
  }

  /** What reaches a node, in the order of the edges. */
  function Deliveries(edges: seq<Edge>, values: map<string, Outputs>, id: string): seq<Arrival> {
    if edges == [] then [] else Delivery(edges[0], values, id) + Deliveries(edges[1..], values, id)
  }

  /** A node that is fed by edges but receives nothing never runs. */
  function NodeOutput(sem: Semantics, version: Version, n: Node, edges: seq<Edge>, arrivals: seq<Arrival>): Outputs {
    if arrivals == [] && exists e :: e in edges && e.target == n.id then map[] else RunNode(sem, version, n, arrivals)
  }

  datatype Graph = Graph(nodes: seq<Node>, edges: seq<Edge>)

  function NodeIds(nodes: seq<Node>): set<string> {
    set n | n in nodes :: n.id
  }

  ghost predicate DistinctNodeIds(nodes: seq<Node>) {
    forall i, j :: 0 <= i < j < |nodes| ==> nodes[i].id != nodes[j].id
  }

  /** The outputs of a complete run: every node has produced what it makes of what reached it. */
  ghost predicate IsOutcome(sem: Semantics, version: Version, g: Graph, values: map<string, Outputs>) {
    && values.Keys == NodeIds(g.nodes)
    && forall n {:trigger Produces(sem, version, g, values, n)} :: n in g.nodes ==> Produces(sem, version, g, values, n)
  }

  ghost predicate Produces(sem: Semantics, version: Version, g: Graph, values: map<string, Outputs>, n: Node) {
    n.id in values && values[n.id] == NodeOutput(sem, version, n, g.edges, Deliveries(g.edges, values, n.id))
  }

  /** Edges lead from lower to higher rank, as they do on acyclic graphs. */
  ghost predicate Ranked(g: Graph, rank: map<string, nat>) {
    && rank.Keys == NodeIds(g.nodes)
    && forall e :: e in g.edges && e.source in rank && e.target in rank ==> rank[e.source] < rank[e.target]
  }

  lemma {:induction false} DeliveriesAgree(edges: seq<Edge>, v: map<string, Outputs>, w: map<string, Outputs>, id: string)
    requires forall e :: e in edges && e.target == id ==>
               (e.source in v <==> e.source in w) && (e.source in v ==> v[e.source] == w[e.source])
    ensures Deliveries(edges, v, id) == Deliveries(edges, w, id)
  {
    if edges != [] {
      assert edges[0] in edges;
      DeliveriesAgree(edges[1..], v, w, id);
    }
  }

  // ---- an acyclic definition has exactly one outcome ------------------------------------------------

  function NodeWith(nodes: seq<Node>, id: string): (n: Node)
    requires id in NodeIds(nodes)
    ensures n in nodes && n.id == id
  {
    if nodes[0].id == id then nodes[0]
    else
      assert nodes == [nodes[0]] + nodes[1..];
      NodeWith(nodes[1..], id)
  }

  /** `k` rounds of running every node on what the round before produced. */
  function Rounds(sem: Semantics, version: Version, g: Graph, k: nat): (values: map<string, Outputs>)
    ensures values.Keys == NodeIds(g.nodes)
  {
    if k == 0 then map id | id in NodeIds(g.nodes) :: map[]
    else
      var before := Rounds(sem, version, g, k - 1);
      map id | id in NodeIds(g.nodes) ::
        NodeOutput(sem, version, NodeWith(g.nodes, id), g.edges, Deliveries(g.edges, before, id))
  }

  lemma RoundAt(sem: Semantics, version: Version, g: Graph, k: nat, id: string)
    requires id in NodeIds(g.nodes)
    ensures Rounds(sem, version, g, k + 1)[id] ==
            NodeOutput(sem, version, NodeWith(g.nodes, id), g.edges, Deliveries(g.edges, Rounds(sem, version, g, k), id))
  {
  }

  lemma RoundSettles(sem: Semantics, version: Version, g: Graph, k: nat, id: string)
    requires id in NodeIds(g.nodes)
    requires forall e :: e in g.edges && e.target == id && e.source in NodeIds(g.nodes) ==>
               Rounds(sem, version, g, k)[e.source] == Rounds(sem, version, g, k + 1)[e.source]
    ensures Rounds(sem, version, g, k + 1)[id] == Rounds(sem, version, g, k + 2)[id]
  {
    RoundAt(sem, version, g, k, id);
    RoundAt(sem, version, g, k + 1, id);
    hide *;
    DeliveriesAgree(g.edges, Rounds(sem, version, g, k), Rounds(sem, version, g, k + 1), id);
  }

  lemma {:induction false} RoundsSettle(sem: Semantics, version: Version, g: Graph, rank: map<string, nat>, k: nat, id: string)
    requires Ranked(g, rank) && id in rank && rank[id] <= k
    ensures Rounds(sem, version, g, k + 1)[id] == Rounds(sem, version, g, k + 2)[id]
    decreases k
  {
    hide Rounds;
    forall e | e in g.edges && e.target == id && e.source in rank
      ensures Rounds(sem, version, g, k)[e.source] == Rounds(sem, version, g, k + 1)[e.source]
    {
      RoundsSettle(sem, version, g, rank, k - 1, e.source);
    }
    RoundSettles(sem, version, g, k, id);
  }

  lemma RankedIds(g: Graph, rank: map<string, nat>, n: Node)
    requires Ranked(g, rank) && n in g.nodes
    ensures n.id in rank && n.id in NodeIds(g.nodes)
  {
  }

  lemma TheNodeWith(nodes: seq<Node>, n: Node)
    requires DistinctNodeIds(nodes) && n in nodes
    ensures NodeWith(nodes, n.id) == n
  {
    var m := NodeWith(nodes, n.id);
    var i :| 0 <= i < |nodes| && nodes[i] == n;
    var j :| 0 <= j < |nodes| && nodes[j] == m;
  }

  lemma OutcomeExists(sem: Semantics, version: Version, g: Graph, rank: map<string, nat>, k: nat)
    requires Ranked(g, rank) && DistinctNodeIds(g.nodes) && forall id :: id in rank ==> rank[id] <= k
    ensures IsOutcome(sem, version, g, Rounds(sem, version, g, k + 1))
  {
    hide Rounds, NodeOutput, Deliveries, Ranked, DistinctNodeIds;
    forall n | n in g.nodes ensures Produces(sem, version, g, Rounds(sem, version, g, k + 1), n) {
      RankedIds(g, rank, n);
      RoundsSettle(sem, version, g, rank, k, n.id);
      RoundAt(sem, version, g, k + 1, n.id);
      TheNodeWith(g.nodes, n);
    }
  }

  lemma {:induction false} OutcomeUnique(sem: Semantics, version: Version, g: Graph, rank: map<string, nat>,
                                         v: map<string, Outputs>, w: map<string, Outputs>, n: Node)
    requires Ranked(g, rank) && IsOutcome(sem, version, g, v) && IsOutcome(sem, version, g, w) && n in g.nodes
    ensures v[n.id] == w[n.id]
    decreases rank[n.id]
  {
    OutcomeAt(sem, version, g, v, n);
    OutcomeAt(sem, version, g, w, n);
    forall e | e in g.edges && e.target == n.id && e.source in v ensures v[e.source] == w[e.source] {
      OutcomeUnique(sem, version, g, rank, v, w, NodeWith(g.nodes, e.source));
    }
    DeliveriesAgree(g.edges, v, w, n.id);
  }

  /** The ids as the cycle check of the validator is given them. */
  function IdList(nodes: seq<Node>): (r: seq<string>)
    ensures Elements(r) == NodeIds(nodes)
  {
    var r := seq(|nodes|, i requires 0 <= i < |nodes| => nodes[i].id);
    assert Elements(r) == NodeIds(nodes) by {
      forall id | id in NodeIds(nodes) ensures id in Elements(r) {
        var n :| n in nodes && n.id == id;
        var k :| 0 <= k < |nodes| && nodes[k] == n;
        assert r[k] in r;
      }
    }
    r
  }

  /** What the cycle check of the validator demands. */
  ghost predicate Acyclic(g: Graph) {
    !Cyclic(Links(IdList(g.nodes), g.edges))
  }

  /** The order of the cycle check, successors first, gives the ranks of an acyclic definition. */
  lemma OrderRanks(g: Graph, order: seq<string>) returns (rank: map<string, nat>)
    requires var ids := IdList(g.nodes);
             Distinct(order) && Elements(ids) <= Elements(order) && DependenciesFirst(Links(ids, g.edges), order)
    ensures Ranked(g, rank)
  {
    rank := map id | id in NodeIds(g.nodes) :: |order| - Position(order, id);
    forall e | e in g.edges && e.source in rank && e.target in rank ensures rank[e.source] < rank[e.target] {
      var i := Position(order, e.source);
      assert e.source in Elements(IdList(g.nodes)) && (order[i], e.target) in Links(IdList(g.nodes), g.edges);
      assert order[i] == e.source && e.target in order[..i];
      var j :| 0 <= j < i && order[j] == e.target;
      assert order[Position(order, e.target)] == e.target;
    }
  }

  lemma AcyclicRanked(g: Graph) returns (rank: map<string, nat>)
    requires Acyclic(g)
    ensures Ranked(g, rank)
  {
    hide Cyclic;
    var order := AcyclicOrder(Links(IdList(g.nodes), g.edges), NodeIds(g.nodes) + set e | e in g.edges :: e.target);
    rank := OrderRanks(g, order);
  }

  lemma {:induction false} WalkClimbs(g: Graph, rank: map<string, nat>, w: seq<string>, j: nat)
    requires Ranked(g, rank) && IsClosedWalk(Links(IdList(g.nodes), g.edges), w) && j < |w|
    ensures w[0] in rank && w[j] in rank && rank[w[0]] + j <= rank[w[j]]
  {
    var r := Links(IdList(g.nodes), g.edges);
    assert (w[0], w[1]) in r && w[0] in Elements(IdList(g.nodes));
    if j > 0 {
      WalkClimbs(g, rank, w, j - 1);
      assert (w[j - 1], w[j]) in r;
      assert j < |w| - 1 ==> (w[j], w[j + 1]) in r && w[j] in Elements(IdList(g.nodes));
    }
  }

  lemma RankedAcyclic(g: Graph, rank: map<string, nat>)
    requires Ranked(g, rank)
    ensures Acyclic(g)
  {
    if w :| IsClosedWalk(Links(IdList(g.nodes), g.edges), w) {
      WalkClimbs(g, rank, w, |w| - 1);
      assert false;
    }
  }

  function Position(order: seq<string>, id: string): (i: nat)
    requires id in order
    ensures i < |order| && order[i] == id
  {
    if order[0] == id then 0
    else
      assert order == [order[0]] + order[1..];
      1 + Position(order[1..], id)
  }

  // ---- the rewrite --------------------------------------------------------------------------------

  function Limited(limitOf: map<string, string>, id: string): string {
    if id in limitOf then limitOf[id] else id
  }

  /** An edge out of a fusion node comes out of its limit instead. */
  function Rewired(e: Edge, limitOf: map<string, string>): Edge {
    e.(source := Limited(limitOf, e.source))
  }

  function Uncut(n: Node): Node {
    n.(config := n.config.(topK := None))
  }

  function LimitNode(n: Node, id: string): Node {
    Node(id, LIMIT_TYPE, "Result Limit", Config(None, n.config.topK, ""))
  }

  /** Every fusion node without its cut, followed by the limit that carries it. */
  function Expanded(nodes: seq<Node>, limitOf: map<string, string>): seq<Node> {
    if nodes == [] then []
    else
      var n := nodes[|nodes| - 1];
      Expanded(nodes[..|nodes| - 1], limitOf)
      + if IsFusion(n) && n.id in limitOf then [Uncut(n), LimitNode(n, limitOf[n.id])] else [n]
  }

  function Fusions(nodes: seq<Node>): seq<string> {
    if nodes == [] then []
    else Fusions(nodes[..|nodes| - 1]) + if IsFusion(nodes[|nodes| - 1]) then [nodes[|nodes| - 1].id] else []
  }

  predicate IsLimitEdge(e: Edge, f: string, limitOf: map<string, string>) {
    f in limitOf && e.source == f && e.target == limitOf[f]
    && e.sourcePort == Some("results") && e.targetPort == Some("results")
  }

  /** The limits that have been inserted have fresh, pairwise different ids. */
  ghost predicate FreshLimits(nodes: seq<Node>, limitOf: map<string, string>) {
    && (forall f :: f in limitOf ==> limitOf[f] !in NodeIds(nodes))
    && forall f, g :: f in limitOf && g in limitOf && f != g ==> limitOf[f] != limitOf[g]
  }

  /**
   * The edges after the insertion: the original ones, rewired in place, then one edge from
   * each fusion node of `fusions`, in order, to its limit.
   */
  ghost predicate RewiredEdges(edges: seq<Edge>, fusions: seq<string>, limitOf: map<string, string>, r: seq<Edge>) {
    && |r| == |edges| + |fusions|
    && (forall j :: 0 <= j < |edges| ==> r[j] == Rewired(edges[j], limitOf))
    && forall k :: 0 <= k < |fusions| ==> IsLimitEdge(r[|edges| + k], fusions[k], limitOf)
  }

  ghost predicate DistinctEdgeIds(edges: seq<Edge>) {
    forall i, j :: 0 <= i < j < |edges| ==> edges[i].id != edges[j].id
  }

  /** One fusion node of the loop: its edges move to the limit and the connecting edge is added. */
  method InsertLimit(edges: seq<Edge>, node: string, limit: string) returns (r: seq<Edge>)
    ensures |r| == |edges| + 1
    ensures forall j :: 0 <= j < |edges| ==> r[j] == if edges[j].source == node then edges[j].(source := limit) else edges[j]
    ensures IsLimitEdge(r[|edges|], node, map[node := limit])
    ensures FirstFree("edge-" + node + "-limit", set e | e in edges :: e.id, r[|edges|].id)
    ensures DistinctEdgeIds(edges) ==> DistinctEdgeIds(r)
  {
    var moved: seq<Edge> := [];
    for j := 0 to |edges|
      invariant |moved| == j
      invariant forall k :: 0 <= k < j ==>
                  moved[k] == if edges[k].source == node then edges[k].(source := limit) else edges[k]
    {
      moved := moved + [if edges[j].source == node then edges[j].(source := limit) else edges[j]];
    }
    var taken := set e | e in moved :: e.id;
    forall id ensures id in taken <==> id in (set e | e in edges :: e.id) {
      if e :| e in edges && e.id == id {
        var k :| 0 <= k < |edges| && edges[k] == e;
        assert moved[k] in moved;
      }
      if e :| e in moved && e.id == id {
        var k :| 0 <= k < |moved| && moved[k] == e;
        assert edges[k] in edges;
      }
    }
    assert taken == set e | e in edges :: e.id;
    var id := FindFree("edge-" + node + "-limit", taken);
    r := moved + [Edge(id, node, limit, Some("results"), Some("results"))];
    forall i | 0 <= i < |edges| ensures edges[i].id != id {
      assert edges[i] in edges;
    }
  }

  /** What has been built once the first `i` nodes have been handled. */
  ghost predicate Inserted(nodes: seq<Node>, edges: seq<Edge>, i: nat, limitOf: map<string, string>,
                           taken: set<string>, nodes': seq<Node>, edges': seq<Edge>)
    requires i <= |nodes|
  {
    && limitOf.Keys == Elements(Fusions(nodes[..i])) && FreshLimits(nodes, limitOf)
    && taken == NodeIds(nodes) + limitOf.Values
    && nodes' == Expanded(nodes[..i], limitOf) && RewiredEdges(edges, Fusions(nodes[..i]), limitOf, edges')
  }

  /** `_insert_fusion_limits`; `limitOf` tells which limit was inserted after which fusion node. */
  method InsertFusionLimits(nodes: seq<Node>, edges: seq<Edge>)
    returns (nodes': seq<Node>, edges': seq<Edge>, ghost limitOf: map<string, string>)
    requires DistinctNodeIds(nodes)
    ensures limitOf.Keys == Elements(Fusions(nodes)) && FreshLimits(nodes, limitOf)
    ensures nodes' == Expanded(nodes, limitOf) && RewiredEdges(edges, Fusions(nodes), limitOf, edges')
    ensures DistinctEdgeIds(edges) ==> DistinctEdgeIds(edges')
  {
    var taken := NodeIds(nodes);
    nodes', edges', limitOf := [], edges, map[];
    assert nodes[..0] == [];
    for i := 0 to |nodes|
      invariant Inserted(nodes, edges, i, limitOf, taken, nodes', edges')
      invariant DistinctEdgeIds(edges) ==> DistinctEdgeIds(edges')
    {
      var n := nodes[i];
      if IsFusion(n) {
        var limit := FindFree(n.id + "-limit", taken);
        var next := InsertLimit(edges', n.id, limit);
        FusionRound(nodes, edges, i, limitOf, taken, nodes', edges', limit, next);
        var plain := n.(config := n.config.(topK := None));
        var cut := Node(limit, LIMIT_TYPE, "Result Limit", Config(None, n.config.topK, ""));
        nodes', edges', taken := nodes' + [plain, cut], next, taken + {limit};
        limitOf := limitOf[n.id := limit];
      } else {
        OtherRound(nodes, edges, i, limitOf, taken, nodes', edges');
        nodes' := nodes' + [n];
      }
    }
    assert nodes[..|nodes|] == nodes;
  }

  lemma FusionRound(nodes: seq<Node>, edges: seq<Edge>, i: nat, limitOf: map<string, string>, taken: set<string>,
                    done: seq<Node>, now: seq<Edge>, limit: string, next: seq<Edge>)
    requires DistinctNodeIds(nodes) && i < |nodes| && IsFusion(nodes[i])
    requires Inserted(nodes, edges, i, limitOf, taken, done, now) && limit !in taken
    requires |next| == |now| + 1 && IsLimitEdge(next[|now|], nodes[i].id, map[nodes[i].id := limit])
    requires forall j :: 0 <= j < |now| ==>
               next[j] == if now[j].source == nodes[i].id then now[j].(source := limit) else now[j]
    ensures Inserted(nodes, edges, i + 1, limitOf[nodes[i].id := limit], taken + {limit},
                     done + [Uncut(nodes[i]), LimitNode(nodes[i], limit)], next)
  {
    var n, more := nodes[i], limitOf[nodes[i].id := limit];
    assert nodes[..i + 1][..i] == nodes[..i];
    FusionsEarlier(nodes, i);
    RoundRewires(nodes, edges, i, limitOf, limit, now, next);
    RoundFresh(nodes, i, limitOf, limit);
    EarlierIds(nodes, i);
    ExpandedStable(nodes[..i], limitOf, n.id, limit);
    hide RewiredEdges, FreshLimits;
    assert more.Keys == Elements(Fusions(nodes[..i + 1])) by {
      assert Fusions(nodes[..i + 1]) == Fusions(nodes[..i]) + [n.id];
    }
  }

  lemma OtherRound(nodes: seq<Node>, edges: seq<Edge>, i: nat, limitOf: map<string, string>, taken: set<string>,
                   done: seq<Node>, now: seq<Edge>)
    requires i < |nodes| && !IsFusion(nodes[i]) && Inserted(nodes, edges, i, limitOf, taken, done, now)
    ensures Inserted(nodes, edges, i + 1, limitOf, taken, done + [nodes[i]], now)
  {
    hide RewiredEdges, FreshLimits;
    assert nodes[..i + 1][..i] == nodes[..i];
    assert Fusions(nodes[..i + 1]) == Fusions(nodes[..i]);
  }

  lemma EarlierIds(nodes: seq<Node>, i: nat)
    requires DistinctNodeIds(nodes) && i < |nodes|
    ensures forall n :: n in nodes[..i] ==> n.id != nodes[i].id && n in nodes
  {
    forall n | n in nodes[..i] ensures n.id != nodes[i].id && n in nodes {
      var j :| 0 <= j < i && nodes[j] == n;
    }
  }

  lemma {:induction false} FusionsExact(nodes: seq<Node>)
    ensures forall f :: f in Fusions(nodes) <==> exists n :: n in nodes && IsFusion(n) && n.id == f
  {
    if nodes != [] {
      var k := |nodes| - 1;
      FusionsExact(nodes[..k]);
      assert nodes == nodes[..k] + [nodes[k]];
    }
  }

  lemma FusionsEarlier(nodes: seq<Node>, i: nat)
    requires DistinctNodeIds(nodes) && i < |nodes|
    ensures nodes[i].id !in Fusions(nodes[..i]) && nodes[i].id in NodeIds(nodes)
    ensures forall f :: f in Fusions(nodes[..i]) ==> f in NodeIds(nodes)
  {
    FusionsExact(nodes[..i]);
    EarlierIds(nodes, i);
    assert nodes[i] in nodes;
  }

  lemma {:induction false} ExpandedStable(nodes: seq<Node>, limitOf: map<string, string>, id: string, limit: string)
    requires forall n :: n in nodes ==> n.id != id
    ensures Expanded(nodes, limitOf[id := limit]) == Expanded(nodes, limitOf)
  {
    if nodes != [] {
      var k := |nodes| - 1;
      assert nodes == nodes[..k] + [nodes[k]];
      ExpandedStable(nodes[..k], limitOf, id, limit);
    }
  }

  lemma RoundFresh(nodes: seq<Node>, i: nat, limitOf: map<string, string>, limit: string)
    requires i < |nodes| && FreshLimits(nodes, limitOf) && limit !in NodeIds(nodes) && limit !in limitOf.Values
    ensures FreshLimits(nodes, limitOf[nodes[i].id := limit])
    ensures nodes[i].id !in limitOf ==> limitOf[nodes[i].id := limit].Values == limitOf.Values + {limit}
  {
    var more := limitOf[nodes[i].id := limit];
    if nodes[i].id !in limitOf {
      assert more[nodes[i].id] == limit;
      forall f | f in limitOf ensures more[f] == limitOf[f] {
      }
      forall v | v in limitOf.Values ensures v in more.Values {
        var f :| f in limitOf && limitOf[f] == v;
        assert more[f] == v;
      }
    }
  }

  lemma RoundRewires(nodes: seq<Node>, edges: seq<Edge>, i: nat, limitOf: map<string, string>, limit: string,
                     now: seq<Edge>, next: seq<Edge>)
    requires i < |nodes| && IsFusion(nodes[i]) && RewiredEdges(edges, Fusions(nodes[..i]), limitOf, now)
    requires limitOf.Keys == Elements(Fusions(nodes[..i])) && nodes[i].id !in limitOf
    requires nodes[i].id !in limitOf.Values
    requires |next| == |now| + 1 && IsLimitEdge(next[|now|], nodes[i].id, map[nodes[i].id := limit])
    requires forall j :: 0 <= j < |now| ==>
               next[j] == if now[j].source == nodes[i].id then now[j].(source := limit) else now[j]
    ensures RewiredEdges(edges, Fusions(nodes[..i + 1]), limitOf[nodes[i].id := limit], next)
  {
    assert nodes[..i + 1][..i] == nodes[..i];
    var fusions, more := Fusions(nodes[..i]), limitOf[nodes[i].id := limit];
    assert Fusions(nodes[..i + 1]) == fusions + [nodes[i].id];
    forall j | 0 <= j < |edges| ensures next[j] == Rewired(edges[j], more) {
      assert now[j] == Rewired(edges[j], limitOf);
    }
    forall k | 0 <= k < |fusions| + 1 ensures IsLimitEdge(next[|edges| + k], (fusions + [nodes[i].id])[k], more) {
      if k < |fusions| {
        assert IsLimitEdge(now[|edges| + k], fusions[k], limitOf);
        assert fusions[k] in Elements(fusions);
      }
    }
  }

  // ---- the meaning is preserved -----------------------------------------------------------------

  lemma {:induction false} DeliveriesSplit(a: seq<Edge>, b: seq<Edge>, values: map<string, Outputs>, id: string)
    ensures Deliveries(a + b, values, id) == Deliveries(a, values, id) + Deliveries(b, values, id)
  {
    if a == [] {
      assert a + b == b;
    } else {
      assert (a + b)[1..] == a[1..] + b;
      DeliveriesSplit(a[1..], b, values, id);
    }
  }

  lemma {:induction false} NothingDelivered(edges: seq<Edge>, values: map<string, Outputs>, id: string)
    requires forall e :: e in edges ==> e.target != id
    ensures Deliveries(edges, values, id) == []
  {
    if edges != [] {
      NothingDelivered(edges[1..], values, id);
    }
  }

  lemma OneDelivery(edges: seq<Edge>, values: map<string, Outputs>, id: string, k: nat)
    requires k < |edges| && forall j :: 0 <= j < |edges| && j != k ==> edges[j].target != id
    ensures Deliveries(edges, values, id) == Delivery(edges[k], values, id)
  {
    assert edges == edges[..k] + ([edges[k]] + edges[k + 1..]);
    DeliveriesSplit(edges[..k], [edges[k]] + edges[k + 1..], values, id);
    NothingDelivered(edges[..k], values, id);
    NothingDelivered(edges[k + 1..], values, id);
  }

  /** Rewired edges deliver the same when every limit holds what its fusion node used to hold. */
  lemma {:induction false} RewiredDeliver(edges: seq<Edge>, r: seq<Edge>, limitOf: map<string, string>,
                                          v: map<string, Outputs>, w: map<string, Outputs>, id: string)
    requires |r| == |edges| && forall j :: 0 <= j < |edges| ==> r[j] == Rewired(edges[j], limitOf)
    requires forall e :: e in edges && e.target == id ==>
               var s := Limited(limitOf, e.source);
               (e.source in v <==> s in w) && (e.source in v ==> v[e.source] == w[s])
    ensures Deliveries(edges, v, id) == Deliveries(r, w, id)
  {
    if edges != [] {
      assert edges[0] in edges && r[0] == Rewired(edges[0], limitOf);
      RewiredDeliver(edges[1..], r[1..], limitOf, v, w, id);
    }
  }

  lemma {:induction false} ExpandedHas(nodes: seq<Node>, limitOf: map<string, string>, n: Node)
    requires n in nodes
    ensures var r := Expanded(nodes, limitOf);
            if IsFusion(n) && n.id in limitOf then Uncut(n) in r && LimitNode(n, limitOf[n.id]) in r else n in r
  {
    var k := |nodes| - 1;
    assert nodes == nodes[..k] + [nodes[k]];
    if n != nodes[k] {
      ExpandedHas(nodes[..k], limitOf, n);
    }
  }

  lemma {:induction false} ExpandedFrom(nodes: seq<Node>, limitOf: map<string, string>, m: Node)
    requires m in Expanded(nodes, limitOf)
    ensures m.id in NodeIds(nodes) || exists f :: f in limitOf && f in NodeIds(nodes) && limitOf[f] == m.id
  {
    var k := |nodes| - 1;
    assert nodes == nodes[..k] + [nodes[k]];
    assert nodes[k] in nodes;
    if m in Expanded(nodes[..k], limitOf) {
      ExpandedFrom(nodes[..k], limitOf, m);
    }
  }

  /** The result of the insertion, as `InsertFusionLimits` delivers it. */
  ghost predicate Insertion(g: Graph, limitOf: map<string, string>, h: Graph) {
    && DistinctNodeIds(g.nodes)
    && limitOf.Keys == Elements(Fusions(g.nodes)) && FreshLimits(g.nodes, limitOf)
    && h.nodes == Expanded(g.nodes, limitOf) && RewiredEdges(g.edges, Fusions(g.nodes), limitOf, h.edges)
  }

  lemma AppendDistinct(before: seq<Node>, tail: seq<Node>)
    requires DistinctNodeIds(before) && DistinctNodeIds(tail)
    requires forall m, n :: m in before && n in tail ==> m.id != n.id
    ensures DistinctNodeIds(before + tail)
  {
    var r := before + tail;
    forall i, j | 0 <= i < j < |r| ensures r[i].id != r[j].id {
      if i < |before| <= j {
        assert before[i] in before && tail[j - |before|] in tail;
      }
    }
  }

  lemma {:induction false} ExpandedDistinct(nodes: seq<Node>, limitOf: map<string, string>)
    requires DistinctNodeIds(nodes) && FreshLimits(nodes, limitOf)
    ensures DistinctNodeIds(Expanded(nodes, limitOf))
  {
    if nodes != [] {
      var k := |nodes| - 1;
      var n := nodes[k];
      EarlierIds(nodes, k);
      assert n in nodes;
      assert forall f :: f in limitOf ==> limitOf[f] !in NodeIds(nodes);
      assert NodeIds(nodes[..k]) <= NodeIds(nodes);
      ExpandedDistinct(nodes[..k], limitOf);
      var before := Expanded(nodes[..k], limitOf);
      forall m | m in before ensures m.id != n.id && (n.id in limitOf ==> m.id != limitOf[n.id]) {
        ExpandedFrom(nodes[..k], limitOf, m);
      }
      AppendDistinct(before, if IsFusion(n) && n.id in limitOf then [Uncut(n), LimitNode(n, limitOf[n.id])] else [n]);
    }
  }

  /** Every edge joins two declared nodes, as the validator demands. */
  ghost predicate EdgesJoinNodes(g: Graph) {
    forall e :: e in g.edges ==> e.source in NodeIds(g.nodes) && e.target in NodeIds(g.nodes)
  }

  /** No original edge meets an inserted limit, whose id is fresh. */
  ghost predicate NoDanglingAt(edges: seq<Edge>, limitOf: map<string, string>) {
    forall e :: e in edges ==> e.source !in limitOf.Values && e.target !in limitOf.Values
  }

  lemma DeclaredEndsSuffice(g: Graph, limitOf: map<string, string>, h: Graph)
    requires Insertion(g, limitOf, h) && EdgesJoinNodes(g)
    ensures NoDanglingAt(g.edges, limitOf)
  {
  }

  lemma OnlyFusionsLimited(g: Graph, limitOf: map<string, string>, h: Graph, n: Node)
    requires Insertion(g, limitOf, h) && n in g.nodes
    ensures n.id in limitOf <==> IsFusion(n)
  {
    FusionsExact(g.nodes);
    if n.id in limitOf {
      assert n.id in Elements(Fusions(g.nodes));
      var m :| m in g.nodes && IsFusion(m) && m.id == n.id;
      var i :| 0 <= i < |g.nodes| && g.nodes[i] == m;
      var j :| 0 <= j < |g.nodes| && g.nodes[j] == n;
    } else {
      assert n.id !in Elements(Fusions(g.nodes));
    }
  }

  lemma InsertionIds(g: Graph, limitOf: map<string, string>, h: Graph)
    requires Insertion(g, limitOf, h)
    ensures NodeIds(h.nodes) == NodeIds(g.nodes) + limitOf.Values
  {
    forall id | id in NodeIds(h.nodes) ensures id in NodeIds(g.nodes) + limitOf.Values {
      var m :| m in h.nodes && m.id == id;
      ExpandedFrom(g.nodes, limitOf, m);
    }
    forall id | id in NodeIds(g.nodes) ensures id in NodeIds(h.nodes) {
      var n :| n in g.nodes && n.id == id;
      ExpandedHas(g.nodes, limitOf, n);
      assert Uncut(n) in h.nodes || n in h.nodes;
    }
    FusionsExact(g.nodes);
    forall f | f in limitOf ensures limitOf[f] in NodeIds(h.nodes) {
      assert f in Elements(Fusions(g.nodes));
      var n :| n in g.nodes && IsFusion(n) && n.id == f;
      ExpandedHas(g.nodes, limitOf, n);
      assert LimitNode(n, limitOf[f]) in h.nodes;
    }
  }

  /** A kept node is fed by edges afterwards exactly when it was before. */
  lemma FedAlike(g: Graph, limitOf: map<string, string>, h: Graph, n: Node)
    requires Insertion(g, limitOf, h) && n in g.nodes
    ensures (exists e :: e in g.edges && e.target == n.id) <==> exists e :: e in h.edges && e.target == n.id
  {
    hide Expanded, Fusions, FreshLimits, DistinctNodeIds;
    if e :| e in g.edges && e.target == n.id {
      var j :| 0 <= j < |g.edges| && g.edges[j] == e;
      assert h.edges[j] == Rewired(e, limitOf) && h.edges[j] in h.edges;
    }
    if e :| e in h.edges && e.target == n.id {
      var j :| 0 <= j < |h.edges| && h.edges[j] == e;
      if j >= |g.edges| {
        LimitEdgeAt(g, limitOf, h, j - |g.edges|);
        assert false;
      }
      assert e == Rewired(g.edges[j], limitOf) && g.edges[j] in g.edges;
    }
  }

  lemma LimitEdgeAt(g: Graph, limitOf: map<string, string>, h: Graph, k: nat)
    requires Insertion(g, limitOf, h) && k < |Fusions(g.nodes)|
    ensures IsLimitEdge(h.edges[|g.edges| + k], Fusions(g.nodes)[k], limitOf)
    ensures h.edges[|g.edges| + k].target !in NodeIds(g.nodes)
  {
  }

  /** Each limit ranks between its fusion node and what follows it. */
  ghost predicate LimitsBetween(rank: map<string, nat>, limitOf: map<string, string>, rank': map<string, nat>) {
    && rank'.Keys == rank.Keys + limitOf.Values
    && (forall id :: id in rank ==> rank'[id] == 2 * rank[id])
    && forall f :: f in limitOf && f in rank ==> rank'[limitOf[f]] == 2 * rank[f] + 1
  }

  lemma RanksBetween(nodes: seq<Node>, rank: map<string, nat>, limitOf: map<string, string>) returns (rank': map<string, nat>)
    requires rank.Keys == NodeIds(nodes) && FreshLimits(nodes, limitOf) && limitOf.Keys <= rank.Keys
    ensures LimitsBetween(rank, limitOf, rank')
  {
    rank' := map id | id in rank.Keys + limitOf.Values ::
               if id in rank then 2 * rank[id] else var f :| f in limitOf && limitOf[f] == id; 2 * rank[f] + 1;
  }

  lemma RewiredRanks(g: Graph, rank: map<string, nat>, limitOf: map<string, string>, rank': map<string, nat>, e: Edge)
    requires Ranked(g, rank) && limitOf.Keys <= rank.Keys && LimitsBetween(rank, limitOf, rank')
    requires NoDanglingAt(g.edges, limitOf) && e in g.edges
    ensures var r := Rewired(e, limitOf);
            r.source in rank' && r.target in rank' ==> rank'[r.source] < rank'[r.target]
  {
  }

  /** An edge of the result is an original one, rewired, or leads from a fusion node to its limit. */
  lemma EdgeOrigin(g: Graph, limitOf: map<string, string>, h: Graph, e: Edge)
    requires Insertion(g, limitOf, h) && e in h.edges
    ensures (exists e0 :: e0 in g.edges && e == Rewired(e0, limitOf)) || (e.source in limitOf && e.target == limitOf[e.source])
  {
    var j :| 0 <= j < |h.edges| && h.edges[j] == e;
    if j < |g.edges| {
      assert e == Rewired(g.edges[j], limitOf) && g.edges[j] in g.edges;
    } else {
      LimitEdgeAt(g, limitOf, h, j - |g.edges|);
    }
  }

  /** The definition stays acyclic, with distinct node ids, so it has exactly one outcome again. */
  lemma InsertionRanked(g: Graph, rank: map<string, nat>, limitOf: map<string, string>, h: Graph) returns (rank': map<string, nat>)
    requires Ranked(g, rank) && Insertion(g, limitOf, h) && NoDanglingAt(g.edges, limitOf)
    ensures Ranked(h, rank') && DistinctNodeIds(h.nodes)
  {
    ExpandedDistinct(g.nodes, limitOf);
    InsertionIds(g, limitOf, h);
    FusionIdsDeclared(g, limitOf, h);
    rank' := RanksBetween(g.nodes, rank, limitOf);
    forall e | e in h.edges && e.source in rank' && e.target in rank' ensures rank'[e.source] < rank'[e.target] {
      EdgeOrigin(g, limitOf, h, e);
      hide Insertion, NodeIds, NoDanglingAt, Expanded, Fusions;
      if e0 :| e0 in g.edges && e == Rewired(e0, limitOf) {
        RewiredRanks(g, rank, limitOf, rank', e0);
      } else {
        assert e.source in limitOf && e.target == limitOf[e.source];
      }
    }
  }

  /** What arrives at a kept node is unchanged if what its sources hold is, limits standing in for fusions. */
  lemma ArrivalsKept(g: Graph, limitOf: map<string, string>, h: Graph,
                     v: map<string, Outputs>, w: map<string, Outputs>, id: string)
    requires Insertion(g, limitOf, h) && id in NodeIds(g.nodes)
    requires forall e :: e in g.edges && e.target == id ==>
               var s := Limited(limitOf, e.source);
               (e.source in v <==> s in w) && (e.source in v ==> v[e.source] == w[s])
    ensures Deliveries(h.edges, w, id) == Deliveries(g.edges, v, id)
  {
    var moved, added := h.edges[..|g.edges|], h.edges[|g.edges|..];
    assert h.edges == moved + added;
    DeliveriesSplit(moved, added, w, id);
    forall e | e in added ensures e.target != id {
      var k :| 0 <= k < |added| && added[k] == e;
      LimitEdgeAt(g, limitOf, h, k);
    }
    NothingDelivered(added, w, id);
    RewiredDeliver(g.edges, moved, limitOf, v, w, id);
  }

  lemma {:induction false} FusionsDistinct(nodes: seq<Node>)
    requires DistinctNodeIds(nodes)
    ensures Distinct(Fusions(nodes))
  {
    if nodes != [] {
      var k := |nodes| - 1;
      FusionsDistinct(nodes[..k]);
      FusionsEarlier(nodes, k);
    }
  }

  lemma OtherTargets(g: Graph, limitOf: map<string, string>, h: Graph, k: nat, j: nat)
    requires Insertion(g, limitOf, h) && NoDanglingAt(g.edges, limitOf)
    requires k < |Fusions(g.nodes)| && j < |h.edges| && j != |g.edges| + k && Distinct(Fusions(g.nodes))
    ensures Fusions(g.nodes)[k] in limitOf && h.edges[j].target != limitOf[Fusions(g.nodes)[k]]
  {
    var f := Fusions(g.nodes)[k];
    assert f in Elements(Fusions(g.nodes));
    if j < |g.edges| {
      assert h.edges[j] == Rewired(g.edges[j], limitOf) && g.edges[j] in g.edges;
      assert limitOf[f] in limitOf.Values;
    } else {
      LimitEdgeAt(g, limitOf, h, j - |g.edges|);
    }
  }

  lemma FusionIndex(g: Graph, limitOf: map<string, string>, h: Graph, f: string) returns (k: nat)
    requires Insertion(g, limitOf, h) && f in limitOf
    ensures k < |Fusions(g.nodes)| && Fusions(g.nodes)[k] == f && Distinct(Fusions(g.nodes))
    ensures |h.edges| == |g.edges| + |Fusions(g.nodes)|
  {
    FusionsDistinct(g.nodes);
    assert f in Elements(Fusions(g.nodes));
    k :| 0 <= k < |Fusions(g.nodes)| && Fusions(g.nodes)[k] == f;
  }

  /** A limit receives what its fusion node emits on `results`, and nothing else. */
  lemma LimitArrivals(g: Graph, limitOf: map<string, string>, h: Graph, w: map<string, Outputs>, f: string)
    returns (e: Edge)
    requires Insertion(g, limitOf, h) && NoDanglingAt(g.edges, limitOf) && f in limitOf && f in w
    ensures e in h.edges && e.target == limitOf[f]
    ensures Deliveries(h.edges, w, limitOf[f]) ==
            if "results" in w[f] then [Arrival(e.id, "results", w[f]["results"])] else []
  {
    hide Insertion, NoDanglingAt, Deliveries, Fusions, Distinct;
    var k := FusionIndex(g, limitOf, h, f);
    LimitEdgeAt(g, limitOf, h, k);
    var at := |g.edges| + k;
    forall j | 0 <= j < |h.edges| && j != at ensures h.edges[j].target != limitOf[f] {
      OtherTargets(g, limitOf, h, k, j);
    }
    OneDelivery(h.edges, w, limitOf[f], at);
    e := h.edges[at];
  }

  lemma OutcomeAt(sem: Semantics, version: Version, g: Graph, values: map<string, Outputs>, n: Node)
    requires IsOutcome(sem, version, g, values) && n in g.nodes
    ensures n.id in values
    ensures values[n.id] == NodeOutput(sem, version, n, g.edges, Deliveries(g.edges, values, n.id))
  {
    assert Produces(sem, version, g, values, n);
  }

  /** A fusion node that no longer cuts, followed by its limit, holds what the cutting one held. */
  lemma FusionThenLimit(sem: Semantics, g: Graph, limitOf: map<string, string>, h: Graph,
                        v: map<string, Outputs>, w: map<string, Outputs>, n: Node)
    requires Insertion(g, limitOf, h) && NoDanglingAt(g.edges, limitOf) && n in g.nodes && IsFusion(n)
    requires IsOutcome(sem, TruncatingFusion, g, v) && IsOutcome(sem, PlainFusion, h, w)
    requires Deliveries(h.edges, w, n.id) == Deliveries(g.edges, v, n.id)
    ensures n.id in limitOf && limitOf[n.id] in w && w[limitOf[n.id]] == v[n.id]
  {
    OnlyFusionsLimited(g, limitOf, h, n);
    ExpandedHas(g.nodes, limitOf, n);
    assert h.nodes == Expanded(g.nodes, limitOf);
    hide Insertion, IsOutcome, NodeOutput, Deliveries, NodeIds, Expanded, NoDanglingAt, IsFusion;
    FedAlike(g, limitOf, h, n);
    var u, l := Uncut(n), LimitNode(n, limitOf[n.id]);
    assert u in h.nodes && l in h.nodes;
    OutcomeAt(sem, TruncatingFusion, g, v, n);
    OutcomeAt(sem, PlainFusion, h, w, u);
    OutcomeAt(sem, PlainFusion, h, w, l);
    var e := LimitArrivals(g, limitOf, h, w, n.id);
    FusedThenCut(sem, n, l.id, g.edges, h.edges, Deliveries(g.edges, v, n.id), Deliveries(h.edges, w, l.id), e);
  }

  lemma FusedThenCut(sem: Semantics, n: Node, limit: string, edges: seq<Edge>, edges': seq<Edge>,
                     arrivals: seq<Arrival>, reached: seq<Arrival>, e: Edge)
    requires IsFusion(n) && e in edges' && e.target == limit
    requires (exists e :: e in edges && e.target == n.id) <==> exists e :: e in edges' && e.target == n.id
    requires var emitted := NodeOutput(sem, PlainFusion, Uncut(n), edges', arrivals);
             reached == if "results" in emitted then [Arrival(e.id, "results", emitted["results"])] else []
    ensures NodeOutput(sem, PlainFusion, LimitNode(n, limit), edges', reached) ==
            NodeOutput(sem, TruncatingFusion, n, edges, arrivals)
  {
    LimitRuns(sem, n, limit, NodeOutput(sem, PlainFusion, Uncut(n), edges', arrivals), reached, e.id);
    assert IsFusion(Uncut(n));
  }

  lemma LimitRuns(sem: Semantics, n: Node, limit: string, emitted: Outputs, reached: seq<Arrival>, edge: string)
    requires reached == if "results" in emitted then [Arrival(edge, "results", emitted["results"])] else []
    ensures "results" in emitted && emitted["results"].Results? ==>
              RunNode(sem, PlainFusion, LimitNode(n, limit), reached) ==
              map["results" := Results(CutMatches(sem, n.config.topK, emitted["results"].matches), emitted["results"].usage)]
  {
    assert !IsFusion(LimitNode(n, limit)) by {
      assert LIMIT_TYPE[0] != FUSION_PREFIX[0];
    }
  }

  lemma OtherNodesKeep(sem: Semantics, g: Graph, limitOf: map<string, string>, h: Graph,
                       v: map<string, Outputs>, w: map<string, Outputs>, n: Node)
    requires Insertion(g, limitOf, h) && n in g.nodes && !IsFusion(n)
    requires IsOutcome(sem, TruncatingFusion, g, v) && IsOutcome(sem, PlainFusion, h, w)
    requires Deliveries(h.edges, w, n.id) == Deliveries(g.edges, v, n.id)
    ensures n.id in w && w[n.id] == v[n.id]
  {
    ExpandedHas(g.nodes, limitOf, n);
    FedAlike(g, limitOf, h, n);
    OutcomeAt(sem, TruncatingFusion, g, v, n);
    OutcomeAt(sem, PlainFusion, h, w, n);
  }

  /**
   * The insertion preserves the meaning of an acyclic definition: every original node
   * receives what it received, and where a truncating fusion stood, its limit now
   * holds the same results.
   */
  lemma {:induction false} InsertionPreserves(sem: Semantics, g: Graph, rank: map<string, nat>, limitOf: map<string, string>, h: Graph,
                                              v: map<string, Outputs>, w: map<string, Outputs>, n: Node)
    requires Ranked(g, rank) && Insertion(g, limitOf, h) && NoDanglingAt(g.edges, limitOf) && n in g.nodes
    requires IsOutcome(sem, TruncatingFusion, g, v) && IsOutcome(sem, PlainFusion, h, w)
    ensures Deliveries(h.edges, w, n.id) == Deliveries(g.edges, v, n.id)
    ensures var s := Limited(limitOf, n.id); s in w && w[s] == v[n.id]
    ensures n.id in limitOf <==> IsFusion(n)
    decreases rank[n.id]
  {
    OnlyFusionsLimited(g, limitOf, h, n);
    forall e | e in g.edges && e.target == n.id
      ensures var s := Limited(limitOf, e.source);
              (e.source in v <==> s in w) && (e.source in v ==> v[e.source] == w[s])
    {
      hide Insertion, NodeOutput, Deliveries;
      if e.source in NodeIds(g.nodes) {
        InsertionPreserves(sem, g, rank, limitOf, h, v, w, NodeWith(g.nodes, e.source));
      } else {
        InsertionIds(g, limitOf, h);
        FusionIdsDeclared(g, limitOf, h);
      }
    }
    ArrivalsKept(g, limitOf, h, v, w, n.id);
    if IsFusion(n) {
      FusionThenLimit(sem, g, limitOf, h, v, w, n);
    } else {
      OtherNodesKeep(sem, g, limitOf, h, v, w, n);
    }
  }

  lemma FusionIdsDeclared(g: Graph, limitOf: map<string, string>, h: Graph)
    requires Insertion(g, limitOf, h)
    ensures limitOf.Keys <= NodeIds(g.nodes)
  {
    FusionsExact(g.nodes);
    forall f | f in limitOf.Keys ensures f in NodeIds(g.nodes) {
      assert f in Elements(Fusions(g.nodes));
    }
  }

  lemma RankBound(rank: map<string, nat>) returns (k: nat)
    ensures forall id :: id in rank ==> rank[id] <= k
  {
    k := 0;
    var todo := rank.Keys;
    while todo != {}
      invariant todo <= rank.Keys && forall id :: id in rank ==> id in todo || rank[id] <= k
      decreases todo
    {
      var id :| id in todo;
      k, todo := if rank[id] > k then rank[id] else k, todo - {id};
    }
  }

  lemma StillJoined(g: Graph, limitOf: map<string, string>, h: Graph)
    requires Insertion(g, limitOf, h) && EdgesJoinNodes(g)
    ensures EdgesJoinNodes(h)
  {
    hide Expanded, RewiredEdges, NodeIds;
    InsertionIds(g, limitOf, h);
    FusionIdsDeclared(g, limitOf, h);
    forall e | e in h.edges ensures e.source in NodeIds(h.nodes) && e.target in NodeIds(h.nodes) {
      EdgeOrigin(g, limitOf, h, e);
    }
  }

  /** A ranked definition has exactly one outcome. */
  lemma TheOutcome(sem: Semantics, version: Version, g: Graph, rank: map<string, nat>) returns (v: map<string, Outputs>)
    requires Ranked(g, rank) && DistinctNodeIds(g.nodes)
    ensures IsOutcome(sem, version, g, v)
    ensures forall u {:trigger IsOutcome(sem, version, g, u)} :: IsOutcome(sem, version, g, u) ==> u == v
  {
    hide Rounds, Ranked, Produces, DistinctNodeIds;
    var k := RankBound(rank);
    OutcomeExists(sem, version, g, rank, k);
    v := Rounds(sem, version, g, k + 1);
    forall u {:trigger IsOutcome(sem, version, g, u)} | IsOutcome(sem, version, g, u) ensures u == v {
      forall id | id in NodeIds(g.nodes) ensures u[id] == v[id] {
        OutcomeUnique(sem, version, g, rank, u, v, NodeWith(g.nodes, id));
      }
    }
  }

  /** Every original node receives what it received, and what came out of it comes out behind it. */
  ghost predicate SameAt(g: Graph, limitOf: map<string, string>, h: Graph,
                         v: map<string, Outputs>, w: map<string, Outputs>, n: Node)
  {
    && Deliveries(h.edges, w, n.id) == Deliveries(g.edges, v, n.id)
    && Limited(limitOf, n.id) in w && n.id in v && w[Limited(limitOf, n.id)] == v[n.id]
  }

  /**
   * A definition that the validator accepts keeps distinct ids, joined edges and no cycle.
   * Before and after the insertion its run has exactly one outcome, and the two outcomes
   * agree at every original node.
   */
  lemma MeaningPreserved(sem: Semantics, g: Graph, limitOf: map<string, string>, h: Graph)
    returns (v: map<string, Outputs>, w: map<string, Outputs>)
    requires Acyclic(g) && EdgesJoinNodes(g) && Insertion(g, limitOf, h)
    ensures Acyclic(h) && EdgesJoinNodes(h) && DistinctNodeIds(h.nodes)
    ensures IsOutcome(sem, TruncatingFusion, g, v) && IsOutcome(sem, PlainFusion, h, w)
    ensures forall u {:trigger IsOutcome(sem, TruncatingFusion, g, u)} :: IsOutcome(sem, TruncatingFusion, g, u) ==> u == v
    ensures forall u {:trigger IsOutcome(sem, PlainFusion, h, u)} :: IsOutcome(sem, PlainFusion, h, u) ==> u == w
    ensures forall n {:trigger SameAt(g, limitOf, h, v, w, n)} :: n in g.nodes ==> SameAt(g, limitOf, h, v, w, n)
  {
    hide IsOutcome, Ranked, NoDanglingAt, EdgesJoinNodes, Deliveries, Acyclic, Expanded, RewiredEdges;
    DeclaredEndsSuffice(g, limitOf, h);
    var rank := AcyclicRanked(g);
    var rank' := InsertionRanked(g, rank, limitOf, h);
    RankedAcyclic(h, rank');
    StillJoined(g, limitOf, h);
    v := TheOutcome(sem, TruncatingFusion, g, rank);
    w := TheOutcome(sem, PlainFusion, h, rank');
    forall n | n in g.nodes ensures SameAt(g, limitOf, h, v, w, n) {
      OutcomeAt(sem, TruncatingFusion, g, v, n);
      InsertionPreserves(sem, g, rank, limitOf, h, v, w, n);
    }
  }
}
