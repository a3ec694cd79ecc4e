/** The depth-first cycle test of pipeline validation (app/pipelines/validation.py, `_has_cycle`). */
module CycleCheck {
  import opened Collections
  import opened Graphs

  type Adjacency = map<string, seq<string>>

  function Arcs(adjacency: Adjacency): set<(string, string)> {
    set u, v | u in adjacency && v in adjacency[u] :: (u, v)
  }

  function Universe(adjacency: Adjacency): set<string> {
    adjacency.Keys + (set u, v | u in adjacency && v in adjacency[u] :: v)
  }

  /**
   * The two sets of the search. `path` is the walk from the start to the current node and
   * `finished` lists the visited nodes in the order in which they were left.
   */
  class Search {
    const adjacency: Adjacency
    var visiting: set<string>
    var visited: set<string>
    ghost var path: seq<string>
    ghost var finished: seq<string>

    ghost predicate Valid()
      reads this
    {
      && visiting == Elements(path) && Distinct(path) && (path == [] || IsWalk(Arcs(adjacency), path))
      && visited == Elements(finished) && Distinct(finished) && DependenciesFirst(Arcs(adjacency), finished)
      && visiting !! visited && visiting + visited <= Universe(adjacency)
    }

    constructor (adjacency: Adjacency)
      ensures Valid() && this.adjacency == adjacency && path == [] && finished == []
    {
      this.adjacency := adjacency;
      visiting, visited, path, finished := {}, {}, [], [];
    }

    /** `dfs`: true when a cycle is met; otherwise the node and all it leads to have been left for good. */
    method Dfs(node: string) returns (found: bool)
      requires Valid() && node in Universe(adjacency)
      requires path != [] ==> (path[|path| - 1], node) in Arcs(adjacency)
      modifies this
      ensures found ==> Cyclic(Arcs(adjacency))
      ensures !found ==> Valid() && path == old(path) && node in visited && old(visited) <= visited
      decreases Universe(adjacency) - visiting - visited
    {
      if node in visiting {
        ClosesCycle(Arcs(adjacency), path, node);
        return true;
      }
      if node in visited {
        return false;
      }
      ghost var before := path;
      Enter(node);
      var neighbors := if node in adjacency then adjacency[node] else [];
      for i := 0 to |neighbors|
        invariant Valid() && path == before + [node] && visiting == old(visiting) + {node} && old(visited) <= visited
        invariant forall j :: 0 <= j < i ==> neighbors[j] in visited
      {
        assert (node, neighbors[i]) in Arcs(adjacency);
        assert node in Universe(adjacency) - old(visiting) - old(visited);
        assert Universe(adjacency) - visiting - visited < Universe(adjacency) - old(visiting) - old(visited);
        var deeper := Dfs(neighbors[i]);
        if deeper {
          return true;
        }
      }
      Leave(node);
      return false;
    }

    method Enter(node: string)
      requires Valid() && node in Universe(adjacency) && node !in visiting && node !in visited
      requires path != [] ==> (path[|path| - 1], node) in Arcs(adjacency)
      modifies this`visiting, this`path
      ensures Valid() && path == old(path) + [node] && visiting == old(visiting) + {node}
    {
      visiting := visiting + {node};
      path := path + [node];
      assert path[|path| - 1] == node;
    }

    method Leave(node: string)
      requires Valid() && path != [] && path[|path| - 1] == node
      requires node in adjacency ==> forall v :: v in adjacency[node] ==> v in visited
      modifies this
      ensures Valid() && path == old(path)[..|old(path)| - 1] && visited == old(visited) + {node}
    {
      hide IsWalk, DependenciesFirst;
      assert node in visiting;
      visiting := visiting - {node};
      visited := visited + {node};
      ShorterPath(Arcs(adjacency), path);
      path := path[..|path| - 1];
      assert forall y :: (node, y) in Arcs(adjacency) ==> y in Elements(finished);
      AppendOrdered(Arcs(adjacency), finished, node);
      DistinctMore(finished, node);
      finished := finished + [node];
    }
  }

  lemma ShorterPath(r: set<(string, string)>, path: seq<string>)
    requires path != [] && Distinct(path) && IsWalk(r, path)
    ensures var rest := path[..|path| - 1];
            Distinct(rest) && Elements(rest) == Elements(path) - {path[|path| - 1]} && (rest == [] || IsWalk(r, rest))
  {
    var rest := path[..|path| - 1];
    assert path == rest + [path[|path| - 1]];
  }

  lemma ClosesCycle(r: set<(string, string)>, path: seq<string>, node: string)
    requires IsWalk(r, path) && (path[|path| - 1], node) in r && node in path
    ensures Cyclic(r)
  {
    var k :| 0 <= k < |path| && path[k] == node;
    WalkSlice(r, path, k, |path| - 1);
    var loop := path[k..|path| - 1 + 1] + [node];
    assert IsClosedWalk(r, loop);
  }

  function Targets(edges: seq<Edge>, source: string): seq<string> {
    if edges == [] then []
    else
      var before := Targets(edges[..|edges| - 1], source);
      if edges[|edges| - 1].source == source then before + [edges[|edges| - 1].target] else before
  }

  lemma {:induction false} TargetsExact(edges: seq<Edge>, source: string, v: string)
    ensures v in Targets(edges, source) <==> exists e :: e in edges && e.source == source && e.target == v
  {
    if edges != [] {
      var n := |edges| - 1;
      assert edges == edges[..n] + [edges[n]];
      TargetsExact(edges[..n], source, v);
    }
  }

  /** The adjacency lists: every declared node, with the targets of its edges in order. */
  method BuildAdjacency(nodes: seq<string>, edges: seq<Edge>) returns (adjacency: Adjacency)
    ensures adjacency.Keys == Elements(nodes)
    ensures Arcs(adjacency) == Links(nodes, edges)
  {
    adjacency := map x | x in nodes :: [];
    for i := 0 to |edges|
      invariant adjacency.Keys == Elements(nodes)
      invariant forall u :: u in adjacency ==> adjacency[u] == Targets(edges[..i], u)
    {
      assert edges[..i + 1][..i] == edges[..i];
      var e := edges[i];
      if e.source in adjacency {
        adjacency := adjacency[e.source := adjacency[e.source] + [e.target]];
      }
    }
    assert edges[..|edges|] == edges;
    forall u, v ensures (u, v) in Arcs(adjacency) <==> (u, v) in Links(nodes, edges) {
      TargetsExact(edges, u, v);
      if (u, v) in Links(nodes, edges) {
        var e :| e in edges && e.source in nodes && (e.source, e.target) == (u, v);
      }
    }
  }

  /**
   * `_has_cycle`: true exactly when some walk along edges with declared sources comes back to
   * its start. When it is false, `order` is an order of all nodes with successors first.
   */
  method HasCycle(nodes: seq<string>, edges: seq<Edge>) returns (found: bool, ghost order: seq<string>)
    ensures found <==> Cyclic(Links(nodes, edges))
    ensures !found ==> Distinct(order) && Elements(nodes) <= Elements(order) && DependenciesFirst(Links(nodes, edges), order)
  {
    var adjacency := BuildAdjacency(nodes, edges);
    var search := new Search(adjacency);
    order := [];
    for i := 0 to |nodes|
      invariant search.Valid() && search.path == [] && search.adjacency == adjacency
      invariant forall j :: 0 <= j < i ==> nodes[j] in search.visited
    {
      assert nodes[i] in Elements(nodes);
      found := search.Dfs(nodes[i]);
      if found {
        return;
      }
    }
    order := search.finished;
    forall w | IsClosedWalk(Arcs(adjacency), w) ensures false {
      assert (w[0], w[1]) in Arcs(adjacency);
      OrderedIsAcyclic(Arcs(adjacency), order, w);
    }
    found := false;
  }

  /** Edges with an unknown end never change the answer. */
  lemma UnknownEndsIrrelevant(nodes: seq<string>, edges: seq<Edge>, known: seq<Edge>)
    requires forall e :: e in known <==> e in edges && e.source in nodes && e.target in nodes
    ensures Cyclic(Links(nodes, edges)) <==> Cyclic(Links(nodes, known))
  {
    var r, s := Links(nodes, edges), Links(nodes, known);
    if w :| IsClosedWalk(r, w) {
      forall i | 0 <= i < |w| - 1 ensures (w[i], w[i + 1]) in s {
        assert (w[i], w[i + 1]) in r;
        assert (if i + 1 < |w| - 1 then (w[i + 1], w[i + 2]) else (w[0], w[1])) in r;
        var e :| e in edges && e.source in nodes && (e.source, e.target) == (w[i], w[i + 1]);
        assert e in known;
      }
      assert IsClosedWalk(s, w);
    }
    if w :| IsClosedWalk(s, w) {
      forall i | 0 <= i < |w| - 1 ensures (w[i], w[i + 1]) in r {
        assert (w[i], w[i + 1]) in s;
      }
      assert IsClosedWalk(r, w);
    }
  }
}
