/**
 * The file tree of a collection as a parent-pointer forest (app/db/models/files.py):
 * chains of parents, subtrees, and what adding, moving and removing nodes keeps.
 */
module FileTrees {
  import opened Wrappers
  import opened Collections
  import opened FileNames

  type Id = nat

  datatype Kind = Folder | File

  /** `bytes` are the stored bytes of a file; `None` when it has no storage path or nothing is stored there. */
  datatype Node = Node(collection: Id, parent: Option<Id>, kind: Kind, name: string,
                       contentType: Option<string>, bytes: Option<string>)

  type Nodes = map<Id, Node>

  // ---- chains of parents ------------------------------------------------------------------------

  /** `c` leads from `id` over its parents to a node at the root of its collection. */
  ghost predicate ChainOf(nodes: Nodes, id: Id, c: seq<Id>)
    decreases |c|
  {
    && c != [] && c[0] == id && id in nodes
    && match nodes[id].parent
       case None => |c| == 1
       case Some(p) => ChainOf(nodes, p, c[1..])
  }

  ghost predicate Rooted(nodes: Nodes, id: Id) {
    exists c :: ChainOf(nodes, id, c)
  }

  ghost function Chain(nodes: Nodes, id: Id): (c: seq<Id>)
    requires Rooted(nodes, id)
    ensures ChainOf(nodes, id, c)
  {
    var c :| ChainOf(nodes, id, c);
    c
  }

  lemma {:induction false} ChainUnique(nodes: Nodes, id: Id, c: seq<Id>, d: seq<Id>)
    requires ChainOf(nodes, id, c) && ChainOf(nodes, id, d)
    ensures c == d
    decreases |c|
  {
    if nodes[id].parent.Some? {
      ChainUnique(nodes, nodes[id].parent.value, c[1..], d[1..]);
      assert c == [c[0]] + c[1..] && d == [d[0]] + d[1..];
    }
  }

  lemma {:induction false} ChainFrom(nodes: Nodes, id: Id, c: seq<Id>, i: nat)
    requires ChainOf(nodes, id, c) && i < |c|
    ensures ChainOf(nodes, c[i], c[i..])
    decreases i
  {
    if i > 0 {
      ChainFrom(nodes, nodes[id].parent.value, c[1..], i - 1);
      assert c[1..][i - 1..] == c[i..];
    }
  }

  /** Chains are finite because they never repeat a node, hence no longer than the table. */
  lemma ChainDistinct(nodes: Nodes, id: Id, c: seq<Id>)
    requires ChainOf(nodes, id, c)
    ensures Distinct(c) && (forall x :: x in c ==> x in nodes) && |c| <= |nodes.Keys|
  {
    forall i | 0 <= i < |c| ensures c[i] in nodes {
      ChainFrom(nodes, id, c, i);
    }
    forall i, j | 0 <= i < j < |c| ensures c[i] != c[j] {
      ChainFrom(nodes, id, c, i);
      ChainFrom(nodes, id, c, j);
      if c[i] == c[j] {
        ChainUnique(nodes, c[i], c[i..], c[j..]);
      }
    }
    DistinctFits(c, nodes.Keys);
  }

  lemma ChainStep(nodes: Nodes, id: Id)
    requires Rooted(nodes, id)
    ensures match nodes[id].parent
            case None => Chain(nodes, id) == [id]
            case Some(p) => Rooted(nodes, p) && Chain(nodes, id) == [id] + Chain(nodes, p)
  {
    var c := Chain(nodes, id);
    if nodes[id].parent.Some? {
      var p := nodes[id].parent.value;
      assert ChainOf(nodes, p, c[1..]);
      ChainUnique(nodes, p, c[1..], Chain(nodes, p));
      assert c == [c[0]] + c[1..];
    }
  }

  lemma ChainIs(nodes: Nodes, id: Id, c: seq<Id>)
    requires ChainOf(nodes, id, c)
    ensures Rooted(nodes, id) && Chain(nodes, id) == c
  {
    ChainUnique(nodes, id, c, Chain(nodes, id));
  }

  /** A chain survives every change that keeps the parents of its nodes. */
  lemma {:induction false} ChainCarries(before: Nodes, now: Nodes, id: Id, c: seq<Id>)
    requires ChainOf(before, id, c)
    requires forall x :: x in c ==> x in before && x in now && now[x].parent == before[x].parent
    ensures ChainOf(now, id, c)
    decreases |c|
  {
    if before[id].parent.Some? {
      ChainCarries(before, now, before[id].parent.value, c[1..]);
    }
  }

  ghost predicate SameChain(before: Nodes, now: Nodes, id: Id) {
    Rooted(before, id) && Rooted(now, id) && Chain(now, id) == Chain(before, id)
  }

  lemma ChainStays(before: Nodes, now: Nodes, id: Id)
    requires Rooted(before, id)
    requires forall x :: x in Chain(before, id) ==> x in now && x in before && now[x].parent == before[x].parent
    ensures SameChain(before, now, id)
  {
    ChainCarries(before, now, id, Chain(before, id));
    ChainIs(now, id, Chain(before, id));
  }

  // ---- subtrees -----------------------------------------------------------------------------------

  /** The node and everything below it: the nodes whose chain passes through it. */
  ghost predicate Below(nodes: Nodes, root: Id, id: Id) {
    Rooted(nodes, id) && root in Chain(nodes, id)
  }

  ghost function Subtree(nodes: Nodes, root: Id): set<Id> {
    set id | id in nodes && Below(nodes, root, id)
  }

  /** The children of a folder, or the nodes at the root of a collection. */
  function Children(nodes: Nodes, collection: Id, parent: Option<Id>): set<Id> {
    set id | id in nodes && nodes[id].collection == collection && nodes[id].parent == parent
  }

  function NamesIn(nodes: Nodes, collection: Id, parent: Option<Id>): set<string> {
    set id | id in Children(nodes, collection, parent) :: nodes[id].name
  }

  lemma BelowStep(nodes: Nodes, root: Id, id: Id)
    requires Rooted(nodes, id)
    ensures Below(nodes, root, id) <==> id == root || (nodes[id].parent.Some? && Below(nodes, root, nodes[id].parent.value))
  {
    ChainStep(nodes, id);
  }

  /** What is below one of two different children of a folder is not below the other. */
  lemma SubtreesApart(nodes: Nodes, a: Id, b: Id, id: Id)
    requires Below(nodes, a, id) && Below(nodes, b, id) && a != b
    ensures a in nodes && b in nodes && (nodes[a].parent.Some? || nodes[b].parent.Some?)
    ensures nodes[a].parent != nodes[b].parent
  {
    var c := Chain(nodes, id);
    ChainDistinct(nodes, id, c);
    var i :| 0 <= i < |c| && c[i] == a;
    var j :| 0 <= j < |c| && c[j] == b;
    if i < j {
      ParentOnChain(nodes, id, c, i);
    } else {
      ParentOnChain(nodes, id, c, j);
    }
    if nodes[a].parent == nodes[b].parent {
      SameParentSamePlace(nodes, id, c, i, j);
    }
  }

  lemma ParentOnChain(nodes: Nodes, id: Id, c: seq<Id>, i: nat)
    requires ChainOf(nodes, id, c) && i < |c|
    ensures c[i] in nodes && nodes[c[i]].parent == if i + 1 < |c| then Some(c[i + 1]) else None
  {
    ChainFrom(nodes, id, c, i);
    if i + 1 < |c| {
      ChainFrom(nodes, id, c, i + 1);
      assert c[i..][1..][0] == c[i + 1];
    }
  }

  lemma SameParentSamePlace(nodes: Nodes, id: Id, c: seq<Id>, i: nat, j: nat)
    requires ChainOf(nodes, id, c) && i < |c| && j < |c|
    requires c[i] in nodes && c[j] in nodes && nodes[c[i]].parent == nodes[c[j]].parent
    ensures i == j
  {
    ParentOnChain(nodes, id, c, i);
    ParentOnChain(nodes, id, c, j);
    ChainDistinct(nodes, id, c);
  }

  lemma BelowParentToo(nodes: Nodes, parent: Id, child: Id, x: Id)
    requires Below(nodes, child, x) && child in nodes && nodes[child].parent == Some(parent)
    ensures Below(nodes, parent, x)
  {
    var c := Chain(nodes, x);
    var i :| 0 <= i < |c| && c[i] == child;
    ParentOnChain(nodes, x, c, i);
  }

  /** What is below a node, the node apart, is below one of its children. */
  lemma BelowAChild(nodes: Nodes, parent: Id, x: Id) returns (child: Id)
    requires Below(nodes, parent, x) && x != parent
    ensures child in nodes && nodes[child].parent == Some(parent) && Below(nodes, child, x)
  {
    var c := Chain(nodes, x);
    var i :| 0 <= i < |c| && c[i] == parent;
    ParentOnChain(nodes, x, c, i - 1);
    child := c[i - 1];
  }

  // ---- the forest invariant -------------------------------------------------------------------------

  ghost predicate IsFolderOf(nodes: Nodes, collection: Id, parent: Option<Id>) {
    parent.Some? ==> parent.value in nodes && nodes[parent.value].kind.Folder? && nodes[parent.value].collection == collection
  }

  ghost predicate Placed(nodes: Nodes, id: Id)
    requires id in nodes
  {
    IsFolderOf(nodes, nodes[id].collection, nodes[id].parent) && Rooted(nodes, id) && PathSafe(nodes[id].name)
  }

  predicate Clash(m: Node, n: Node) {
    m.collection == n.collection && m.parent == n.parent && m.name == n.name
  }

  /** Parents are folders of the same collection, chains are finite, and sibling names are unique. */
  ghost predicate Forest(nodes: Nodes) {
    && (forall id {:trigger Placed(nodes, id)} :: id in nodes ==> Placed(nodes, id))
    && forall a, b :: a in nodes && b in nodes && Clash(nodes[a], nodes[b]) ==> a == b
  }

  lemma InForest(nodes: Nodes, id: Id)
    requires Forest(nodes) && id in nodes
    ensures IsFolderOf(nodes, nodes[id].collection, nodes[id].parent) && Rooted(nodes, id) && PathSafe(nodes[id].name)
  {
    assert Placed(nodes, id);
  }

  lemma Added(nodes: Nodes, id: Id, n: Node)
    requires Forest(nodes) && id !in nodes && IsFolderOf(nodes, n.collection, n.parent) && PathSafe(n.name)
    requires n.name !in NamesIn(nodes, n.collection, n.parent)
    ensures Forest(nodes[id := n])
    ensures forall x :: x in nodes ==> SameChain(nodes, nodes[id := n], x)
    ensures Rooted(nodes[id := n], id) && (n.parent.Some? ==> Rooted(nodes, n.parent.value))
    ensures Chain(nodes[id := n], id) == [id] + if n.parent.Some? then Chain(nodes, n.parent.value) else []
  {
    var now := nodes[id := n];
    forall x | x in nodes ensures Placed(now, x) && SameChain(nodes, now, x) {
      assert Placed(nodes, x);
      ChainDistinct(nodes, x, Chain(nodes, x));
      ChainStays(nodes, now, x);
    }
    var c := [id] + if n.parent.Some? then Chain(now, n.parent.value) else [];
    assert c[1..] == if n.parent.Some? then Chain(now, n.parent.value) else [];
    assert ChainOf(now, id, c);
    ChainIs(now, id, c);
    forall a, b | a in now && b in now && Clash(now[a], now[b]) ensures a == b {
      AddedApart(nodes, id, n, a, b);
    }
  }

  lemma AddedApart(nodes: Nodes, id: Id, n: Node, a: Id, b: Id)
    requires Forest(nodes) && id !in nodes && n.name !in NamesIn(nodes, n.collection, n.parent)
    requires var now := nodes[id := n]; a in now && b in now && Clash(now[a], now[b])
    ensures a == b
  {
    var taken := NamesIn(nodes, n.collection, n.parent);
    forall x | x in Children(nodes, n.collection, n.parent) ensures nodes[x].name in taken {
    }
  }

  /**
   * A new node keeps the forest exactly when its parent is a folder of its collection, its
   * name can stand in a path, and no sibling has the name.
   */
  lemma AddedExactly(nodes: Nodes, id: Id, n: Node)
    requires Forest(nodes) && id !in nodes
    ensures Forest(nodes[id := n]) <==>
              && IsFolderOf(nodes, n.collection, n.parent) && PathSafe(n.name)
              && n.name !in NamesIn(nodes, n.collection, n.parent)
  {
    var now := nodes[id := n];
    if Forest(now) {
      InForest(now, id);
      ChainStep(now, id);
      forall x | x in Children(nodes, n.collection, n.parent) ensures nodes[x].name != n.name {
        assert Clash(now[x], now[id]) ==> x == id;
      }
    } else if IsFolderOf(nodes, n.collection, n.parent) && PathSafe(n.name) && n.name !in NamesIn(nodes, n.collection, n.parent) {
      Added(nodes, id, n);
    }
  }

  /** A node is moved, together with what is below it, to a folder that is not below it. */
  lemma Moved(nodes: Nodes, id: Id, n: Node)
    requires Forest(nodes) && id in nodes && n.collection == nodes[id].collection && n.kind == nodes[id].kind
    requires IsFolderOf(nodes, n.collection, n.parent) && PathSafe(n.name)
    requires n.parent.Some? ==> !Below(nodes, id, n.parent.value)
    requires forall b :: b in nodes && Clash(n, nodes[b]) ==> b == id
    ensures Forest(nodes[id := n])
    ensures forall x :: x in nodes && !Below(nodes, id, x) ==> SameChain(nodes, nodes[id := n], x)
  {
    var now := nodes[id := n];
    forall x | x in nodes && !Below(nodes, id, x) ensures SameChain(nodes, now, x) {
      assert Placed(nodes, x);
      ChainDistinct(nodes, x, Chain(nodes, x));
      ChainStays(nodes, now, x);
    }
    forall x | x in nodes ensures Placed(now, x) {
      assert Placed(nodes, x);
      MovedRooted(nodes, id, n, x, Chain(nodes, x));
      assert IsFolderOf(nodes, nodes[x].collection, nodes[x].parent);
    }
  }

  lemma {:induction false} MovedRooted(nodes: Nodes, id: Id, n: Node, x: Id, c: seq<Id>)
    requires n.parent.Some? ==> Rooted(nodes, n.parent.value)
    requires n.parent.Some? ==> n.parent.value in nodes && !Below(nodes, id, n.parent.value)
    requires id in nodes && ChainOf(nodes, x, c)
    ensures Rooted(nodes[id := n], x)
    decreases |c|
  {
    var now := nodes[id := n];
    if x == id {
      var d := [id];
      if n.parent.Some? {
        var p := n.parent.value;
        ChainDistinct(nodes, p, Chain(nodes, p));
        ChainStays(nodes, now, p);
        d := [id] + Chain(now, p);
        assert d[1..] == Chain(now, p);
      }
      assert ChainOf(now, id, d);
    } else if nodes[x].parent.Some? {
      var p := nodes[x].parent.value;
      MovedRooted(nodes, id, n, p, c[1..]);
      var d := [x] + Chain(now, p);
      assert d[1..] == Chain(now, p);
      assert ChainOf(now, x, d);
    } else {
      assert ChainOf(now, x, c);
    }
  }

  /** A set of nodes that holds the children of its members can be removed. */
  lemma Removed(nodes: Nodes, doomed: set<Id>)
    requires Forest(nodes)
    requires forall x :: x in nodes && x !in doomed && nodes[x].parent.Some? ==> nodes[x].parent.value !in doomed
    ensures Forest(nodes - doomed)
  {
    var now := nodes - doomed;
    forall x | x in now ensures Placed(now, x) {
      assert Placed(nodes, x);
      RemovedRooted(nodes, doomed, x, Chain(nodes, x));
    }
  }

  lemma {:induction false} RemovedRooted(nodes: Nodes, doomed: set<Id>, x: Id, c: seq<Id>)
    requires forall x :: x in nodes && x !in doomed && nodes[x].parent.Some? ==> nodes[x].parent.value !in doomed
    requires ChainOf(nodes, x, c) && x !in doomed
    ensures ChainOf(nodes - doomed, x, c)
    decreases |c|
  {
    if nodes[x].parent.Some? {
      RemovedRooted(nodes, doomed, nodes[x].parent.value, c[1..]);
    }
  }

  lemma BelowParent(nodes: Nodes, id: Id)
    requires Forest(nodes) && id in nodes && Placed(nodes, id)
    ensures nodes[id].parent.Some? ==> !Below(nodes, id, nodes[id].parent.value)
  {
    ChainStep(nodes, id);
    ChainDistinct(nodes, id, Chain(nodes, id));
    if nodes[id].parent.Some? {
      var c := Chain(nodes, nodes[id].parent.value);
      assert forall k :: 0 <= k < |c| ==> Chain(nodes, id)[k + 1] == c[k];
    }
  }

  // ---- subtrees by children ---------------------------------------------------------------------------

  /** The subtrees of the first `i` children. */
  ghost function Covered(nodes: Nodes, kids: seq<Id>, i: nat): set<Id>
    requires i <= |kids|
  {
    if i == 0 then {} else Covered(nodes, kids, i - 1) + Subtree(nodes, kids[i - 1])
  }

  /** A file is alone in its subtree. */
  lemma FileAlone(nodes: Nodes, source: Id)
    requires Forest(nodes) && source in nodes && nodes[source].kind.File? && Placed(nodes, source)
    ensures Subtree(nodes, source) == {source}
  {
    forall x | x in Subtree(nodes, source) ensures x == source {
      if x != source {
        var child := BelowAChild(nodes, source, x);
        InForest(nodes, child);
        assert false;
      }
    }
  }

  lemma ChildOf(nodes: Nodes, root: Id, source: Id, kid: Id)
    requires Forest(nodes) && kid in nodes && nodes[kid].parent == Some(source) && source in Subtree(nodes, root)
    ensures kid in Subtree(nodes, root) && Rooted(nodes, source) && Rooted(nodes, kid) && PathSafe(nodes[kid].name)
    ensures nodes[kid].collection == nodes[source].collection && |Chain(nodes, kid)| == |Chain(nodes, source)| + 1
    ensures |Chain(nodes, kid)| <= |nodes.Keys| && source !in Subtree(nodes, kid)
  {
    assert Placed(nodes, kid);
    ChainStep(nodes, kid);
    BelowStep(nodes, root, kid);
    BelowParent(nodes, kid);
    ChainDistinct(nodes, kid, Chain(nodes, kid));
  }

  lemma {:induction false} CoveredBy(nodes: Nodes, kids: seq<Id>, i: nat, x: Id)
    requires i <= |kids|
    ensures x in Covered(nodes, kids, i) <==> exists j :: 0 <= j < i && x in Subtree(nodes, kids[j])
  {
    if i > 0 {
      CoveredBy(nodes, kids, i - 1, x);
    }
  }

  /** The subtrees of different children do not meet, and leave the parent out. */
  lemma KidApart(nodes: Nodes, source: Id, kids: seq<Id>, i: nat)
    requires Forest(nodes) && i < |kids| && Distinct(kids) && source in nodes
    requires forall k :: k in kids ==> k in nodes && nodes[k].parent == Some(source)
    requires Placed(nodes, source)
    ensures Subtree(nodes, kids[i]) !! {source} + Covered(nodes, kids, i)
    ensures kids[i] !in {source} + Covered(nodes, kids, i) && Rooted(nodes, kids[i])
  {
    var kid := kids[i];
    assert kid in kids && Placed(nodes, kid);
    BelowParent(nodes, kid);
    forall x | x in Subtree(nodes, kid) ensures x !in Covered(nodes, kids, i) {
      CoveredBy(nodes, kids, i, x);
      if x in Covered(nodes, kids, i) {
        var j :| 0 <= j < i && x in Subtree(nodes, kids[j]);
        SubtreesApart(nodes, kids[j], kid, x);
        assert false;
      }
    }
  }

  lemma CoveredAll(nodes: Nodes, collection: Id, source: Id, kids: seq<Id>)
    requires Forest(nodes) && source in nodes && nodes[source].collection == collection && Placed(nodes, source)
    requires Elements(kids) == Children(nodes, collection, Some(source))
    ensures {source} + Covered(nodes, kids, |kids|) == Subtree(nodes, source)
  {
    forall x ensures x in {source} + Covered(nodes, kids, |kids|) <==> x in Subtree(nodes, source) {
      CoveredBy(nodes, kids, |kids|, x);
      if x in Covered(nodes, kids, |kids|) {
        var j :| 0 <= j < |kids| && x in Subtree(nodes, kids[j]);
        assert kids[j] in Elements(kids);
        BelowParentToo(nodes, source, kids[j], x);
      }
      if x in Subtree(nodes, source) && x != source {
        var kid := BelowAChild(nodes, source, x);
        assert Placed(nodes, kid);
        assert kid in Children(nodes, collection, Some(source));
        assert kid in Elements(kids);
        var j :| 0 <= j < |kids| && kids[j] == kid;
        assert x in Subtree(nodes, kids[j]);
      }
    }
  }

  lemma KidsParent(nodes: Nodes, collection: Id, source: Id, kids: seq<Id>)
    requires Elements(kids) == Children(nodes, collection, Some(source))
    ensures forall k :: k in kids ==> k in nodes && nodes[k].parent == Some(source)
  {
    forall k | k in kids ensures k in nodes && nodes[k].parent == Some(source) {
      assert k in Elements(kids);
    }
  }

  // ---- names along a chain -------------------------------------------------------------------------

  /** The names from the root of the collection down to the node. */
  ghost function NamesAlong(nodes: Nodes, c: seq<Id>): seq<string>
    requires forall x :: x in c ==> x in nodes
  {
    if c == [] then [] else NamesAlong(nodes, c[1..]) + [nodes[c[0]].name]
  }

  ghost function Names(nodes: Nodes, id: Id): seq<string>
    requires Rooted(nodes, id)
  {
    ChainDistinct(nodes, id, Chain(nodes, id));
    NamesAlong(nodes, Chain(nodes, id))
  }

  ghost function ParentNames(nodes: Nodes, parent: Option<Id>): seq<string> {
    if parent.Some? && Rooted(nodes, parent.value) then Names(nodes, parent.value) else []
  }

  lemma NamesStep(nodes: Nodes, id: Id)
    requires Rooted(nodes, id)
    ensures nodes[id].parent.Some? ==> Rooted(nodes, nodes[id].parent.value)
    ensures Names(nodes, id) == ParentNames(nodes, nodes[id].parent) + [nodes[id].name]
  {
    var c := Chain(nodes, id);
    ChainDistinct(nodes, id, c);
    ChainStep(nodes, id);
    assert c[0] == id;
    if nodes[id].parent.Some? {
      assert c[1..] == Chain(nodes, nodes[id].parent.value);
    } else {
      assert c[1..] == [] && NamesAlong(nodes, []) == [];
    }
  }

  lemma RootNames(nodes: Nodes, parent: Option<Id>)
    requires parent.Some? ==> Rooted(nodes, parent.value)
    ensures ParentNames(nodes, parent) == [] <==> parent.None?
  {
    if parent.Some? {
      NamesStep(nodes, parent.value);
    }
  }

  /** In a forest the names lead to one node only. */
  lemma {:induction false} NamesDetermine(nodes: Nodes, a: Id, b: Id)
    requires Forest(nodes) && a in nodes && b in nodes && nodes[a].collection == nodes[b].collection
    requires Placed(nodes, a) && Placed(nodes, b) && Names(nodes, a) == Names(nodes, b)
    ensures a == b
    decreases |Chain(nodes, a)|
  {
    NamesStep(nodes, a);
    NamesStep(nodes, b);
    ChainStep(nodes, a);
    var p, q := nodes[a].parent, nodes[b].parent;
    assert Names(nodes, a)[..|Names(nodes, a)| - 1] == ParentNames(nodes, p);
    assert Names(nodes, b)[..|Names(nodes, b)| - 1] == ParentNames(nodes, q);
    if p.Some? && q.Some? {
      assert Placed(nodes, p.value) && Placed(nodes, q.value);
      NamesDetermine(nodes, p.value, q.value);
    } else {
      RootNames(nodes, p);
      RootNames(nodes, q);
    }
    assert Clash(nodes[a], nodes[b]);
  }

  lemma {:induction false} NamesSafe(nodes: Nodes, id: Id)
    requires Forest(nodes) && id in nodes && Placed(nodes, id)
    ensures Names(nodes, id) != [] && forall n :: n in Names(nodes, id) ==> PathSafe(n)
    decreases |Chain(nodes, id)|
  {
    NamesStep(nodes, id);
    ChainStep(nodes, id);
    var p := nodes[id].parent;
    if p.Some? {
      assert Placed(nodes, p.value);
      NamesSafe(nodes, p.value);
    }
  }

  /** `a` stands below `top` where `b` stands below `root`: the names on the way are the same. */
  ghost predicate SamePlace(nodes: Nodes, a: Id, top: Id, others: Nodes, b: Id, root: Id)
    requires Rooted(nodes, a) && Rooted(nodes, top) && Rooted(others, b) && Rooted(others, root)
  {
    exists rest :: Names(nodes, a) == Names(nodes, top) + rest && Names(others, b) == Names(others, root) + rest
  }

  lemma SamePlaceTop(nodes: Nodes, a: Id, others: Nodes, b: Id)
    requires Rooted(nodes, a) && Rooted(others, b)
    ensures SamePlace(nodes, a, a, others, b, b)
  {
    assert Names(nodes, a) == Names(nodes, a) + [] && Names(others, b) == Names(others, b) + [];
  }

  lemma SamePlaceStep(nodes: Nodes, a: Id, top: Id, others: Nodes, b: Id, root: Id)
    requires Rooted(nodes, a) && Rooted(nodes, top) && Rooted(others, b) && Rooted(others, root)
    requires nodes[a].name == others[b].name && nodes[a].parent.Some? && others[b].parent.Some?
    requires Rooted(nodes, nodes[a].parent.value) && Rooted(others, others[b].parent.value)
    requires SamePlace(nodes, nodes[a].parent.value, top, others, others[b].parent.value, root)
    ensures SamePlace(nodes, a, top, others, b, root)
  {
    var p, q := nodes[a].parent.value, others[b].parent.value;
    var rest :| Names(nodes, p) == Names(nodes, top) + rest && Names(others, q) == Names(others, root) + rest;
    NamesStep(nodes, a);
    NamesStep(others, b);
    assert Names(nodes, a) == Names(nodes, top) + (rest + [nodes[a].name]);
    assert Names(others, b) == Names(others, root) + (rest + [nodes[a].name]);
  }
}
