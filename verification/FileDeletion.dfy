/** Deleting files and folder subtrees (app/services/file_deletion.py). */
module FileDeletion {
  import opened Wrappers
  import opened Collections
  import opened FileTrees
  import opened FileSystems

  /** Every node of the collection, under the parent it has. */
  ghost predicate IsIndex(nodes: Nodes, collection: Id, index: map<Option<Id>, seq<Id>>) {
    && (forall p :: p in index ==> Distinct(index[p]) && Elements(index[p]) == Children(nodes, collection, p))
    && forall p :: p !in index ==> Children(nodes, collection, p) == {}
  }

  /** Everything below a listed node stands before it. */
  ghost predicate ChildrenFirst(nodes: Nodes, order: seq<Id>) {
    forall i, x :: 0 <= i < |order| && x in nodes && nodes[x].parent == Some(order[i]) ==> x in order[..i]
  }

  method ListForCollection(fs: FileSystem, collection: Id) returns (r: seq<Id>)
    ensures Distinct(r) && forall x :: x in r <==> x in fs.nodes && fs.nodes[x].collection == collection
  {
    r := Enumerate(set x | x in fs.nodes && fs.nodes[x].collection == collection);
    assert forall x :: x in r <==> x in Elements(r);
  }

  function Siblings(index: map<Option<Id>, seq<Id>>, parent: Option<Id>): seq<Id> {
    if parent in index then index[parent] else []
  }

  /** The loop that fills `children_of`. */
  method IndexChildren(fs: FileSystem, collection: Id) returns (index: map<Option<Id>, seq<Id>>)
    ensures IsIndex(fs.nodes, collection, index)
  {
    var all := ListForCollection(fs, collection);
    index := map[];
    for i := 0 to |all|
      invariant forall p :: p in index ==> Distinct(index[p])
      invariant forall p, x :: x in Siblings(index, p) <==> x in all[..i] && fs.nodes[x].parent == p
    {
      var x := all[i];
      var p := fs.nodes[x].parent;
      assert all[..i + 1] == all[..i] + [x];
      assert x !in all[..i];
      ghost var earlier := index;
      index := index[p := Siblings(index, p) + [x]];
      assert forall q :: Siblings(index, q) == if q == p then Siblings(earlier, q) + [x] else Siblings(earlier, q);
    }
    assert all[..|all|] == all;
    forall p ensures Elements(Siblings(index, p)) == Children(fs.nodes, collection, p) {
    }
  }

  /** The list holds exactly the node and everything below it, each once, children before parents. */
  ghost predicate ListsSubtree(nodes: Nodes, id: Id, list: seq<Id>) {
    Distinct(list) && Elements(list) == Subtree(nodes, id) && ChildrenFirst(nodes, list)
  }

  /** `visit`: appends the node and everything below it to `ordered`, children before parents. */
  method Visit(ghost nodes: Nodes, collection: Id, index: map<Option<Id>, seq<Id>>, current: Id, ordered: seq<Id>)
    returns (r: seq<Id>)
    requires Forest(nodes) && current in nodes && nodes[current].collection == collection && IsIndex(nodes, collection, index)
    requires Placed(nodes, current)
    ensures ordered <= r && ListsSubtree(nodes, current, r[|ordered|..])
    decreases |nodes.Keys| - |Chain(nodes, current)|
  {
    hide Forest, IsIndex, Rooted, Below, Subtree, Placed;
    var kids := Siblings(index, Some(current));
    KidsOf(nodes, collection, index, current);
    r := ordered;
    ghost var added: seq<Id> := [];
    for i := 0 to |kids|
      invariant r == ordered + added && Distinct(added) && ChildrenFirst(nodes, added)
      invariant Elements(added) == Covered(nodes, kids, i)
    {
      KidStep(nodes, collection, current, kids, i);
      var next := Visit(nodes, collection, index, kids[i], r);
      ghost var more := next[|r|..];
      OrdersJoin(nodes, added, more);
      assert next == ordered + (added + more);
      r, added := next, added + more;
    }
    ParentLast(nodes, collection, current, kids, added);
    r := r + [current];
    assert r[|ordered|..] == added + [current];
  }

  lemma KidsOf(nodes: Nodes, collection: Id, index: map<Option<Id>, seq<Id>>, current: Id)
    requires IsIndex(nodes, collection, index)
    ensures var kids := Siblings(index, Some(current)); Distinct(kids) && Elements(kids) == Children(nodes, collection, Some(current))
  {
  }

  lemma KidStep(nodes: Nodes, collection: Id, current: Id, kids: seq<Id>, i: nat)
    requires Forest(nodes) && current in nodes && nodes[current].collection == collection && Placed(nodes, current) && i < |kids|
    requires Distinct(kids) && Elements(kids) == Children(nodes, collection, Some(current))
    ensures var kid := kids[i];
            && kid in nodes && nodes[kid].collection == collection && Placed(nodes, kid)
            && |Chain(nodes, current)| < |Chain(nodes, kid)| <= |nodes.Keys|
            && Subtree(nodes, kid) !! Covered(nodes, kids, i) && current !in Subtree(nodes, kid)
  {
    hide Forest;
    assert kids[i] in Elements(kids);
    KidsParent(nodes, collection, current, kids);
    ChildOf(nodes, current, current, kids[i]);
    InForest(nodes, kids[i]);
    KidApart(nodes, current, kids, i);
  }

  lemma OrdersJoin(nodes: Nodes, a: seq<Id>, b: seq<Id>)
    requires ChildrenFirst(nodes, a) && ChildrenFirst(nodes, b) && Distinct(a) && Distinct(b) && Elements(a) !! Elements(b)
    ensures ChildrenFirst(nodes, a + b) && Distinct(a + b) && Elements(a + b) == Elements(a) + Elements(b)
  {
    var r := a + b;
    DistinctBoth(a, b) by {
      forall x | x in a ensures x !in b {
        assert x in Elements(a);
      }
    }
    forall i, x | 0 <= i < |r| && x in nodes && nodes[x].parent == Some(r[i]) ensures x in r[..i] {
      if i < |a| {
        assert r[..i] == a[..i];
      } else {
        assert r[..i] == a + b[..i - |a|];
      }
    }
  }

  lemma ParentLast(nodes: Nodes, collection: Id, current: Id, kids: seq<Id>, added: seq<Id>)
    requires Forest(nodes) && current in nodes && nodes[current].collection == collection && Placed(nodes, current)
    requires Distinct(kids) && Elements(kids) == Children(nodes, collection, Some(current))
    requires Distinct(added) && ChildrenFirst(nodes, added) && Elements(added) == Covered(nodes, kids, |kids|)
    ensures var r := added + [current];
            Distinct(r) && ChildrenFirst(nodes, r) && Elements(r) == Subtree(nodes, current)
  {
    var r := added + [current];
    CoveredAll(nodes, collection, current, kids);
    CoveredBy(nodes, kids, |kids|, current);
    forall j | 0 <= j < |kids| ensures current !in Subtree(nodes, kids[j]) {
      KidStep(nodes, collection, current, kids, j);
    }
    assert current in added ==> current in Elements(added);
    assert Elements(r) == Elements(added) + {current};
    forall i, x | 0 <= i < |r| && x in nodes && nodes[x].parent == Some(r[i]) ensures x in r[..i] {
      if i < |added| {
        assert r[..i] == added[..i];
      } else {
        assert r[..i] == added;
        ChildListed(nodes, collection, current, kids, x);
        assert x in Elements(added);
      }
    }
  }

  lemma ChildListed(nodes: Nodes, collection: Id, current: Id, kids: seq<Id>, x: Id)
    requires Forest(nodes) && x in nodes && nodes[x].parent == Some(current) && current in nodes && nodes[current].collection == collection
    requires Elements(kids) == Children(nodes, collection, Some(current))
    ensures x in Covered(nodes, kids, |kids|)
  {
    InForest(nodes, x);
    assert x in Elements(kids);
    var j :| 0 <= j < |kids| && kids[j] == x;
    assert x in Subtree(nodes, kids[j]);
    CoveredBy(nodes, kids, |kids|, x);
  }

  /** `_collect_subtree`: exactly the node and everything below it, children before parents. */
  method CollectSubtree(fs: FileSystem, id: Id) returns (ordered: seq<Id>)
    requires fs.Valid() && id in fs.nodes
    ensures ListsSubtree(fs.nodes, id, ordered)
  {
    var collection := fs.nodes[id].collection;
    var index := IndexChildren(fs, collection);
    assert Placed(fs.nodes, id);
    ordered := Visit(fs.nodes, collection, index, id, []);
    assert ordered[0..] == ordered;
  }

  /** One node row; the database refuses while a child or an ingestion record refers to it. */
  method DeleteRow(fs: FileSystem, id: Id)
    requires fs.Valid() && id in fs.nodes && id !in fs.documents
    requires forall x :: x in fs.nodes ==> fs.nodes[x].parent != Some(id)
    modifies fs`nodes
    ensures fs.Valid() && fs.nodes == old(fs.nodes) - {id}
  {
    Removed(fs.nodes, {id});
    fs.nodes := fs.nodes - {id};
  }

  /** `_purge_rows`: first the records, then the nodes; no node goes while a child of it is left. */
  method PurgeRows(fs: FileSystem, doomed: seq<Id>, records: seq<Id>)
    requires fs.Valid() && Distinct(doomed) && ChildrenFirst(fs.nodes, doomed) && forall x :: x in doomed ==> x in fs.nodes
    requires forall d :: d in records <==> d in fs.documents && d in doomed
    modifies fs`nodes, fs`documents
    ensures fs.Valid() && fs.nodes == old(fs.nodes) - Elements(doomed) && fs.documents == old(fs.documents) - Elements(doomed)
  {
    hide Forest, Rooted;
    for i := 0 to |records|
      invariant fs.Valid() && fs.nodes == old(fs.nodes) && fs.documents == old(fs.documents) - Elements(records[..i])
    {
      assert Elements(records[..i + 1]) == Elements(records[..i]) + {records[i]};
      fs.documents := fs.documents - {records[i]};
    }
    assert records[..|records|] == records;
    assert fs.documents == old(fs.documents) - Elements(doomed);
    ghost var nodes := fs.nodes;
    for i := 0 to |doomed|
      invariant fs.Valid() && fs.nodes == nodes - Elements(doomed[..i])
      invariant fs.documents == old(fs.documents) - Elements(doomed)
    {
      assert doomed[i] !in Elements(doomed[..i]);
      assert Elements(doomed[..i + 1]) == Elements(doomed[..i]) + {doomed[i]};
      assert doomed[i] in Elements(doomed);
      forall x | x in fs.nodes ensures fs.nodes[x].parent != Some(doomed[i]) {
        assert x !in Elements(doomed[..i]);
      }
      DeleteRow(fs, doomed[i]);
    }
    assert doomed[..|doomed|] == doomed;
  }

  /** `delete`: the subtree and its records go, and nothing else. */
  method Delete(fs: FileSystem, id: Id) returns (doomed: seq<Id>)
    requires fs.Valid() && id in fs.nodes
    modifies fs`nodes, fs`documents
    ensures fs.Valid()
    ensures fs.nodes == old(fs.nodes) - old(Subtree(fs.nodes, id)) && fs.documents == old(fs.documents) - old(Subtree(fs.nodes, id))
  {
    doomed := CollectSubtree(fs, id);
    hide Forest, ChildrenFirst;
    var records: seq<Id> := [];
    for i := 0 to |doomed|
      invariant forall d :: d in records <==> d in doomed[..i] && d in fs.documents
    {
      assert doomed[..i + 1] == doomed[..i] + [doomed[i]];
      assert doomed[i] in Elements(doomed);
      if fs.nodes[doomed[i]].kind.File? && doomed[i] in fs.documents {
        records := records + [doomed[i]];
      }
    }
    assert doomed[..|doomed|] == doomed;
    forall x | x in doomed ensures x in fs.nodes {
      assert x in Elements(doomed);
    }
    PurgeRows(fs, doomed, records);
  }
}
