/** Copying files and folder subtrees (app/services/file_copy.py). */
module FileCopying {
  import opened Wrappers
  import opened Collections
  import opened FileNames
  import opened FileTrees
  import opened FileSystems

  /** A clone has its own place and name; the stored bytes are duplicated for files only. */
  predicate IsClone(n: Node, m: Node, parent: Option<Id>, name: string) {
    && m.parent == parent && m.name == name
    && m.collection == n.collection && m.kind == n.kind && m.contentType == n.contentType
    && if n.kind.File? then m.bytes == n.bytes else m.bytes == None
  }

  predicate Copyable(n: Node) {
    n.kind.File? ==> n.bytes.Some?
  }

  ghost predicate Injective(phi: map<Id, Id>) {
    forall x, y :: x in phi && y in phi && phi[x] == phi[y] ==> x == y
  }

  /** The clone of `x` stands where `x` stands, relative to the root of the copy. */
  ghost predicate Mirrored(base: Nodes, now: Nodes, phi: map<Id, Id>, root: Id, parent: Option<Id>, name: string, x: Id) {
    && x in base && x in phi && phi[x] in now
    && if x == root then IsClone(base[x], now[phi[x]], parent, name)
       else base[x].parent.Some? && base[x].parent.value in phi
            && IsClone(base[x], now[phi[x]], Some(phi[base[x].parent.value]), base[x].name)
  }

  /**
   * `now` is `before` and a copy of the nodes in `phi`: fresh, with the same shape, kinds
   * and content types, and below its root the same names.
   */
  ghost predicate IsCopy(base: Nodes, before: Nodes, now: Nodes, phi: map<Id, Id>, root: Id, parent: Option<Id>, name: string) {
    && root in phi && Injective(phi)
    && now.Keys == before.Keys + phi.Values && before.Keys !! phi.Values
    && (forall x :: x in before ==> now[x] == before[x])
    && forall x {:trigger Mirrored(base, now, phi, root, parent, name, x)} :: x in phi ==> Mirrored(base, now, phi, root, parent, name, x)
  }

  /** One pending record for every clone that the collection ingests, and no other change. */
  ghost predicate Recorded(base: Nodes, now: Nodes, phi: map<Id, Id>, ingestible: set<string>,
                           before: Documents, after: Documents, records: seq<Id>) {
    Listed(base, phi, ingestible, records) && Entered(now, before, after, records)
  }

  ghost predicate Listed(base: Nodes, phi: map<Id, Id>, ingestible: set<string>, records: seq<Id>) {
    Distinct(records) && forall d :: d in records <==> exists x :: x in phi && phi[x] == d && Ingests(base, ingestible, x)
  }

  ghost predicate Entered(now: Nodes, before: Documents, after: Documents, records: seq<Id>) {
    && after.Keys == before.Keys + Elements(records)
    && (forall d :: d in before ==> d !in records && after[d] == before[d])
    && forall d :: d in records ==> d in now && Awaits(now[d], after[d]) && after[d].chunks == 0
  }

  ghost predicate Ingests(base: Nodes, ingestible: set<string>, x: Id) {
    && x in base && base[x].kind.File?
    && base[x].contentType.Some? && base[x].contentType.value != "" && base[x].contentType.value in ingestible
  }

  /** The nodes of `base` are still there, and nothing has been added to the subtree of `root`. */
  ghost predicate Settled(base: Nodes, now: Nodes, root: Id) {
    && (forall x :: x in base ==> x in now && now[x] == base[x])
    && forall x :: x in now && x !in base ==> Elsewhere(base, root, now[x].parent)
  }

  ghost predicate Elsewhere(base: Nodes, root: Id, parent: Option<Id>) {
    parent.Some? ==> parent.value !in Subtree(base, root)
  }

  method ListChildren(fs: FileSystem, collection: Id, parent: Id) returns (r: seq<Id>)
    ensures Distinct(r) && Elements(r) == Children(fs.nodes, collection, Some(parent))
  {
    r := Enumerate(Children(fs.nodes, collection, Some(parent)));
  }

  // ---- one node ---------------------------------------------------------------------------------

  /** `_copy_bytes`: fails when nothing is stored for the source. */
  method CopyBytes(fs: FileSystem, source: Id, clone: Id) returns (ok: bool)
    requires fs.Valid() && source in fs.nodes && clone in fs.nodes && clone != source
    modifies fs`nodes
    ensures fs.Valid() && ok == old(fs.nodes[source]).bytes.Some?
    ensures fs.nodes == if ok then old(fs.nodes)[clone := old(fs.nodes[clone]).(bytes := old(fs.nodes[source]).bytes)] else old(fs.nodes)
  {
    hide Forest;
    if fs.nodes[source].bytes.None? {
      return false;
    }
    Refilled(fs.nodes, clone, fs.nodes[source].bytes);
    fs.nodes := fs.nodes[clone := fs.nodes[clone].(bytes := fs.nodes[source].bytes)];
    return true;
  }

  lemma Refilled(nodes: Nodes, id: Id, bytes: Option<string>)
    requires Forest(nodes) && id in nodes
    ensures Forest(nodes[id := nodes[id].(bytes := bytes)])
  {
    assert Placed(nodes, id);
    BelowParent(nodes, id);
    Moved(nodes, id, nodes[id].(bytes := bytes));
  }

  /** What has been copied, and recorded, since `before`. */
  ghost predicate Copied(base: Nodes, before: Nodes, now: Nodes, phi: map<Id, Id>, root: Id, parent: Option<Id>, name: string,
                         ingestible: set<string>, earlier: Documents, after: Documents, records: seq<Id>) {
    IsCopy(base, before, now, phi, root, parent, name) && Recorded(base, now, phi, ingestible, earlier, after, records)
  }

  lemma StartCopy(base: Nodes, before: Nodes, source: Id, clone: Id, m: Node, parent: Option<Id>, name: string)
    requires source in base && clone !in before && IsClone(base[source], m, parent, name)
    ensures IsCopy(base, before, before[clone := m], map[source := clone], source, parent, name)
  {
    assert map[source := clone][source] == clone;
  }

  lemma NothingRecorded(base: Nodes, now: Nodes, source: Id, clone: Id, ingestible: set<string>, documents: Documents)
    requires !Ingests(base, ingestible, source)
    ensures Recorded(base, now, map[source := clone], ingestible, documents, documents, [])
  {
  }

  lemma OneRecorded(base: Nodes, now: Nodes, source: Id, clone: Id, ingestible: set<string>, before: Documents, after: Documents)
    requires Ingests(base, ingestible, source) && clone in now && clone !in before && Renewed(now[clone], clone, before, after)
    ensures Recorded(base, now, map[source := clone], ingestible, before, after, [clone])
  {
    assert map[source := clone][source] == clone;
  }

  lemma SettledAdd(base: Nodes, now: Nodes, root: Id, id: Id, n: Node)
    requires Settled(base, now, root) && id !in now && Elsewhere(base, root, n.parent)
    ensures Settled(base, now[id := n], root)
  {
  }

  lemma SettledFill(base: Nodes, now: Nodes, root: Id, id: Id, n: Node)
    requires Settled(base, now, root) && id in now && id !in base && n.parent == now[id].parent
    ensures Settled(base, now[id := n], root)
  {
  }

  lemma SameChildren(base: Nodes, now: Nodes, root: Id, collection: Id, source: Id)
    requires Settled(base, now, root) && source in Subtree(base, root)
    ensures Children(now, collection, Some(source)) == Children(base, collection, Some(source))
  {
    assert forall x :: x in now && x !in base ==> Elsewhere(base, root, now[x].parent);
  }

  /** The copied folder holds clones of children only, so the name of a child still to be copied is free. */
  lemma KidNameFree(base: Nodes, before: Nodes, now: Nodes, phi: map<Id, Id>, source: Id, parent: Option<Id>, name: string, kid: Id)
    requires Forest(base) && Forest(before) && IsCopy(base, before, now, phi, source, parent, name)
    requires kid in base && base[kid].parent == Some(source) && kid !in phi && source in base
    requires parent.Some? ==> parent.value in before
    requires base[kid].collection == base[source].collection
    ensures base[kid].name !in NamesIn(now, base[source].collection, Some(phi[source]))
  {
    var clone := phi[source];
    assert clone in phi.Values;
    forall x | x in Children(now, base[source].collection, Some(clone)) ensures now[x].name != base[kid].name {
      if x in before {
        InForest(before, x);
        assert false;
      } else {
        var y :| y in phi && phi[y] == x;
        assert Mirrored(base, now, phi, source, parent, name, y);
        assert y != source;
        assert Clash(base[y], base[kid]) ==> y == kid;
      }
    }
  }

  /** The copy of a child joins the copy of its folder. */
  lemma CopiesMerge(base: Nodes, before: Nodes, mid: Nodes, now: Nodes, phi: map<Id, Id>, psi: map<Id, Id>,
                    source: Id, parent: Option<Id>, name: string, kid: Id)
    requires IsCopy(base, before, mid, phi, source, parent, name) && kid in base && base[kid].parent == Some(source)
    requires IsCopy(base, mid, now, psi, kid, Some(phi[source]), base[kid].name)
    requires phi.Keys !! psi.Keys
    ensures IsCopy(base, before, now, phi + psi, source, parent, name)
  {
    var both := phi + psi;
    forall x | x in both ensures Mirrored(base, now, both, source, parent, name, x) {
      if x in psi {
        assert Mirrored(base, now, psi, kid, Some(phi[source]), base[kid].name, x);
      } else {
        assert Mirrored(base, mid, phi, source, parent, name, x);
      }
    }
    MergedValues(phi, psi);
    MergedInjective(phi, psi);
  }

  lemma MergedInjective(phi: map<Id, Id>, psi: map<Id, Id>)
    requires Injective(phi) && Injective(psi) && phi.Values !! psi.Values
    ensures Injective(phi + psi)
  {
    var both := phi + psi;
    assert forall x :: x in phi ==> phi[x] in phi.Values;
    assert forall x :: x in psi ==> psi[x] in psi.Values;
  }

  lemma MergedValues(phi: map<Id, Id>, psi: map<Id, Id>)
    requires phi.Keys !! psi.Keys
    ensures (phi + psi).Values == phi.Values + psi.Values
  {
    var both := phi + psi;
    forall v | v in phi.Values + psi.Values ensures v in both.Values {
      if v in phi.Values {
        var x :| x in phi && phi[x] == v;
        assert both[x] == v;
      } else {
        var x :| x in psi && psi[x] == v;
        assert both[x] == v;
      }
    }
  }

  lemma RecordsMerge(base: Nodes, mid: Nodes, now: Nodes, phi: map<Id, Id>, psi: map<Id, Id>, ingestible: set<string>,
                     d0: Documents, d1: Documents, d2: Documents, r: seq<Id>, s: seq<Id>)
    requires Recorded(base, mid, phi, ingestible, d0, d1, r) && Recorded(base, now, psi, ingestible, d1, d2, s)
    requires phi.Keys !! psi.Keys && forall d :: d in mid ==> d in now && now[d] == mid[d]
    ensures Recorded(base, now, phi + psi, ingestible, d0, d2, r + s)
  {
    hide Listed, Entered;
    EntriesMerge(mid, now, d0, d1, d2, r, s);
    ListsMerge(base, phi, psi, ingestible, r, s);
  }

  lemma EntriesMerge(mid: Nodes, now: Nodes, d0: Documents, d1: Documents, d2: Documents, r: seq<Id>, s: seq<Id>)
    requires Entered(mid, d0, d1, r) && Entered(now, d1, d2, s) && forall d :: d in mid ==> d in now && now[d] == mid[d]
    ensures Entered(now, d0, d2, r + s) && forall d :: d in r ==> d !in s
  {
    hide Awaits;
    assert Elements(r + s) == Elements(r) + Elements(s);
    forall d | d in r ensures d in d1 && d !in s {
      assert d in Elements(r);
    }
  }

  lemma ListsMerge(base: Nodes, phi: map<Id, Id>, psi: map<Id, Id>, ingestible: set<string>, r: seq<Id>, s: seq<Id>)
    requires Listed(base, phi, ingestible, r) && Listed(base, psi, ingestible, s)
    requires phi.Keys !! psi.Keys && forall d :: d in r ==> d !in s
    ensures Listed(base, phi + psi, ingestible, r + s)
  {
    hide Ingests;
    DistinctBoth(r, s);
    forall d ensures d in r + s <==> exists x :: x in phi + psi && (phi + psi)[x] == d && Ingests(base, ingestible, x) {
      MergedRecords(base, phi, psi, ingestible, d);
    }
  }

  lemma MergedRecords(base: Nodes, phi: map<Id, Id>, psi: map<Id, Id>, ingestible: set<string>, d: Id)
    requires phi.Keys !! psi.Keys
    ensures (exists x :: x in phi + psi && (phi + psi)[x] == d && Ingests(base, ingestible, x)) <==>
            (exists x :: x in phi && phi[x] == d && Ingests(base, ingestible, x)) ||
            (exists x :: x in psi && psi[x] == d && Ingests(base, ingestible, x))
  {
    if x :| x in phi && phi[x] == d && Ingests(base, ingestible, x) {
      assert (phi + psi)[x] == d;
    }
    if x :| x in psi && psi[x] == d && Ingests(base, ingestible, x) {
      assert (phi + psi)[x] == d;
    }
  }

  // ---- the recursion --------------------------------------------------------------------------------

  /**
   * `_copy_node`: clones one node under `parent` and, for a folder, its children. `base` is
   * the table at the start of the copy and `root` the node being copied, whose subtree stays
   * as it is; the recursion ends because chains of parents in `base` are finite.
   */
  method CopyNode(fs: FileSystem, ghost base: Nodes, ghost root: Id, collection: Id, source: Id, parent: Option<Id>, name: string)
    returns (r: Result<Id, Error>, records: seq<Id>, ghost phi: map<Id, Id>)
    requires fs.Valid() && Forest(base) && Settled(base, fs.nodes, root) && source in Subtree(base, root)
    requires base[source].collection == collection && IsFolderOf(fs.nodes, collection, parent) && Elsewhere(base, root, parent)
    requires PathSafe(name) && name !in NamesIn(fs.nodes, collection, parent)
    modifies fs`nodes, fs`documents, fs`nextId
    ensures fs.Valid() && Settled(base, fs.nodes, root) && fs.nextId >= old(fs.nextId)
    ensures r.Ok? <==> forall x :: x in Subtree(base, source) ==> Copyable(base[x])
    ensures r.Err? ==> r.error == NoStoredBytes
    ensures r.Ok? ==> phi.Keys == Subtree(base, source) && r.value == phi[source]
                      && Copied(base, old(fs.nodes), fs.nodes, phi, source, parent, name, fs.ingestible,
                                old(fs.documents), fs.documents, records)
    decreases |base.Keys| - |Chain(base, source)|, 1
  {
    hide Forest, PathSafe, Copied;
    ghost var before := fs.nodes;
    InSubtree(base, root, source);
    var n := fs.nodes[source];
    var clone := fs.Add(Node(collection, parent, n.kind, name, n.contentType, None));
    SettledAdd(base, before, root, clone, fs.nodes[clone]);
    if n.kind.File? {
      var ok;
      ok, records := FinishFile(fs, base, root, source, clone, before, parent, name);
      phi := map[source := clone];
      FileAlone(base, source);
      r := if ok then Ok(clone) else Err(NoStoredBytes);
    } else {
      StartCopy(base, before, source, clone, fs.nodes[clone], parent, name);
      NothingRecorded(base, fs.nodes, source, clone, fs.ingestible, fs.documents);
      IsCopied(base, before, fs.nodes, map[source := clone], source, parent, name, fs.ingestible, fs.documents, fs.documents, []);
      var ok;
      ok, records, phi := CopyChildren(fs, base, root, collection, source, clone, before, fs.documents, parent, name);
      r := if ok then Ok(clone) else Err(NoStoredBytes);
    }
  }

  lemma InSubtree(base: Nodes, root: Id, source: Id)
    requires Forest(base) && source in Subtree(base, root)
    ensures source in base && Placed(base, source) && |Chain(base, source)| <= |base.Keys|
  {
    InForest(base, source);
    ChainDistinct(base, source, Chain(base, source));
  }

  lemma IsCopied(base: Nodes, before: Nodes, now: Nodes, phi: map<Id, Id>, root: Id, parent: Option<Id>, name: string,
                 ingestible: set<string>, earlier: Documents, after: Documents, records: seq<Id>)
    requires IsCopy(base, before, now, phi, root, parent, name) && Recorded(base, now, phi, ingestible, earlier, after, records)
    ensures Copied(base, before, now, phi, root, parent, name, ingestible, earlier, after, records)
  {
  }

  lemma CopiedMerge(base: Nodes, before: Nodes, mid: Nodes, now: Nodes, phi: map<Id, Id>, psi: map<Id, Id>,
                    source: Id, parent: Option<Id>, name: string, kid: Id, ingestible: set<string>,
                    d0: Documents, d1: Documents, d2: Documents, r: seq<Id>, s: seq<Id>)
    requires source in phi && Copied(base, before, mid, phi, source, parent, name, ingestible, d0, d1, r)
    requires kid in base && base[kid].parent == Some(source) && phi.Keys !! psi.Keys
    requires Copied(base, mid, now, psi, kid, Some(phi[source]), base[kid].name, ingestible, d1, d2, s)
    ensures Copied(base, before, now, phi + psi, source, parent, name, ingestible, d0, d2, r + s)
  {
    CopiesMerge(base, before, mid, now, phi, psi, source, parent, name, kid);
    RecordsMerge(base, mid, now, phi, psi, ingestible, d0, d1, d2, r, s);
  }

  lemma CopiedParts(base: Nodes, before: Nodes, now: Nodes, phi: map<Id, Id>, root: Id, parent: Option<Id>, name: string,
                    ingestible: set<string>, earlier: Documents, after: Documents, records: seq<Id>)
    requires Copied(base, before, now, phi, root, parent, name, ingestible, earlier, after, records)
    ensures IsCopy(base, before, now, phi, root, parent, name) && Recorded(base, now, phi, ingestible, earlier, after, records)
  {
  }

  lemma {:induction false} KidCovered(base: Nodes, kids: seq<Id>, i: nat)
    requires i < |kids|
    ensures Subtree(base, kids[i]) <= Covered(base, kids, |kids|)
  {
    forall x | x in Subtree(base, kids[i]) ensures x in Covered(base, kids, |kids|) {
      CoveredBy(base, kids, |kids|, x);
    }
  }

  /** Everything the copy of the next child needs. */
  lemma KidReady(base: Nodes, root: Id, now: Nodes, before: Nodes, phi: map<Id, Id>, collection: Id, source: Id,
                 parent: Option<Id>, name: string, kids: seq<Id>, i: nat)
    requires Forest(base) && Forest(before) && Settled(base, now, root) && source in Subtree(base, root)
    requires base[source].collection == collection && base[source].kind.Folder? && i < |kids|
    requires parent.Some? ==> parent.value in before
    requires IsCopy(base, before, now, phi, source, parent, name) && phi.Keys == {source} + Covered(base, kids, i)
    requires phi[source] !in base
    requires Distinct(kids) && Elements(kids) == Children(base, collection, Some(source))
    ensures var kid, clone := kids[i], phi[source];
            && kid in base && kid in now && now[kid] == base[kid] && base[kid].parent == Some(source) && kid in Subtree(base, root)
            && base[kid].collection == collection && PathSafe(base[kid].name) && Rooted(base, kid) && Rooted(base, source)
            && |Chain(base, source)| < |Chain(base, kid)| <= |base.Keys|
            && IsFolderOf(now, collection, Some(clone)) && Elsewhere(base, root, Some(clone))
            && base[kid].name !in NamesIn(now, collection, Some(clone)) && Subtree(base, kid) !! phi.Keys
  {
    hide Forest;
    var kid := kids[i];
    assert kid in Elements(kids);
    ChildOf(base, root, source, kid);
    InSubtree(base, root, source);
    KidsParent(base, collection, source, kids);
    KidApart(base, source, kids, i);
    KidNameFree(base, before, now, phi, source, parent, name, kid);
    assert Mirrored(base, now, phi, source, parent, name, source);
  }

  /** The bytes of a copied file and, when its type is ingested, its pending record. */
  method FinishFile(fs: FileSystem, ghost base: Nodes, ghost root: Id, source: Id, clone: Id, ghost before: Nodes,
                    ghost parent: Option<Id>, ghost name: string) returns (ok: bool, records: seq<Id>)
    requires fs.Valid() && Settled(base, fs.nodes, root) && source in base && base[source].kind.File? && clone !in before
    requires fs.nodes == before[clone := Node(base[source].collection, parent, File, name, base[source].contentType, None)]
    requires clone !in base && clone !in fs.documents
    modifies fs`nodes, fs`documents
    ensures fs.Valid() && Settled(base, fs.nodes, root)
    ensures ok <==> Copyable(base[source])
    ensures ok ==> Copied(base, before, fs.nodes, map[source := clone], source, parent, name, fs.ingestible,
                          old(fs.documents), fs.documents, records)
  {
    hide Forest;
    records := [];
    ghost var added, earlier := fs.nodes, fs.documents;
    ok := CopyBytes(fs, source, clone);
    if ok {
      SettledFill(base, added, root, clone, fs.nodes[clone]);
      assert fs.nodes == before[clone := fs.nodes[clone]];
      StartCopy(base, before, source, clone, fs.nodes[clone], parent, name);
      if IsIngestible(fs.ingestible, fs.nodes[clone].contentType) {
        fs.EnsurePendingDocument(clone);
        records := [clone];
        OneRecorded(base, fs.nodes, source, clone, fs.ingestible, earlier, fs.documents);
      } else {
        NothingRecorded(base, fs.nodes, source, clone, fs.ingestible, earlier);
      }
    }
  }

  /** The loop over the children of a folder whose clone has just been added. */
  method CopyChildren(fs: FileSystem, ghost base: Nodes, ghost root: Id, collection: Id, source: Id, clone: Id, ghost before: Nodes,
                      ghost earlier: Documents, ghost parent: Option<Id>, ghost name: string)
    returns (ok: bool, records: seq<Id>, ghost phi: map<Id, Id>)
    requires fs.Valid() && Forest(base) && Forest(before) && Settled(base, fs.nodes, root) && source in Subtree(base, root)
    requires base[source].collection == collection && base[source].kind.Folder? && clone !in base
    requires parent.Some? ==> parent.value in before
    requires Copied(base, before, fs.nodes, map[source := clone], source, parent, name, fs.ingestible, earlier, fs.documents, [])
    modifies fs`nodes, fs`documents, fs`nextId
    ensures fs.Valid() && Settled(base, fs.nodes, root) && fs.nextId >= old(fs.nextId)
    ensures ok <==> forall x :: x in Subtree(base, source) ==> Copyable(base[x])
    ensures ok ==> phi.Keys == Subtree(base, source) && phi[source] == clone
                   && Copied(base, before, fs.nodes, phi, source, parent, name, fs.ingestible, earlier, fs.documents, records)
    decreases |base.Keys| - |Chain(base, source)|, 0
  {
    hide Forest, PathSafe, Copied, IsCopy, Recorded, Settled, Below, Rooted, Elsewhere;
    records, phi := [], map[source := clone];
    InSubtree(base, root, source);
    SameChildren(base, fs.nodes, root, collection, source);
    var kids := ListChildren(fs, collection, source);
    for i := 0 to |kids|
      invariant fs.Valid() && Settled(base, fs.nodes, root) && fs.nextId >= old(fs.nextId)
      invariant Copied(base, before, fs.nodes, phi, source, parent, name, fs.ingestible, earlier, fs.documents, records)
      invariant phi.Keys == {source} + Covered(base, kids, i) && phi[source] == clone
      invariant forall x :: x in Covered(base, kids, i) ==> x in base && Copyable(base[x])
    {
      var kid := kids[i];
      CopiedParts(base, before, fs.nodes, phi, source, parent, name, fs.ingestible, earlier, fs.documents, records);
      KidReady(base, root, fs.nodes, before, phi, collection, source, parent, name, kids, i);
      ghost var mid, documents := fs.nodes, fs.documents;
      var r, more;
      ghost var psi;
      r, more, psi := CopyNode(fs, base, root, collection, kid, Some(clone), fs.nodes[kid].name);
      if r.Err? {
        CoveredAll(base, collection, source, kids);
        KidCovered(base, kids, i);
        return false, records, phi;
      }
      CopiedMerge(base, before, mid, fs.nodes, phi, psi, source, parent, name, kid, fs.ingestible, earlier, documents, fs.documents,
                  records, more);
      phi, records := phi + psi, records + more;
    }
    CoveredAll(base, collection, source, kids);
    ok := true;
  }

  /** The target is a folder of the collection outside what is copied. */
  ghost predicate MayCopyTo(nodes: Nodes, collection: Id, id: Id, target: Option<Id>) {
    IsFolderOf(nodes, collection, target) && (target.Some? ==> target.value !in Subtree(nodes, id))
  }

  ghost function CopyError(nodes: Nodes, collection: Id, target: Option<Id>): Error {
    if IsFolderOf(nodes, collection, target) then WouldCycle else FolderError(nodes, collection, target)
  }

  method CheckTarget(fs: FileSystem, collection: Id, id: Id, target: Option<Id>) returns (r: Result<Option<Id>, Error>)
    requires fs.Valid() && id in fs.nodes
    ensures r.Ok? <==> MayCopyTo(fs.nodes, collection, id, target)
    ensures r.Ok? ==> r.value == target
    ensures r.Err? ==> r.error == CopyError(fs.nodes, collection, target)
  {
    if target.Some? {
      var folder := fs.RequireFolder(collection, target.value);
      if folder.Err? {
        return Err(folder.error);
      }
      if fs.nodes[id].kind.Folder? {
        var rejected := fs.RejectCycle(id, target.value);
        if rejected {
          return Err(WouldCycle);
        }
      } else {
        assert Placed(fs.nodes, id);
        FileAlone(fs.nodes, id);
      }
    }
    return Ok(target);
  }

  /** `copy`; an error rolls everything back. */
  method Copy(fs: FileSystem, collection: Id, id: Id, target: Option<Id>) returns (r: Result<Id, Error>, records: seq<Id>, ghost phi: map<Id, Id>)
    requires fs.Valid() && id in fs.nodes && fs.nodes[id].collection == collection
    modifies fs
    ensures fs.Valid()
    ensures r.Ok? <==> && MayCopyTo(old(fs.nodes), collection, id, target)
                       && forall x :: x in old(Subtree(fs.nodes, id)) ==> Copyable(old(fs.nodes)[x])
    ensures r.Ok? ==> && phi.Keys == old(Subtree(fs.nodes, id)) && id in phi && r.value == phi[id] && r.value in fs.nodes
                      && Deduped(old(fs.nodes[id].name), old(NamesIn(fs.nodes, collection, target)), fs.nodes[r.value].name)
                      && IsCopy(old(fs.nodes), old(fs.nodes), fs.nodes, phi, id, target, fs.nodes[r.value].name)
                      && Recorded(old(fs.nodes), fs.nodes, phi, fs.ingestible, old(fs.documents), fs.documents, records)
    ensures r.Err? ==> fs.nodes == old(fs.nodes) && fs.documents == old(fs.documents)
    ensures r.Err? ==> r.error == if MayCopyTo(old(fs.nodes), collection, id, target) then NoStoredBytes
                                  else CopyError(old(fs.nodes), collection, target)
  {
    hide Forest, PathSafe, Copied, MayCopyTo;
    records, phi := [], map[];
    var checked := CheckTarget(fs, collection, id, target);
    if checked.Err? {
      return Err(checked.error), records, phi;
    }
    var nodes, documents := fs.nodes, fs.documents;
    InForest(nodes, id);
    var name := fs.DedupeName(collection, target, nodes[id].name);
    DedupedSafe(nodes[id].name, NamesIn(nodes, collection, target), name);
    CopyStarts(nodes, collection, id, target);
    r, records, phi := CopyNode(fs, nodes, id, collection, id, target, name);
    if r.Err? {
      fs.nodes, fs.documents := nodes, documents;
    } else {
      CopiedParts(nodes, nodes, fs.nodes, phi, id, target, name, fs.ingestible, documents, fs.documents, records);
      assert Mirrored(nodes, fs.nodes, phi, id, target, name, id);
    }
  }

  lemma CopyStarts(nodes: Nodes, collection: Id, id: Id, target: Option<Id>)
    requires Forest(nodes) && id in nodes && MayCopyTo(nodes, collection, id, target)
    ensures Settled(nodes, nodes, id) && id in Subtree(nodes, id) && IsFolderOf(nodes, collection, target) && Elsewhere(nodes, id, target)
  {
    InForest(nodes, id);
  }

  lemma MirroredAt(base: Nodes, before: Nodes, now: Nodes, phi: map<Id, Id>, root: Id, parent: Option<Id>, name: string, x: Id)
    requires IsCopy(base, before, now, phi, root, parent, name) && x in phi
    ensures root in phi && Mirrored(base, now, phi, root, parent, name, x)
  {
  }

  /** Below the root of the copy the paths read as below the original. */
  lemma {:induction false} CopyMirrorsNames(base: Nodes, before: Nodes, now: Nodes, phi: map<Id, Id>, root: Id, parent: Option<Id>,
                                            name: string, x: Id)
    requires IsCopy(base, before, now, phi, root, parent, name) && Forest(now) && x in phi && Rooted(base, x)
    ensures Rooted(now, phi[x]) && root in phi && Rooted(now, phi[root]) && Rooted(base, root)
    ensures SamePlace(base, x, root, now, phi[x], phi[root])
    decreases |Chain(base, x)|
  {
    hide Forest, IsCopy, SamePlace, PathSafe;
    MirroredAt(base, before, now, phi, root, parent, name, x);
    MirroredAt(base, before, now, phi, root, parent, name, root);
    InForest(now, phi[x]);
    InForest(now, phi[root]);
    if x == root {
      SamePlaceTop(base, root, now, phi[root]);
    } else {
      ChainStep(base, x);
      ChainStep(now, phi[x]);
      CopyMirrorsNames(base, before, now, phi, root, parent, name, base[x].parent.value);
      SamePlaceStep(base, x, root, now, phi[x], phi[root]);
    }
  }

  lemma {:induction false} CloneBelow(base: Nodes, before: Nodes, now: Nodes, phi: map<Id, Id>, root: Id, parent: Option<Id>, name: string,
                                      x: Id)
    requires IsCopy(base, before, now, phi, root, parent, name) && Forest(now) && x in phi && Rooted(base, x)
    ensures root in phi && Below(now, phi[root], phi[x])
    decreases |Chain(base, x)|
  {
    hide Forest, IsCopy, PathSafe;
    MirroredAt(base, before, now, phi, root, parent, name, x);
    InForest(now, phi[x]);
    BelowStep(now, phi[root], phi[x]);
    if x != root {
      ChainStep(base, x);
      CloneBelow(base, before, now, phi, root, parent, name, base[x].parent.value);
    }
  }

  /** Nothing of what was there before is below the copy. */
  lemma OthersApart(before: Nodes, now: Nodes, clone: Id, y: Id)
    requires Forest(before) && y in before && clone !in before && forall x :: x in before ==> x in now && now[x] == before[x]
    ensures !Below(now, clone, y)
  {
    InForest(before, y);
    ChainDistinct(before, y, Chain(before, y));
    ChainStays(before, now, y);
  }

  lemma CopySubtree(base: Nodes, before: Nodes, now: Nodes, phi: map<Id, Id>, root: Id, parent: Option<Id>, name: string)
    requires IsCopy(base, before, now, phi, root, parent, name) && Forest(before) && Forest(now)
    requires forall x :: x in phi ==> Rooted(base, x)
    ensures root in phi && Subtree(now, phi[root]) == phi.Values
  {
    hide Forest, Rooted, Below, Mirrored, Injective;
    assert phi[root] in phi.Values;
    forall y | y in Subtree(now, phi[root]) ensures y in phi.Values {
      if y in before {
        OthersApart(before, now, phi[root], y);
        assert false;
      }
    }
    forall y | y in phi.Values ensures y in Subtree(now, phi[root]) {
      var x :| x in phi && phi[x] == y;
      CloneBelow(base, before, now, phi, root, parent, name, x);
    }
  }

  /** Deleting a copy leaves the tree and the records as they were before it was made. */
  lemma DeleteUndoesCopy(base: Nodes, before: Nodes, now: Nodes, phi: map<Id, Id>, root: Id, parent: Option<Id>, name: string,
                         ingestible: set<string>, earlier: Documents, after: Documents, records: seq<Id>)
    requires Copied(base, before, now, phi, root, parent, name, ingestible, earlier, after, records)
    requires Forest(before) && Forest(now) && Documented(before, earlier) && forall x :: x in phi ==> Rooted(base, x)
    ensures root in phi && now - Subtree(now, phi[root]) == before && after - Subtree(now, phi[root]) == earlier
  {
    hide Forest, Rooted, Below, Mirrored, Injective;
    CopySubtree(base, before, now, phi, root, parent, name);
    assert forall d :: d in earlier ==> d in before;
    forall d | d in records ensures d in phi.Values {
    }
    assert forall d :: d in Elements(records) ==> d in records;
    assert now - phi.Values == before;
    assert after - phi.Values == earlier;
  }
}
