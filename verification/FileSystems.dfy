/** The file service (app/services/files.py): folders, uploads, renames, moves and paths. */
module FileSystems {
  import opened Wrappers
  import opened Collections
  import opened FileNames
  import opened FilePaths
  import opened FileTrees

  datatype Status = Pending | Processing | Ready | Failed

  /** The ingestion record of a file; name, content type and source mirror the file node. */
  datatype Document = Document(name: string, contentType: string, source: Option<string>, status: Status,
                               problem: Option<string>, chunks: nat)

  type Documents = map<Id, Document>

  const DEFAULT_TYPE := "application/octet-stream"

  function TypeOr(contentType: Option<string>, other: string): string {
    if contentType.Some? && contentType.value != "" then contentType.value else other
  }

  /** Only files have a record, and it carries the name of the file. */
  ghost predicate Documented(nodes: Nodes, documents: Documents) {
    forall f :: f in documents ==> f in nodes && nodes[f].kind.File? && documents[f].name == nodes[f].name
  }

  /** The record waits for the ingestion of the file as it is now. */
  predicate Awaits(n: Node, d: Document) {
    && d.status == Pending && d.problem == None && d.name == n.name && d.source == n.bytes
    && d.contentType == if n.contentType.Some? && n.contentType.value != "" then n.contentType.value else "application/octet-stream"
  }

  /** The file's record now waits for ingestion; what an earlier one counted and all other records stay. */
  ghost predicate Renewed(n: Node, id: Id, before: Documents, after: Documents) {
    && after.Keys == before.Keys + {id} && Awaits(n, after[id])
    && after[id].chunks == (if id in before then before[id].chunks else 0)
    && forall d :: d in before && d != id ==> after[d] == before[d]
  }

  predicate IsIngestible(ingestible: set<string>, contentType: Option<string>) {
    contentType.Some? && contentType.value != "" && contentType.value in ingestible
  }

  /** Names without the white space around them. */
  function Clean(names: seq<string>): (r: seq<string>)
    ensures |r| == |names| && forall i :: 0 <= i < |r| ==> r[i] == Trim(names[i])
  {
    seq(|names|, i requires 0 <= i < |names| => Trim(names[i]))
  }

  /** Everything of `before` is still there; what is new is listed in `created`. */
  ghost predicate Grown(before: Nodes, now: Nodes, created: seq<Id>) {
    && now.Keys == before.Keys + Elements(created) && Distinct(created)
    && (forall x :: x in before ==> now[x] == before[x])
    && forall x :: x in created ==> x !in before
  }

  /** `path` leads to `id` in the collection. */
  ghost predicate Resolves(nodes: Nodes, collection: Id, path: string, id: Id) {
    id in nodes && nodes[id].collection == collection && Rooted(nodes, id) && Names(nodes, id) == Segments(path)
  }

  /** A file stands where one of the folders on the way down would have to be. */
  ghost predicate FileOnTheWay(nodes: Nodes, collection: Id, above: seq<string>, names: seq<string>) {
    exists f, k :: FileAt(nodes, collection, above, names, f, k)
  }

  ghost predicate FileAt(nodes: Nodes, collection: Id, above: seq<string>, names: seq<string>, f: Id, k: nat) {
    && f in nodes && nodes[f].kind.File? && nodes[f].collection == collection && k < |names|
    && Rooted(nodes, f) && Names(nodes, f) == above + names[..k + 1]
  }

  ghost predicate FileNamed(nodes: Nodes, collection: Id, parent: Option<Id>, name: string, f: Id) {
    f in Children(nodes, collection, parent) && nodes[f].name == name && nodes[f].kind.File?
  }

  /** `current` has been reached from `parent` along `names`, creating the folders `created` on the way. */
  ghost predicate ReachedBy(before: Nodes, now: Nodes, collection: Id, parent: Option<Id>, names: seq<string>,
                            current: Option<Id>, created: seq<Id>) {
    && Grown(before, now, created) && IsFolderOf(now, collection, current)
    && (parent.Some? ==> Rooted(before, parent.value)) && (current.Some? ==> Rooted(now, current.value))
    && ParentNames(now, current) == ParentNames(before, parent) + names
    && forall x :: x in created ==> CreatedAbove(now, collection, current, x)
  }

  /** A folder on the way down to `current`. */
  ghost predicate CreatedAbove(nodes: Nodes, collection: Id, current: Option<Id>, x: Id) {
    && x in nodes && nodes[x].kind.Folder? && nodes[x].collection == collection
    && current.Some? && Rooted(nodes, current.value) && x in Chain(nodes, current.value)
  }

  /** The folders of a relative path, and the name under which the upload is filed. */
  function UploadFolders(relativePath: Option<string>): seq<string> {
    var segments := if relativePath.Some? then Segments(relativePath.value) else [];
    if segments == [] then [] else segments[..|segments| - 1]
  }

  function UploadName(relativePath: Option<string>, filename: Option<string>): string {
    var segments := if relativePath.Some? then Segments(relativePath.value) else [];
    if segments != [] then segments[|segments| - 1]
    else if filename.Some? && filename.value != "" then filename.value
    else "uploaded-file"
  }

  /** The segments of a relative path are its folders and its name; without any, the file name counts. */
  lemma UploadPlace(relativePath: Option<string>, filename: Option<string>)
    ensures var (folders, name) := (UploadFolders(relativePath), UploadName(relativePath, filename));
            if relativePath.Some? && Segments(relativePath.value) != [] then folders + [name] == Segments(relativePath.value)
            else folders == [] && (if filename.Some? && filename.value != "" then name == filename.value else name == "uploaded-file")
  {
  }

  /** One new file, in the folder that the relative path names, under the first free name. */
  ghost predicate Uploaded(before: Nodes, now: Nodes, collection: Id, parent: Option<Id>, folders: seq<string>, name: string,
                           contentType: Option<string>, bytes: string, r: Upload) {
    && r.file in now && r.file !in before && r.file !in r.created
    && var n, others := now[r.file], now - {r.file};
    && ReachedBy(before, others, collection, parent, folders, n.parent, r.created)
    && Deduped(name, NamesIn(others, collection, n.parent), n.name)
    && n.collection == collection && n.kind == File && n.bytes == Some(bytes) && IsTypeOf(contentType, n.contentType)
  }

  /** A file has the content type it was sent with, or the default one. */
  predicate IsTypeOf(sent: Option<string>, stored: Option<string>) {
    if sent.Some? && sent.value != "" then stored == sent else stored == Some("application/octet-stream")
  }

  datatype Upload = Upload(file: Id, created: seq<Id>)

  class FileSystem {
    const ingestible: set<string>
    var nodes: Nodes
    var documents: Documents
    var nextId: Id

    ghost predicate Valid()
      reads this
    {
      Forest(nodes) && (forall id :: id in nodes ==> id < nextId) && Documented(nodes, documents)
    }

    constructor (ingestible: set<string>)
      ensures Valid() && nodes == map[] && documents == map[] && this.ingestible == ingestible
    {
      this.ingestible := ingestible;
      nodes, documents, nextId := map[], map[], 0;
    }

    // ---- reads ------------------------------------------------------------------------------------

    method FindChild(collection: Id, parent: Option<Id>, name: string) returns (r: Option<Id>)
      ensures r.Some? ==> r.value in Children(nodes, collection, parent) && nodes[r.value].name == name
      ensures r.Some? <==> name in NamesIn(nodes, collection, parent)
    {
      if id :| id in nodes && nodes[id].collection == collection && nodes[id].parent == parent && nodes[id].name == name {
        assert id in Children(nodes, collection, parent);
        return Some(id);
      }
      return None;
    }

    method RequireFolder(collection: Id, id: Id) returns (r: Result<Id, Error>)
      ensures r.Ok? <==> IsFolderOf(nodes, collection, Some(id))
      ensures r.Ok? ==> r.value == id
      ensures r == Err(TargetIsFile) <==> id in nodes && nodes[id].collection == collection && nodes[id].kind.File?
      ensures r == Err(FolderNotFound) <==> id !in nodes || nodes[id].collection != collection
    {
      if id !in nodes || nodes[id].collection != collection {
        return Err(FolderNotFound);
      }
      if !nodes[id].kind.Folder? {
        return Err(TargetIsFile);
      }
      return Ok(id);
    }

    /** Walks up from the new parent; rejects when the walk meets the node. */
    method RejectCycle(id: Id, parent: Id) returns (rejected: bool)
      requires Forest(nodes) && parent in nodes
      ensures rejected <==> Below(nodes, id, parent)
    {
      assert Placed(nodes, parent);
      ghost var c, i := Chain(nodes, parent), 0;
      var cursor := Some(parent);
      while cursor.Some?
        invariant 0 <= i <= |c| && cursor == (if i < |c| then Some(c[i]) else None)
        invariant id !in c[..i]
        decreases |c| - i
      {
        if cursor.value == id {
          return true;
        }
        ParentOnChain(nodes, parent, c, i);
        cursor := nodes[cursor.value].parent;
        i := i + 1;
      }
      assert c[..i] == c;
      return false;
    }

    /** `dedupe_name`: numbered names are tried until one is free among the siblings. */
    method DedupeName(collection: Id, parent: Option<Id>, name: string) returns (r: string)
      ensures Deduped(name, NamesIn(nodes, collection, parent), r)
    {
      var found := FindChild(collection, parent, name);
      if found.None? {
        return name;
      }
      ghost var taken := NamesIn(nodes, collection, parent);
      var counter := 1;
      while true
        invariant counter >= 1 && forall m :: 1 <= m < counter ==> Suffixed(name, m) in taken
        decreases |taken| + 1 - counter
      {
        r := Suffixed(name, counter);
        found := FindChild(collection, parent, r);
        if found.None? {
          assert FirstNumber(name, taken, counter);
          return;
        }
        TakenSuffixes(name, taken, counter);
        counter := counter + 1;
      }
    }

    /** `resolve_path`: exact, because names lead to one node only. */
    method ResolvePath(collection: Id, path: string) returns (r: Result<Id, Error>)
      requires Forest(nodes)
      ensures r.Ok? ==> Resolves(nodes, collection, path, r.value)
      ensures r == Err(RootPath) <==> Segments(path) == []
      ensures r.Err? && r.error != RootPath ==> r.error == PathNotFound && forall x :: !Resolves(nodes, collection, path, x)
    {
      var segments := Segments(path);
      if segments == [] {
        return Err(RootPath);
      }
      var parent: Option<Id> := None;
      for i := 0 to |segments|
        invariant parent.Some? <==> i > 0
        invariant parent.Some? ==> parent.value in nodes && nodes[parent.value].collection == collection && Rooted(nodes, parent.value)
        invariant ParentNames(nodes, parent) == segments[..i]
      {
        var child := FindChild(collection, parent, segments[i]);
        assert segments[..i + 1] == segments[..i] + [segments[i]];
        if child.None? {
          forall x ensures !Resolves(nodes, collection, path, x) {
            if Resolves(nodes, collection, path, x) {
              NextStepExists(nodes, collection, segments, i, parent, x);
            }
          }
          return Err(PathNotFound);
        }
        assert Placed(nodes, child.value);
        NamesStep(nodes, child.value);
        parent := child;
      }
      assert segments[..|segments|] == segments;
      return Ok(parent.value);
    }

    // ---- changes -----------------------------------------------------------------------------------

    /** `nodes.add`: a row with a fresh id. */
    method Add(n: Node) returns (id: Id)
      requires Valid() && IsFolderOf(nodes, n.collection, n.parent) && PathSafe(n.name)
      requires n.name !in NamesIn(nodes, n.collection, n.parent)
      modifies this`nodes, this`nextId
      ensures Valid() && id !in old(nodes) && nodes == old(nodes)[id := n] && nextId >= old(nextId)
    {
      id := nextId;
      Added(nodes, id, n);
      nodes, nextId := nodes[id := n], nextId + 1;
    }

    /** Creates a folder; the first check that fails gives the error. */
    method CreateFolder(collection: Id, name: string, parent: Option<Id>) returns (r: Result<Id, Error>)
      requires Valid()
      modifies this
      ensures Valid() && documents == old(documents)
      ensures r.Ok? ==> r.value !in old(nodes)
                        && nodes == old(nodes)[r.value := Node(collection, parent, Folder, Trim(name), None, None)]
      ensures r.Err? ==> nodes == old(nodes)
      ensures r.Ok? <==> ValidateNodeName(name).Ok? && IsFolderOf(old(nodes), collection, parent)
                         && Trim(name) !in NamesIn(old(nodes), collection, parent)
      ensures r.Err? ==> r.error == if ValidateNodeName(name).Err? then ValidateNodeName(name).error
                                    else if !IsFolderOf(old(nodes), collection, parent) then FolderError(old(nodes), collection, parent)
                                    else NameTaken
    {
      var clean := ValidateNodeName(name);
      if clean.Err? {
        return Err(clean.error);
      }
      ValidationIsExact(name);
      if parent.Some? {
        var folder := RequireFolder(collection, parent.value);
        if folder.Err? {
          return Err(folder.error);
        }
      }
      var existing := FindChild(collection, parent, clean.value);
      if existing.Some? {
        return Err(NameTaken);
      }
      var id := Add(Node(collection, parent, Folder, clean.value, None, None));
      return Ok(id);
    }

    method CheckParent(id: Id, newParent: Option<Option<Id>>) returns (r: Result<Option<Id>, Error>)
      requires Forest(nodes) && id in nodes
      ensures r.Ok? ==> r.value == Destination(nodes[id], newParent)
      ensures r.Ok? <==> MayMoveTo(nodes, id, Destination(nodes[id], newParent))
      ensures r.Err? ==> r.error == MoveError(nodes, id, Destination(nodes[id], newParent))
    {
      var node := nodes[id];
      assert Placed(nodes, id);
      if newParent.None? {
        BelowParent(nodes, id);
        return Ok(node.parent);
      }
      var parent := newParent.value;
      if parent.Some? {
        var folder := RequireFolder(node.collection, parent.value);
        if folder.Err? {
          return Err(folder.error);
        }
        var rejected := RejectCycle(id, parent.value);
        if rejected {
          return Err(WouldCycle);
        }
      }
      return Ok(parent);
    }

    method CheckName(id: Id, parent: Option<Id>, newName: Option<string>) returns (r: Result<string, Error>)
      requires Forest(nodes) && id in nodes
      ensures r.Ok? ==> r.value == Renamed(nodes[id], newName) && PathSafe(r.value)
      ensures r.Ok? <==> (newName.Some? ==> ValidateNodeName(newName.value).Ok?)
                         && FreeFor(nodes, id, nodes[id].(parent := parent, name := Renamed(nodes[id], newName)))
      ensures r.Err? ==> r.error == NameError(newName)
    {
      var node := nodes[id];
      assert Placed(nodes, id);
      var name := node.name;
      if newName.Some? {
        var clean := ValidateNodeName(newName.value);
        if clean.Err? {
          return Err(clean.error);
        }
        ValidationIsExact(newName.value);
        name := clean.value;
      }
      var moved := node.(parent := parent, name := name);
      var existing := Some(id);
      if parent != node.parent || name != node.name {
        existing := FindChild(node.collection, parent, name);
        if existing.Some? && existing.value != id {
          assert Clash(moved, nodes[existing.value]);
          return Err(NameTaken);
        }
      }
      NoClash(nodes, moved, existing, id);
      return Ok(name);
    }

    /** `_ensure_folder`: the existing folder of that name, or a new one. */
    method EnsureFolder(collection: Id, parent: Option<Id>, name: string) returns (r: Result<(Id, bool), Error>)
      requires Valid() && IsFolderOf(nodes, collection, parent) && PathSafe(name)
      modifies this`nodes, this`nextId
      ensures Valid() && nextId >= old(nextId)
      ensures r.Ok? ==> var (id, added) := r.value;
                        && nodes == (if added then old(nodes)[id := Node(collection, parent, Folder, name, None, None)] else old(nodes))
                        && (added <==> id !in old(nodes))
                        && IsFolderOf(nodes, collection, Some(id)) && nodes[id].parent == parent && nodes[id].name == name
      ensures r.Err? ==> r.error == FileInTheWay && nodes == old(nodes) && exists f :: FileNamed(nodes, collection, parent, name, f)
    {
      var existing := FindChild(collection, parent, name);
      if existing.Some? {
        if !nodes[existing.value].kind.Folder? {
          assert FileNamed(nodes, collection, parent, name, existing.value);
          return Err(FileInTheWay);
        }
        return Ok((existing.value, false));
      }
      var id := Add(Node(collection, parent, Folder, name, None, None));
      return Ok((id, true));
    }

    /** `_create_missing_folders`: walks down `names` from `parent`, creating what is missing. */
    method CreateMissingFolders(collection: Id, parent: Option<Id>, names: seq<string>)
      returns (r: Result<(Option<Id>, seq<Id>), Error>)
      requires Valid() && IsFolderOf(nodes, collection, parent)
      modifies this`nodes, this`nextId
      ensures Valid() && nextId >= old(nextId)
      ensures r.Ok? ==> IsFolderOf(nodes, collection, r.value.0)
                        && ReachedBy(old(nodes), nodes, collection, parent, Clean(names), r.value.0, r.value.1)
      ensures r.Ok? <==> && (forall i :: 0 <= i < |names| ==> ValidateNodeName(names[i]).Ok?)
                         && !FileOnTheWay(old(nodes), collection, old(ParentNames(nodes, parent)), Clean(names))
    {
      hide ReachedBy, Forest, Documented, FileOnTheWay, FileNamed, ValidateNodeName, PathSafe, ParentNames, Rooted;
      var created: seq<Id>, current := [], parent;
      var clean := Clean(names);
      StartReached(nodes, collection, parent);
      assert clean[..0] == [];
      for i := 0 to |names|
        invariant Valid() && nextId >= old(nextId) && IsFolderOf(nodes, collection, current)
        invariant ReachedBy(old(nodes), nodes, collection, parent, clean[..i], current, created)
        invariant forall j :: 0 <= j < i ==> ValidateNodeName(names[j]).Ok?
      {
        var name := ValidateNodeName(names[i]);
        if name.Err? {
          return Err(name.error);
        }
        ValidationIsExact(names[i]);
        ghost var before := nodes;
        var step := EnsureFolder(collection, current, name.value);
        if step.Err? {
          FileBlocks(old(nodes), nodes, collection, parent, clean, i, current, created);
          return Err(step.error);
        }
        InForest(nodes, step.value.0);
        StepReached(old(nodes), before, nodes, collection, parent, clean, i, current, created, step.value.0, step.value.1);
        current, created := Some(step.value.0), if step.value.1 then created + [step.value.0] else created;
      }
      assert clean[..|names|] == clean;
      NothingBlocked(old(nodes), nodes, collection, parent, clean, current, created);
      return Ok((current, created));
    }

    /** Creates the record of a file, or resets it, so that the background worker picks it up. */
    method EnsurePendingDocument(id: Id)
      requires Valid() && id in nodes && nodes[id].kind.File?
      modifies this`documents
      ensures Valid()
      ensures Renewed(nodes[id], id, old(documents), documents)
    {
      var n := nodes[id];
      var chunks := if id in documents then documents[id].chunks else 0;
      documents := documents[id := Document(n.name, TypeOr(n.contentType, DEFAULT_TYPE), n.bytes, Pending, None, chunks)];
    }

    /** `register_upload`; an error rolls the whole upload back. */
    method RegisterUpload(collection: Id, parent: Option<Id>, filename: Option<string>, relativePath: Option<string>,
                          contentType: Option<string>, bytes: string) returns (r: Result<Upload, Error>)
      requires Valid() && IsFolderOf(nodes, collection, parent)
      modifies this
      ensures Valid()
      ensures r.Ok? <==> && ValidateNodeName(UploadName(relativePath, filename)).Ok?
                         && (forall f :: f in UploadFolders(relativePath) ==> ValidateNodeName(f).Ok?)
                         && !FileOnTheWay(old(nodes), collection, old(ParentNames(nodes, parent)), Clean(UploadFolders(relativePath)))
      ensures r.Ok? ==> Uploaded(old(nodes), nodes, collection, parent, Clean(UploadFolders(relativePath)),
                                 Trim(UploadName(relativePath, filename)), contentType, bytes, r.value)
      ensures r.Err? ==> nodes == old(nodes)
      ensures if r.Ok? && nodes[r.value.file].contentType.value in ingestible
              then r.value.file !in old(documents) && Renewed(nodes[r.value.file], r.value.file, old(documents), documents)
              else documents == old(documents)
    {
      hide Forest, FileOnTheWay, ReachedBy, PathSafe, ValidateNodeName;
      var folders := UploadFolders(relativePath);
      var name := ValidateNodeName(UploadName(relativePath, filename));
      if name.Err? {
        return Err(name.error);
      }
      ValidationIsExact(UploadName(relativePath, filename));
      var start := nodes;
      var reached := CreateMissingFolders(collection, parent, folders);
      if reached.Err? {
        nodes := start;
        return Err(reached.error);
      }
      var (folder, created) := reached.value;
      label Reached:
      var file := AddFile(collection, folder, name.value, contentType, bytes);
      IsUploaded(start, old@Reached(nodes), nodes, collection, parent, Clean(folders), name.value, contentType, bytes,
                 Upload(file, created));
      if IsIngestible(ingestible, nodes[file].contentType) {
        EnsurePendingDocument(file);
      }
      return Ok(Upload(file, created));
    }

    /** The file row itself, under the first free name. */
    method AddFile(collection: Id, folder: Option<Id>, name: string, contentType: Option<string>, bytes: string) returns (file: Id)
      requires Valid() && IsFolderOf(nodes, collection, folder) && PathSafe(name)
      modifies this`nodes, this`nextId
      ensures Valid() && nextId >= old(nextId) && file !in old(nodes) && file in nodes && nodes == old(nodes)[file := nodes[file]]
      ensures nodes[file] == Node(collection, folder, File, nodes[file].name, nodes[file].contentType, Some(bytes))
      ensures IsTypeOf(contentType, nodes[file].contentType)
      ensures Deduped(name, NamesIn(old(nodes), collection, folder), nodes[file].name)
    {
      var free := DedupeName(collection, folder, name);
      DedupedSafe(name, NamesIn(nodes, collection, folder), free);
      file := Add(Node(collection, folder, File, free, Some(TypeOr(contentType, DEFAULT_TYPE)), Some(bytes)));
    }

    /** `_paths_for` one node: the paths of its ancestors are looked up in, or added to, `paths`. */
    method PathFor(id: Id, paths: map<Id, string>) returns (r: map<Id, string>)
      requires Forest(nodes) && id in nodes && Rooted(nodes, id)
      requires forall x :: x in paths ==> x in nodes && PrintsAs(nodes, x, paths[x])
      ensures id in r && paths.Keys <= r.Keys
      ensures forall x :: x in r ==> x in nodes && PrintsAs(nodes, x, r[x])
      ensures forall x :: x in r ==> x in paths || nodes[x].collection == nodes[id].collection
      decreases |Chain(nodes, id)|
    {
      if id in paths {
        return paths;
      }
      ChainStep(nodes, id);
      assert Placed(nodes, id);
      hide Forest, PrintsAs, Rooted, ChainOf, Placed;
      r := paths;
      var prefix := "";
      if nodes[id].parent.Some? {
        var p := nodes[id].parent.value;
        r := PathFor(p, paths);
        prefix := r[p];
      }
      r := r[id := prefix + "/" + nodes[id].name];
      PrintsStep(nodes, id, prefix);
    }

    /** `_paths_for` a collection: every node with its display path. */
    method Paths(collection: Id) returns (paths: map<Id, string>)
      requires Forest(nodes)
      ensures forall x :: x in paths <==> x in nodes && nodes[x].collection == collection
      ensures forall x :: x in paths ==> PrintsAs(nodes, x, paths[x])
    {
      paths := map[];
      var todo := set x | x in nodes && nodes[x].collection == collection;
      while todo != {}
        invariant forall x :: x in todo || x in paths <==> x in nodes && nodes[x].collection == collection
        invariant forall x :: x in paths ==> x in nodes && PrintsAs(nodes, x, paths[x])
        decreases |todo|
      {
        var x :| x in todo;
        assert Placed(nodes, x);
        paths := PathFor(x, paths);
        todo := todo - {x};
      }
    }

    /** Renames and moves; `newParent` is `None` when the request leaves the parent alone. */
    method UpdateNode(id: Id, newParent: Option<Option<Id>>, newName: Option<string>) returns (r: Result<Id, Error>)
      requires Valid() && id in nodes
      modifies this`nodes, this`documents
      ensures Valid()
      ensures var n := old(nodes[id]);
              var moved := n.(parent := Destination(n, newParent), name := Renamed(n, newName));
              && (r.Ok? <==> MayMoveTo(old(nodes), id, moved.parent) && FreeFor(old(nodes), id, moved)
                             && (newName.Some? ==> ValidateNodeName(newName.value).Ok?))
              && (r.Err? ==> r.error == if MayMoveTo(old(nodes), id, moved.parent) then NameError(newName)
                                        else MoveError(old(nodes), id, moved.parent))
              && nodes == if r.Ok? then old(nodes)[id := moved] else old(nodes)
      ensures documents == if r.Ok? && id in old(documents) then old(documents)[id := old(documents[id]).(name := nodes[id].name)]
                           else old(documents)
    {
      hide Forest, MayMoveTo, FreeFor, ValidateNodeName, Documented, PathSafe;
      var parent := CheckParent(id, newParent);
      if parent.Err? {
        return Err(parent.error);
      }
      var name := CheckName(id, parent.value, newName);
      if name.Err? {
        return Err(name.error);
      }
      Replace(id, nodes[id].(parent := parent.value, name := name.value));
      return Ok(id);
    }

    /** The assignments to the node's row, and to the name that the ingestion record mirrors. */
    method Replace(id: Id, moved: Node)
      requires Valid() && id in nodes && PathSafe(moved.name) && MayMoveTo(nodes, id, moved.parent) && FreeFor(nodes, id, moved)
      requires moved == nodes[id].(parent := moved.parent, name := moved.name)
      modifies this`nodes, this`documents
      ensures Valid() && nodes == old(nodes)[id := moved]
      ensures documents == if id in old(documents) then old(documents)[id := old(documents[id]).(name := moved.name)] else old(documents)
    {
      ReplaceKeepsForest(nodes, id, moved);
      ReplaceKeepsDocuments(nodes, documents, id, moved);
      hide Forest, Documented, MayMoveTo, FreeFor, PathSafe;
      nodes := nodes[id := moved];
      if id in documents {
        if documents[id].name != moved.name {
          documents := documents[id := documents[id].(name := moved.name)];
        } else {
          assert documents[id := documents[id].(name := moved.name)] == documents;
        }
      }
    }
  }

  lemma ReplaceKeepsForest(nodes: Nodes, id: Id, moved: Node)
    requires Forest(nodes) && id in nodes && PathSafe(moved.name) && MayMoveTo(nodes, id, moved.parent) && FreeFor(nodes, id, moved)
    requires moved == nodes[id].(parent := moved.parent, name := moved.name)
    ensures Forest(nodes[id := moved])
  {
    Moved(nodes, id, moved);
  }

  lemma ReplaceKeepsDocuments(nodes: Nodes, documents: Documents, id: Id, moved: Node)
    requires Documented(nodes, documents) && id in nodes && moved == nodes[id].(parent := moved.parent, name := moved.name)
    ensures id !in documents ==> Documented(nodes[id := moved], documents)
    ensures id in documents ==> Documented(nodes[id := moved], documents[id := documents[id].(name := moved.name)])
  {
  }

  function Destination(n: Node, newParent: Option<Option<Id>>): Option<Id> {
    if newParent.Some? then newParent.value else n.parent
  }

  function Renamed(n: Node, newName: Option<string>): string {
    if newName.Some? then Trim(newName.value) else n.name
  }

  /** The destination is a folder of the collection, outside the subtree of the node. */
  ghost predicate MayMoveTo(nodes: Nodes, id: Id, parent: Option<Id>)
    requires id in nodes
  {
    IsFolderOf(nodes, nodes[id].collection, parent) && (parent.Some? ==> !Below(nodes, id, parent.value))
  }

  /** Why a folder is refused: it is a file, or not there. */
  function FolderError(nodes: Nodes, collection: Id, parent: Option<Id>): Error {
    if parent.Some? && parent.value in nodes && nodes[parent.value].collection == collection && nodes[parent.value].kind.File?
    then TargetIsFile else FolderNotFound
  }

  ghost function MoveError(nodes: Nodes, id: Id, parent: Option<Id>): Error
    requires id in nodes
  {
    if IsFolderOf(nodes, nodes[id].collection, parent) then WouldCycle else FolderError(nodes, nodes[id].collection, parent)
  }

  function NameError(newName: Option<string>): Error {
    if newName.Some? && ValidateNodeName(newName.value).Err? then ValidateNodeName(newName.value).error else NameTaken
  }

  ghost predicate FreeFor(nodes: Nodes, id: Id, moved: Node) {
    forall b :: b in nodes && Clash(moved, nodes[b]) ==> b == id
  }

  /** Among the siblings at the destination only the node that was found has the name. */
  lemma NoClash(nodes: Nodes, moved: Node, existing: Option<Id>, id: Id)
    requires Forest(nodes) && (existing.Some? ==> existing.value == id && id in nodes && Clash(moved, nodes[id]))
    requires existing.None? ==> moved.name !in NamesIn(nodes, moved.collection, moved.parent)
    ensures FreeFor(nodes, id, moved)
  {
    forall b | b in Children(nodes, moved.collection, moved.parent)
      ensures nodes[b].name in NamesIn(nodes, moved.collection, moved.parent)
    {
    }
    forall b | b in nodes && Clash(moved, nodes[b]) ensures b == id {
      if existing.Some? {
        assert Clash(nodes[b], nodes[id]);
      }
    }
  }

  lemma {:induction false} AncestorAt(nodes: Nodes, x: Id, k: nat) returns (a: Id)
    requires Forest(nodes) && x in nodes && Placed(nodes, x) && 1 <= k <= |Names(nodes, x)|
    ensures a in nodes && Placed(nodes, a) && nodes[a].collection == nodes[x].collection
    ensures Names(nodes, a) == Names(nodes, x)[..k] && (a == x || nodes[a].kind.Folder?)
    decreases |Chain(nodes, x)|
  {
    NamesStep(nodes, x);
    ChainStep(nodes, x);
    if k == |Names(nodes, x)| {
      a := x;
    } else {
      var p := nodes[x].parent.value;
      assert Placed(nodes, p);
      a := AncestorAt(nodes, p, k);
    }
  }

  /** If a path can be resolved, so can every step of it. */
  lemma NextStepExists(nodes: Nodes, collection: Id, segments: seq<string>, i: nat, parent: Option<Id>, x: Id)
    requires Forest(nodes) && i < |segments| && (parent.Some? <==> i > 0)
    requires parent.Some? ==> parent.value in nodes && nodes[parent.value].collection == collection && Rooted(nodes, parent.value)
    requires ParentNames(nodes, parent) == segments[..i]
    requires x in nodes && nodes[x].collection == collection && Rooted(nodes, x) && Names(nodes, x) == segments
    ensures segments[i] in NamesIn(nodes, collection, parent)
  {
    assert Placed(nodes, x);
    var a := AncestorAt(nodes, x, i + 1);
    NamesStep(nodes, a);
    var p := nodes[a].parent;
    assert Names(nodes, a)[..i] == segments[..i];
    assert p.Some? ==> Placed(nodes, p.value);
    assert parent.Some? ==> Placed(nodes, parent.value);
    SameFolder(nodes, collection, p, parent);
    hide Forest, Names;
    assert a in Children(nodes, collection, parent);
  }

  /** In one collection the names on the way down determine the folder. */
  lemma SameFolder(nodes: Nodes, collection: Id, p: Option<Id>, q: Option<Id>)
    requires Forest(nodes)
    requires p.Some? ==> p.value in nodes && nodes[p.value].collection == collection && Placed(nodes, p.value)
    requires q.Some? ==> q.value in nodes && nodes[q.value].collection == collection && Placed(nodes, q.value)
    requires ParentNames(nodes, p) == ParentNames(nodes, q)
    ensures p == q
  {
    RootNames(nodes, p);
    RootNames(nodes, q);
    if p.Some? {
      NamesDetermine(nodes, p.value, q.value);
    }
  }

  ghost predicate PrintsAs(nodes: Nodes, id: Id, path: string) {
    Rooted(nodes, id) && path == PathText(Names(nodes, id))
  }

  lemma PrintsStep(nodes: Nodes, id: Id, prefix: string)
    requires Rooted(nodes, id)
    requires nodes[id].parent.Some? ==> PrintsAs(nodes, nodes[id].parent.value, prefix)
    requires nodes[id].parent.None? ==> prefix == ""
    ensures PrintsAs(nodes, id, prefix + "/" + nodes[id].name)
  {
    NamesStep(nodes, id);
    var names := Names(nodes, id);
    assert names[..|names| - 1] == ParentNames(nodes, nodes[id].parent);
  }

  lemma {:induction false} NamesAlike(before: Nodes, now: Nodes, c: seq<Id>)
    requires forall x :: x in c ==> x in before && x in now && now[x].name == before[x].name
    ensures NamesAlong(now, c) == NamesAlong(before, c)
  {
    if c != [] {
      NamesAlike(before, now, c[1..]);
    }
  }

  /** New nodes change the names on the way down to no other node. */
  lemma NamesStay(before: Nodes, now: Nodes, created: seq<Id>, x: Id)
    requires Grown(before, now, created) && Rooted(before, x)
    ensures SameChain(before, now, x) && Names(now, x) == Names(before, x)
  {
    var c := Chain(before, x);
    ChainDistinct(before, x, c);
    ChainStays(before, now, x);
    ChainDistinct(now, x, c);
    NamesAlike(before, now, c);
  }

  lemma StartReached(nodes: Nodes, collection: Id, parent: Option<Id>)
    requires Forest(nodes) && IsFolderOf(nodes, collection, parent)
    ensures ReachedBy(nodes, nodes, collection, parent, [], parent, [])
  {
    if parent.Some? {
      assert Placed(nodes, parent.value);
    }
    assert ParentNames(nodes, parent) + [] == ParentNames(nodes, parent);
  }

  lemma StepReached(start: Nodes, before: Nodes, now: Nodes, collection: Id, parent: Option<Id>, clean: seq<string>, i: nat,
                    current: Option<Id>, created: seq<Id>, id: Id, added: bool)
    requires i < |clean| && ReachedBy(start, before, collection, parent, clean[..i], current, created)
    requires id in now && Rooted(now, id) && now == (if added then before[id := now[id]] else before) && (added <==> id !in before)
    requires IsFolderOf(now, collection, Some(id)) && now[id].parent == current && now[id].name == clean[i]
    ensures ReachedBy(start, now, collection, parent, clean[..i + 1], Some(id), if added then created + [id] else created)
  {
    hide Rooted, ChainOf, Names, CreatedAbove, Grown;
    var more := if added then [id] else [];
    GrownOne(before, now, id, added);
    StepNames(before, now, more, current, id);
    GrownMore(start, before, now, created, id, added);
    assert clean[..i + 1] == clean[..i] + [clean[i]];
    forall x | x in created + [id] ensures CreatedAbove(now, collection, Some(id), x) {
      if x in created {
        assert CreatedAbove(before, collection, current, x);
      }
      AboveMore(before, now, more, collection, current, id, x);
    }
  }

  lemma GrownOne(before: Nodes, now: Nodes, id: Id, added: bool)
    requires id in now && now == (if added then before[id := now[id]] else before) && (added <==> id !in before)
    ensures Grown(before, now, if added then [id] else [])
  {
  }

  lemma AboveMore(before: Nodes, now: Nodes, more: seq<Id>, collection: Id, current: Option<Id>, id: Id, x: Id)
    requires Grown(before, now, more) && Rooted(now, id) && IsFolderOf(now, collection, Some(id))
    requires current.Some? ==> Rooted(before, current.value)
    requires Chain(now, id) == [id] + if current.Some? then Chain(before, current.value) else []
    requires x == id || CreatedAbove(before, collection, current, x)
    ensures CreatedAbove(now, collection, Some(id), x)
  {
    hide Rooted, ChainOf;
  }

  lemma StepNames(before: Nodes, now: Nodes, more: seq<Id>, current: Option<Id>, id: Id)
    requires Rooted(now, id) && now[id].parent == current && Grown(before, now, more)
    requires current.Some? ==> Rooted(before, current.value)
    ensures ParentNames(now, Some(id)) == ParentNames(before, current) + [now[id].name]
    ensures Chain(now, id) == [id] + if current.Some? then Chain(before, current.value) else []
  {
    if current.Some? {
      NamesStay(before, now, more, current.value);
    }
    NamesStep(now, id);
    ChainStep(now, id);
  }

  lemma GrownMore(start: Nodes, before: Nodes, now: Nodes, created: seq<Id>, id: Id, added: bool)
    requires Grown(start, before, created) && id in now
    requires now == (if added then before[id := now[id]] else before) && (added <==> id !in before)
    ensures Grown(start, now, if added then created + [id] else created)
  {
    assert Elements(created + [id]) == Elements(created) + {id};
    assert id in Elements(created) <==> id in created;
  }

  /** A file where the next folder would have to be was there from the start. */
  lemma FileBlocks(start: Nodes, now: Nodes, collection: Id, parent: Option<Id>, clean: seq<string>, i: nat,
                   current: Option<Id>, created: seq<Id>)
    requires Forest(start) && Forest(now) && i < |clean| && ReachedBy(start, now, collection, parent, clean[..i], current, created)
    requires exists f :: FileNamed(now, collection, current, clean[i], f)
    ensures FileOnTheWay(start, collection, ParentNames(start, parent), clean)
  {
    hide Forest, Names;
    var f :| FileNamed(now, collection, current, clean[i], f);
    assert forall x :: x in created ==> CreatedAbove(now, collection, current, x);
    InForest(start, f);
    NamesStay(start, now, created, f);
    NamesStep(now, f);
    assert clean[..i + 1] == clean[..i] + [clean[i]];
    assert FileAt(start, collection, ParentNames(start, parent), clean, f, i);
  }

  /** Once the walk has come through, every step of it is a folder, so no file stands there. */
  lemma NothingBlocked(start: Nodes, now: Nodes, collection: Id, parent: Option<Id>, clean: seq<string>,
                       current: Option<Id>, created: seq<Id>)
    requires Forest(start) && Forest(now) && ReachedBy(start, now, collection, parent, clean, current, created)
    ensures !FileOnTheWay(start, collection, ParentNames(start, parent), clean)
  {
    var above := ParentNames(start, parent);
    forall f, k ensures !FileAt(start, collection, above, clean, f, k) {
      if FileAt(start, collection, above, clean, f, k) {
        NamesStay(start, now, created, f);
        RootNames(now, current);
        assert Placed(now, current.value) && Placed(now, f);
        var a := AncestorAt(now, current.value, |above| + k + 1);
        assert Names(now, current.value)[..|above| + k + 1] == above + clean[..k + 1];
        NamesDetermine(now, a, f);
        assert false;
      }
    }
  }

  lemma IsUploaded(before: Nodes, others: Nodes, now: Nodes, collection: Id, parent: Option<Id>, folders: seq<string>,
                   name: string, contentType: Option<string>, bytes: string, r: Upload)
    requires r.file in now && r.file !in others && now == others[r.file := now[r.file]]
    requires ReachedBy(before, others, collection, parent, folders, now[r.file].parent, r.created)
    requires Deduped(name, NamesIn(others, collection, now[r.file].parent), now[r.file].name)
    requires now[r.file] == Node(collection, now[r.file].parent, File, now[r.file].name, now[r.file].contentType, Some(bytes))
    requires IsTypeOf(contentType, now[r.file].contentType)
    ensures Uploaded(before, now, collection, parent, folders, name, contentType, bytes, r)
  {
    assert now - {r.file} == others;
    assert r.file !in Elements(r.created);
  }

  /** The path of an uploaded file: the folder it was sent to, the relative folders, its name. */
  lemma UploadedAt(before: Nodes, now: Nodes, collection: Id, parent: Option<Id>, folders: seq<string>, name: string,
                   contentType: Option<string>, bytes: string, r: Upload)
    requires Forest(now) && Uploaded(before, now, collection, parent, folders, name, contentType, bytes, r)
    ensures parent.Some? ==> Rooted(before, parent.value)
    ensures Rooted(now, r.file) && Names(now, r.file) == ParentNames(before, parent) + folders + [now[r.file].name]
  {
    assert Placed(now, r.file);
    NamesStep(now, r.file);
    var others, p := now - {r.file}, now[r.file].parent;
    assert Grown(others, now, [r.file]);
    if p.Some? {
      NamesStay(others, now, [r.file], p.value);
    }
  }

  /** A move carries the subtree along: what is below keeps its place relative to the node. */
  lemma {:induction false} MoveCarries(nodes: Nodes, id: Id, moved: Node, x: Id)
    requires Forest(nodes) && id in nodes && x in nodes && MayMoveTo(nodes, id, moved.parent) && FreeFor(nodes, id, moved)
    requires PathSafe(moved.name) && moved == nodes[id].(parent := moved.parent, name := moved.name)
    requires Placed(nodes, id) && Placed(nodes, x)
    ensures var now := nodes[id := moved];
            && Rooted(now, x) && Rooted(now, id) && (Below(now, id, x) <==> Below(nodes, id, x))
            && (!Below(nodes, id, x) ==> Names(now, x) == Names(nodes, x))
            && (Below(nodes, id, x) ==> SamePlace(nodes, x, id, now, x, id))
    decreases |Chain(nodes, x)|
  {
    var now := nodes[id := moved];
    Moved(nodes, id, moved);
    assert Placed(now, x) && Placed(now, id);
    NamesStep(nodes, x);
    NamesStep(now, x);
    ChainStep(nodes, x);
    BelowStep(nodes, id, x);
    BelowStep(now, id, x);
    if x == id {
      SamePlaceTop(nodes, id, now, id);
    } else if nodes[x].parent.Some? {
      var p := nodes[x].parent.value;
      assert Placed(nodes, p);
      MoveCarries(nodes, id, moved, p);
      if Below(nodes, id, p) {
        SamePlaceStep(nodes, x, id, now, x, id);
      }
    }
  }

  /** Printing and resolving: the path of a node leads back to it, and to nothing else. */
  lemma PathRoundTrip(nodes: Nodes, id: Id, x: Id)
    requires Forest(nodes) && id in nodes && Placed(nodes, id)
    ensures Resolves(nodes, nodes[id].collection, PathText(Names(nodes, id)), x) <==> x == id
  {
    NamesSafe(nodes, id);
    SegmentsOfPath(Names(nodes, id));
    if Resolves(nodes, nodes[id].collection, PathText(Names(nodes, id)), x) {
      assert Placed(nodes, x);
      NamesDetermine(nodes, id, x);
    }
  }

  lemma PathsDiffer(nodes: Nodes, a: Id, b: Id)
    requires Forest(nodes) && a in nodes && b in nodes && a != b && nodes[a].collection == nodes[b].collection
    requires Placed(nodes, a) && Placed(nodes, b)
    ensures PathText(Names(nodes, a)) != PathText(Names(nodes, b))
  {
    PathRoundTrip(nodes, a, b);
    PathRoundTrip(nodes, b, b);
  }
}
