/** The cache of loaded nodes against the disk. */
module NodeCaches {
  import opened ByteStrings
  import opened Errno
  import opened Options
  import opened Orders
  import opened Paths
  import opened NodeRecords
  import opened Trees
  import opened TreeChanges

  /** A node object in memory. */
  datatype Handle = Handle(uuid: Bytes, node: Node)

  const ROOT_PATH: Bytes := [SLASH]

  /** The supernode of a new filesystem. */
  const EMPTY_ROOT: Node := Node(RootKind, ROOT_PATH, map[], map[], [], false)

  /** The tree of a new filesystem. */
  const NEW_TREE: Tree := map[ROOT_UUID := EMPTY_ROOT]

  // ----- resolving path strings -----

  /** `_retrieve_node`: it stops for every string. */
  function RetrieveFrom(disk: Tree, from: Handle, path: Bytes): Option<Handle>
    decreases |path|
  {
    if path == [] then Some(from) else
    var name := ParentPath(path);
    if name !in from.node.entries then None else
    var child := Load(disk, from.node.entries[name]);
    if child.None? then None else
    ChildIsShorter(path);
    RetrieveFrom(disk, Handle(from.node.entries[name], child.value), ChildPath(path))
  }

  /** The node that the names lead to, as the disk has it. */
  function NodeAt(disk: Tree, u: Bytes, cs: seq<Bytes>): Option<Handle>
    requires u in disk
  {
    if Walk(disk, u, cs).None? then None else Some(Handle(Walk(disk, u, cs).value, disk[Walk(disk, u, cs).value]))
  }

  lemma {:induction false} RetrieveIsWalk(disk: Tree, u: Bytes, cs: seq<Bytes>)
    requires u in disk && Names(cs)
    ensures RetrieveFrom(disk, Handle(u, disk[u]), RelativeOf(cs)) == NodeAt(disk, u, cs)
    decreases |cs|
  {
    if cs != [] {
      SplitFirst(cs);
      hide Clean, ParentPath, ChildPath, RelativeOf, IsName;
      if Lookup(disk, u, cs[0]).Some? {
        RetrieveIsWalk(disk, Lookup(disk, u, cs[0]).value, cs[1..]);
      }
    }
  }

  /** Resolving any string is folding entry lookup over its names; without a leading slash the first name is skipped. */
  lemma RetrieveIsResolve(disk: Tree, path: Bytes)
    requires ROOT_UUID in disk
    ensures RetrieveFrom(disk, Handle(ROOT_UUID, disk[ROOT_UUID]), ChildPath(path))
      == NodeAt(disk, ROOT_UUID, if Absolute(path) || path == [] then Components(path) else Components(path)[1..])
  {
    hide RetrieveFrom, NodeAt, Walk;
    var cs := Components(path);
    if Absolute(path) {
      ChildOfAbsolute(path);
      RetrieveIsWalk(disk, ROOT_UUID, cs);
    } else if path == [] {
      RetrieveIsWalk(disk, ROOT_UUID, []);
    } else {
      ChildOfRelative(path);
      RetrieveIsWalk(disk, ROOT_UUID, cs[1..]);
    }
  }

  /** What walking from the supernode finds for a clean path. */
  lemma RetrieveFinds(disk: Tree, path: Bytes)
    requires IsTree(disk) && IsPath(path)
    ensures var r := RetrieveFrom(disk, Handle(ROOT_UUID, disk[ROOT_UUID]), ChildPath(path));
      && Resolve(disk, Components(path)) == (if r.None? then None else Some(r.value.uuid))
      && (r.Some? ==> r.value.uuid in disk && r.value.node == disk[r.value.uuid])
  {
    RetrieveIsResolve(disk, path);
    hide RetrieveFrom, Walk, Components, IsTree;
  }

  lemma NoStep(disk: Tree, from: Handle, path: Bytes)
    requires path == []
    ensures RetrieveFrom(disk, from, path) == Some(from)
  {
  }

  /** One step of the walk. */
  lemma RetrieveStep(disk: Tree, from: Handle, path: Bytes)
    requires path != []
    ensures var name := ParentPath(path);
      && |ChildPath(path)| < |path|
      && RetrieveFrom(disk, from, path)
         == if name !in from.node.entries || Load(disk, from.node.entries[name]).None? then None
            else RetrieveFrom(disk, Handle(from.node.entries[name], Load(disk, from.node.entries[name]).value),
                              ChildPath(path))
  {
    ChildIsShorter(path);
  }

  /** The directory of a path and what it resolves to. */
  lemma DirectoryNames(path: Bytes)
    requires IsPath(path)
    ensures IsPath(DirectoryPath(path)) && Components(DirectoryPath(path)) == Init(Components(path))
    ensures RelativePath(path) == Last(Components(path)) && Names(Components(path))
    ensures DirectoryPath(path) == ROOT_PATH <==> Init(Components(path)) == []
  {
    DirectoryIsPath(path);
    PathIsItsNames(path);
    PathIsItsNames(DirectoryPath(path));
  }

  /** A clean path other than the root resolves to its last name, looked up in what its directory part resolves to. */
  lemma ResolvesInDirectory(disk: Tree, path: Bytes)
    requires IsPath(path) && path != ROOT_PATH
    ensures var dir := Resolve(disk, Components(DirectoryPath(path)));
      Resolve(disk, Components(path)) == if dir.None? then None else Lookup(disk, dir.value, RelativePath(path))
  {
    hide Lookup, Walk;
    PathIsItsNames(path);
    DirectoryNames(path);
    ResolveLast(disk, Components(path));
  }

  // ----- what is cached -----

  /** The cached object of a path is what the disk has for that path. */
  ghost predicate Current(disk: Tree, path: Bytes, h: Handle) {
    IsPath(path) && path != ROOT_PATH
    && Resolve(disk, Components(path)) == Some(h.uuid) && h.uuid in disk && disk[h.uuid] == h.node
  }

  ghost predicate AllCurrent(disk: Tree, loaded: map<Bytes, Handle>) {
    forall p :: p in loaded ==> Current(disk, p, loaded[p])
  }

  ghost predicate Synced(disk: Tree, supernode: Node, loaded: map<Bytes, Handle>) {
    && IsTree(disk) && disk[ROOT_UUID] == supernode && supernode.name == ROOT_PATH && AllCurrent(disk, loaded)
  }

  /** The cache key of a path: the supernode is not in the cache. */
  function Key(path: Bytes): set<Bytes> {
    if path == ROOT_PATH then {} else {path}
  }

  /** Two clean paths with the same names are one. */
  lemma SamePath(a: Bytes, b: Bytes)
    requires IsPath(a) && IsPath(b)
    ensures a == b <==> Components(a) == Components(b)
  {
    PathIsItsNames(a);
    PathIsItsNames(b);
  }

  lemma RootAlone(t: Tree, cs: seq<Bytes>)
    requires IsTree(t)
    ensures ROOT_UUID in t && t[ROOT_UUID].kind == RootKind
    ensures Resolve(t, cs).Some? ==> Resolve(t, cs).value in t
    ensures Init(cs) == [] ==> Resolve(t, Init(cs)) == Some(ROOT_UUID)
    ensures Resolve(t, Init(cs)).Some? ==> Resolve(t, Init(cs)).value in t
  {
  }

  lemma RootHasNoNames(t: Tree, path: Bytes)
    requires IsPath(path) && path == ROOT_PATH
    ensures Resolve(t, Components(path)) == Some(ROOT_UUID)
  {
    PathIsItsNames(path);
  }

  lemma EmptyIsTree(t: Tree)
    requires t == NEW_TREE
    ensures IsTree(t)
  {
    assert Resolve(t, []) == Some(ROOT_UUID);
    assert forall u :: u in t ==> Reachable(t, u);
  }

  /** What an operation on the entry `cs` of the node `u` leaves as it was: other nodes, and the paths to them. */
  ghost predicate Spares(t: Tree, t': Tree, u: Bytes, w: Bytes) {
    forall v :: v in t && v != u && v != w ==> v in t' && t'[v] == t[v]
  }

  /** Cached objects other than those of the changed nodes stay current. */
  lemma StillCurrent(t: Tree, t': Tree, loaded: map<Bytes, Handle>, u: Bytes, w: Bytes, dir: Bytes, path: Bytes)
    requires IsTree(t) && AllCurrent(t, loaded) && Spares(t, t', u, w)
    requires IsPath(dir) && Resolve(t, Components(dir)) == Some(u)
    requires Resolve(t, Components(path)).Some? ==> Resolve(t, Components(path)) == Some(w)
    requires forall p :: p in loaded ==> Resolve(t', Components(p)) == Resolve(t, Components(p))
    requires forall p :: p in loaded ==> Resolve(t, Components(p)) != Some(w)
    ensures AllCurrent(t', loaded - Key(dir))
  {
    forall p | p in loaded - Key(dir)
      ensures Current(t', p, loaded[p])
    {
      assert Current(t, p, loaded[p]);
      if loaded[p].uuid == u {
        PathsAreUnique(t, Components(p), Components(dir));
        SamePath(p, dir);
      }
    }
  }

  /** The supernode changes only through entries of its own. */
  lemma RootSpared(t: Tree, t': Tree, u: Bytes, w: Bytes, cs: seq<Bytes>)
    requires IsTree(t) && Spares(t, t', u, w) && Resolve(t, Init(cs)) == Some(u) && Edge(t, u, Last(cs), w)
    ensures Init(cs) != [] ==> ROOT_UUID in t' && t'[ROOT_UUID] == t[ROOT_UUID]
    ensures Init(cs) == [] ==> u == ROOT_UUID
    ensures u != w && w != ROOT_UUID
  {
    assert Resolve(t, []) == Some(ROOT_UUID);
    NoLoop(t, u, Last(cs));
    assert GoodEdge(t, u, Last(cs), w);
    if Init(cs) != [] && u == ROOT_UUID {
      PathsAreUnique(t, Init(cs), []);
    }
  }

  lemma OneMoreCurrent(t: Tree, loaded: map<Bytes, Handle>, path: Bytes, h: Handle)
    requires AllCurrent(t, loaded) && Current(t, path, h)
    ensures AllCurrent(t, loaded[path := h])
  {
    hide Current;
  }

  /** A relative path is never a cache key: it has no leading slash. */
  lemma NotCached(t: Tree, loaded: map<Bytes, Handle>, name: Bytes, path: Bytes)
    requires AllCurrent(t, loaded) && IsPath(path) && name == RelativePath(path)
    ensures name !in loaded
  {
    DirectoryNames(path);
    var cs := Components(path);
    assert cs != [] ==> Last(cs) in cs;
    assert name != [] ==> name[0] in name;
    assert !IsPath(name);
    assert name in loaded ==> Current(t, name, loaded[name]);
  }

  // ----- creating -----

  function CreateCached(t: Tree, cached: set<Bytes>, path: Bytes, kind: Kind): set<Bytes> {
    if Resolve(t, Components(path)).Some? then cached - Key(path)
    else if Resolve(t, Init(Components(path))).None? then cached
    else cached - Key(DirectoryPath(path)) + (if kind == FileKind then {path} else {})
  }

  /** Creating below a file is outside the domain: the entry would be lost. */
  predicate InDirectory(t: Tree, path: Bytes) {
    var u := Resolve(t, Init(Components(path)));
    u.Some? && u.value in t ==> t[u.value].kind != FileKind
  }

  lemma CreatedNode(t: Tree, cs: seq<Bytes>, kind: Kind, uuid: Bytes, user: Bytes)
    requires CreateIn(t, cs, kind, uuid, user).0 == 0
    ensures var t' := CreateIn(t, cs, kind, uuid, user).1; uuid in t' && t'[uuid] == NewNode(kind, Last(cs), user)
  {
  }

  lemma CreateSpares(t: Tree, cs: seq<Bytes>, kind: Kind, uuid: Bytes, user: Bytes)
    requires IsTree(t) && uuid !in t && kind != RootKind && CreateIn(t, cs, kind, uuid, user).0 == 0
    requires t[Resolve(t, Init(cs)).value].kind != FileKind
    ensures var t', u := CreateIn(t, cs, kind, uuid, user).1, Resolve(t, Init(cs)).value;
      && Spares(t, t', u, uuid) && ROOT_UUID in t' && t'[ROOT_UUID].name == t[ROOT_UUID].name
      && (Init(cs) != [] ==> t'[ROOT_UUID] == t[ROOT_UUID])
  {
    hide IsTree, Resolve, CreateIn, NewNode;
    CreateEdges(t, cs, kind, uuid, user);
    RootAlone(t, []);
    if Init(cs) != [] && Resolve(t, Init(cs)).value == ROOT_UUID {
      PathsAreUnique(t, Init(cs), []);
    }
  }

  lemma CreateSyncs(t: Tree, supernode: Node, loaded: map<Bytes, Handle>, path: Bytes, kind: Kind, uuid: Bytes,
                    user: Bytes)
    requires Synced(t, supernode, loaded) && IsPath(path) && uuid !in t && kind != RootKind && InDirectory(t, path)
    requires CreateIn(t, Components(path), kind, uuid, user).0 == 0
    ensures var t' := CreateIn(t, Components(path), kind, uuid, user).1;
      && IsTree(t') && AllCurrent(t', loaded - Key(DirectoryPath(path)))
      && Current(t', path, Handle(uuid, NewNode(kind, Last(Components(path)), user))) && path !in loaded
      && t'[ROOT_UUID].name == ROOT_PATH && path != DirectoryPath(path)
      && (DirectoryPath(path) != ROOT_PATH ==> t'[ROOT_UUID] == supernode)
  {
    hide IsTree, Resolve, CreateIn, Components, IsPath, DirectoryPath, Spares;
    var cs := Components(path);
    var t' := CreateIn(t, cs, kind, uuid, user).1;
    DirectoryNames(path);
    PathIsItsNames(path);
    CreateEdges(t, cs, kind, uuid, user);
    CreateKeepsTree(t, cs, kind, uuid, user);
    CreatedNode(t, cs, kind, uuid, user);
    var u := Resolve(t, Init(cs)).value;
    forall p | p in loaded
      ensures Resolve(t', Components(p)) == Resolve(t, Components(p)) && Resolve(t, Components(p)) != Some(uuid)
      ensures p != path
    {
      assert Current(t, p, loaded[p]);
      CreateResolves(t, cs, kind, uuid, user, Components(p));
    }
    CreateResolves(t, cs, kind, uuid, user, cs);
    CreateSpares(t, cs, kind, uuid, user);
    StillCurrent(t, t', loaded, u, uuid, DirectoryPath(path), path);
    SamePath(path, DirectoryPath(path));
  }

  lemma ChildWritten(t: Tree, path: Bytes, kind: Kind, uuid: Bytes, user: Bytes, parent: Handle, p: Handle,
                     child: Handle)
    requires IsTree(t) && IsPath(path) && uuid !in t && InDirectory(t, path) && kind != RootKind
    requires CreateIn(t, Components(path), kind, uuid, user).0 == 0
    requires Resolve(t, Init(Components(path))) == Some(parent.uuid) && parent.uuid in t
    requires parent.node == t[parent.uuid]
    requires p == parent.(node := parent.node.(entries := Insert(parent.node.entries, Last(Components(path)), uuid)))
    requires child == Handle(uuid, NewNode(kind, Last(Components(path)), user))
    ensures var t' := CreateIn(t, Components(path), kind, uuid, user).1;
      && t' == Save(Save(t, p.uuid, p.node), uuid, child.node) && uuid != ROOT_UUID && ROOT_UUID in t
      && t'[ROOT_UUID] == (if DirectoryPath(path) == ROOT_PATH || p.uuid == ROOT_UUID then p.node else t[ROOT_UUID])
  {
    hide Components, IsPath, Resolve;
    DirectoryNames(path);
    RootAlone(t, Components(path));
  }

  /** What memory and disk hold when a creation is done. */
  lemma ChildAdded(t: Tree, supernode: Node, loaded: map<Bytes, Handle>, path: Bytes, kind: Kind, uuid: Bytes,
                   user: Bytes, parent: Handle, p: Handle, child: Handle)
    requires Synced(t, supernode, loaded) && IsPath(path) && uuid !in t && InDirectory(t, path) && kind != RootKind
    requires CreateIn(t, Components(path), kind, uuid, user).0 == 0
    requires Resolve(t, Init(Components(path))) == Some(parent.uuid) && parent.uuid in t
    requires parent.node == t[parent.uuid]
    requires p == parent.(node := parent.node.(entries := Insert(parent.node.entries, Last(Components(path)), uuid)))
    requires child == Handle(uuid, NewNode(kind, Last(Components(path)), user))
    ensures var dir := DirectoryPath(path);
            var t' := Save(Save(t, p.uuid, p.node), uuid, child.node);
      && t' == CreateIn(t, Components(path), kind, uuid, user).1
      && path !in loaded && path != dir && (dir == ROOT_PATH ==> p.node.name == ROOT_PATH)
      && Synced(t', if dir == ROOT_PATH then p.node else supernode,
                if kind == FileKind then (loaded - Key(dir))[path := child] else loaded - Key(dir))
  {
    hide IsTree, Resolve, Components, IsPath, DirectoryPath, AllCurrent, CreateIn, InDirectory, NewNode, Save;
    CreateSyncs(t, supernode, loaded, path, kind, uuid, user);
    ChildWritten(t, path, kind, uuid, user, parent, p, child);
    var kept := loaded - Key(DirectoryPath(path));
    OneMoreCurrent(CreateIn(t, Components(path), kind, uuid, user).1, kept, path, child);
    assert Synced(t, supernode, loaded);
  }

  // ----- removing -----

  function UnlinkCached(t: Tree, cached: set<Bytes>, path: Bytes, user: Bytes): set<Bytes> {
    var dir := Resolve(t, Init(Components(path)));
    if dir.None? || dir.value !in t then cached
    else if Last(Components(path)) !in t[dir.value].entries then cached - Key(DirectoryPath(path))
    else
      var r := UnlinkIn(t, Components(path), user).0;
      if r == -ENOENT then cached + Key(DirectoryPath(path))
      else if r == -EACCES then cached - Key(DirectoryPath(path))
      else cached - Key(path) - Key(DirectoryPath(path))
  }

  function RmdirCached(t: Tree, cached: set<Bytes>, path: Bytes): set<Bytes> {
    if Resolve(t, Init(Components(path))).None? then cached else cached - Key(DirectoryPath(path))
  }

  lemma RemoveSyncs(t: Tree, supernode: Node, loaded: map<Bytes, Handle>, path: Bytes, u: Bytes, w: Bytes)
    requires Synced(t, supernode, loaded) && IsPath(path) && Components(path) != []
    requires Resolve(t, Init(Components(path))) == Some(u) && Edge(t, u, Last(Components(path)), w)
    requires t[w].entries == map[]
    ensures var t' := Remove(t, u, Last(Components(path)), w);
      && IsTree(t') && AllCurrent(t', loaded - Key(path) - Key(DirectoryPath(path)))
      && t'[ROOT_UUID].name == ROOT_PATH && (DirectoryPath(path) != ROOT_PATH ==> t'[ROOT_UUID] == supernode)
      && (DirectoryPath(path) == ROOT_PATH ==> u == ROOT_UUID)
  {
    var cs := Components(path);
    var t', kept := Remove(t, u, Last(cs), w), loaded - Key(path);
    DirectoryNames(path);
    RemoveKeepsTree(t, cs, u, w);
    ResolveLast(t, cs);
    EntryLooksUp(t, u, Last(cs));
    PathIsItsNames(path);
    forall p | p in kept
      ensures Resolve(t', Components(p)) == Resolve(t, Components(p)) && Resolve(t, Components(p)) != Some(w)
    {
      assert Current(t, p, loaded[p]);
      SamePath(p, path);
      RemoveResolves(t, cs, u, w, Components(p));
      if Resolve(t, Components(p)) == Some(w) {
        PathsAreUnique(t, Components(p), cs);
      }
    }
    StillCurrent(t, t', kept, u, w, DirectoryPath(path), path);
    RootSpared(t, t', u, w, cs);
  }

  /** A cached directory that is removed is stale afterwards; if it is not cached, nothing is. */
  lemma RmdirStaysCurrent(t: Tree, supernode: Node, loaded: map<Bytes, Handle>, path: Bytes, user: Bytes)
    requires Synced(t, supernode, loaded) && IsPath(path) && RmdirIn(t, Components(path), user).0 == 0
    ensures AllCurrent(RmdirIn(t, Components(path), user).1, loaded - Key(DirectoryPath(path))) <==> path !in loaded
  {
    var t', cs := RmdirIn(t, Components(path), user).1, Components(path);
    hide IsTree, RmdirIn, Resolve;
    RmdirRemoves(t, cs, user);
    DirectoryNames(path);
    RemoveSyncs(t, supernode, loaded, path, Resolve(t, Init(cs)).value, Resolve(t, cs).value);
    RmdirKeepsTree(t, cs, user, cs);
    if path in loaded {
      assert path in loaded - Key(DirectoryPath(path));
      assert !Current(t', path, loaded[path]);
    } else {
      assert loaded - Key(path) == loaded;
    }
  }

  // ----- renaming -----

  /** A refusal because the new path exists frees the wrong key: parent and new child stay. */
  function RenameCached(t: Tree, cached: set<Bytes>, was: Bytes, now: Bytes): set<Bytes> {
    if DirectoryPath(was) != DirectoryPath(now) || Resolve(t, Init(Components(was))).None? then cached
    else if Resolve(t, Components(now)).Some? then cached + Key(DirectoryPath(was)) + Key(now)
    else cached - Key(DirectoryPath(was))
  }

  /** No cached path is `path` or below it. */
  ghost predicate NotCachedBelow(cached: set<Bytes>, path: Bytes) {
    forall p :: p in cached ==> !(Components(path) <= Components(p))
  }

  lemma RenameSyncs(t: Tree, supernode: Node, loaded: map<Bytes, Handle>, was: Bytes, now: Bytes)
    requires Synced(t, supernode, loaded) && IsPath(was) && IsPath(now) && NotCachedBelow(loaded.Keys, was)
    requires RenameIn(t, Components(was), Components(now)).0 == 0
    ensures var t' := RenameIn(t, Components(was), Components(now)).1;
      && IsTree(t') && AllCurrent(t', loaded - Key(DirectoryPath(was)))
      && t'[ROOT_UUID].name == ROOT_PATH && (DirectoryPath(was) != ROOT_PATH ==> t'[ROOT_UUID] == supernode)
      && (DirectoryPath(was) == ROOT_PATH ==> Resolve(t, Init(Components(was))) == Some(ROOT_UUID))
  {
    var a, b := Components(was), Components(now);
    var t' := RenameIn(t, a, b).1;
    DirectoryNames(was);
    PathIsItsNames(now);
    RenameRelabels(t, a, b);
    RenameKeepsTree(t, a, b);
    var u, w := Resolve(t, Init(a)).value, Resolve(t, a).value;
    forall p | p in loaded
      ensures Resolve(t', Components(p)) == Resolve(t, Components(p)) && Resolve(t, Components(p)) != Some(w)
    {
      assert Current(t, p, loaded[p]);
      RenameMoves(t, a, b, Components(p));
      if b <= Components(p) {
        NothingBelow(t, b, Components(p));
      }
      if Resolve(t, Components(p)) == Some(w) {
        PathsAreUnique(t, Components(p), a);
      }
    }
    StillCurrent(t, t', loaded, u, w, DirectoryPath(was), was);
    RootSpared(t, t', u, w, a);
  }

  /** A cached node at or below a renamed path is stale afterwards; if there is none, nothing is. */
  lemma RenameStaysCurrent(t: Tree, supernode: Node, loaded: map<Bytes, Handle>, was: Bytes, now: Bytes)
    requires Synced(t, supernode, loaded) && IsPath(was) && IsPath(now)
    requires RenameIn(t, Components(was), Components(now)).0 == 0
    ensures AllCurrent(RenameIn(t, Components(was), Components(now)).1, loaded - Key(DirectoryPath(was)))
            <==> NotCachedBelow(loaded.Keys, was)
  {
    var t', a, b := RenameIn(t, Components(was), Components(now)).1, Components(was), Components(now);
    hide IsTree, RenameIn, Resolve;
    RenameRelabels(t, a, b);
    DirectoryNames(was);
    if NotCachedBelow(loaded.Keys, was) {
      RenameSyncs(t, supernode, loaded, was, now);
    } else {
      var p :| p in loaded && a <= Components(p);
      RenameMoves(t, a, b, Components(p));
      SameLast(a, b);
      assert p in loaded - Key(DirectoryPath(was));
      assert !(b <= Components(p));
      assert !Current(t', p, loaded[p]);
    }
  }

  // ----- rights, listings and types -----

  function EditCached(t: Tree, cached: set<Bytes>, path: Bytes, known: bool): set<Bytes> {
    if Resolve(t, Components(path)).None? then cached
    else if !known then cached + Key(path) else cached - Key(path)
  }

  lemma StaysResolved(t: Tree, loaded: map<Bytes, Handle>, path: Bytes, h: Handle, node: Node)
    requires IsTree(t) && h.uuid in t && SameShape(t[h.uuid], node)
    ensures Resolve(t[h.uuid := node], Components(path)) == Resolve(t, Components(path))
    ensures forall p :: p in loaded ==> Resolve(t[h.uuid := node], Components(p)) == Resolve(t, Components(p))
  {
    hide IsTree, Resolve, Components;
    ShapeKeepsTree(t, h.uuid, node, Components(path));
    forall p | p in loaded
      ensures Resolve(t[h.uuid := node], Components(p)) == Resolve(t, Components(p))
    {
      ShapeKeepsTree(t, h.uuid, node, Components(p));
    }
  }

  /** The node of a path is cached under that path only. */
  lemma OnlyCachedThere(t: Tree, loaded: map<Bytes, Handle>, path: Bytes, u: Bytes, p: Bytes)
    requires IsTree(t) && AllCurrent(t, loaded) && IsPath(path) && Resolve(t, Components(path)) == Some(u)
    requires p in loaded && p !in Key(path)
    ensures loaded[p].uuid in t && loaded[p].uuid != u
  {
    hide IsTree, Resolve, Components, IsPath;
    assert Current(t, p, loaded[p]);
    if loaded[p].uuid == u {
      PathsAreUnique(t, Components(p), Components(path));
      SamePath(p, path);
    }
  }

  lemma OthersCurrent(t: Tree, loaded: map<Bytes, Handle>, path: Bytes, h: Handle, node: Node)
    requires IsTree(t) && AllCurrent(t, loaded) && IsPath(path) && Resolve(t, Components(path)) == Some(h.uuid)
    requires h.uuid in t
    requires forall p :: p in loaded ==> Resolve(t[h.uuid := node], Components(p)) == Resolve(t, Components(p))
    ensures AllCurrent(t[h.uuid := node], loaded - Key(path))
  {
    hide IsTree, Resolve, Components, IsPath;
    forall p | p in loaded - Key(path)
      ensures Current(t[h.uuid := node], p, loaded[p])
    {
      OnlyCachedThere(t, loaded, path, h.uuid, p);
      assert Current(t, p, loaded[p]);
    }
  }

  /** A node whose rights or content change is current again once its cached object is the new one, or is gone. */
  lemma NodeChanged(t: Tree, supernode: Node, loaded: map<Bytes, Handle>, path: Bytes, h: Handle, node: Node)
    requires Synced(t, supernode, loaded) && IsPath(path) && Resolve(t, Components(path)) == Some(h.uuid)
    requires h.uuid in t && h.node == t[h.uuid] && h.node.kind != RootKind && SameShape(h.node, node)
    ensures var t' := t[h.uuid := node];
      && path != ROOT_PATH && Synced(t', supernode, loaded - Key(path))
      && Synced(t', supernode, loaded[path := Handle(h.uuid, node)])
  {
    hide IsTree, Resolve, Walk, Lookup, Components, IsPath;
    var t' := t[h.uuid := node];
    ShapeKeepsTree(t, h.uuid, node, []);
    RootAlone(t, Components(path));
    RootAlone(t', Components(path));
    if path == ROOT_PATH {
      RootHasNoNames(t, path);
    }
    StaysResolved(t, loaded, path, h, node);
    OthersCurrent(t, loaded, path, h, node);
    OneMoreCurrent(t', loaded - Key(path), path, Handle(h.uuid, node));
    assert (loaded - Key(path))[path := Handle(h.uuid, node)] == loaded[path := Handle(h.uuid, node)];
  }

  /** An edit that succeeds changes the rights of one node. */
  lemma EditedNode(t: Tree, cs: seq<Bytes>, rights: Rights, target: Bytes, known: bool, user: Bytes)
    requires IsTree(t) && EditIn(t, cs, rights, target, known, user).0 == 0
    ensures Resolve(t, cs).Some? && Resolve(t, cs).value in t
    ensures var u := Resolve(t, cs).value;
      && t[u].kind != RootKind
      && EditIn(t, cs, rights, target, known, user).1 == t[u := t[u].(rights := t[u].rights[CString(target) := rights])]
  {
    hide IsTree, Allows, CString;
    var u := Resolve(t, cs).value;
    if t[u].kind == FileKind {
      FilesAreLeaves(t, u);
    }
  }

  /** Whatever is found stays loaded. */
  function FoundCached(t: Tree, cached: set<Bytes>, path: Bytes): set<Bytes> {
    if Resolve(t, Components(path)).Some? then cached + Key(path) else cached
  }

  lemma FoundKeys(t: Tree, cached: set<Bytes>, path: Bytes)
    ensures FoundCached(t, cached, path) - Key(path) == cached - Key(path)
    ensures FoundCached(t, cached, path) == if Resolve(t, Components(path)).Some? then cached + Key(path) else cached
  {
  }

  function SizeCached(t: Tree, cached: set<Bytes>, path: Bytes): set<Bytes> {
    if FileAt(t, Components(path)).Some? then cached - Key(path) else FoundCached(t, cached, path)
  }

  function OpenCode(t: Tree, cs: seq<Bytes>, asked: Rights, user: Bytes): int {
    var u := Resolve(t, cs);
    if u.None? || u.value !in t || t[u.value].kind != FileKind then -ENOENT
    else if Allows(t[u.value], asked, user) then 0 else -EACCES
  }

  function TypeCode(t: Tree, cs: seq<Bytes>): int {
    var u := Resolve(t, cs);
    if u.None? || u.value !in t then -ENOENT else if t[u.value].kind == FileKind then EEXIST else EISDIR
  }
}
