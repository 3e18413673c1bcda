/** `create_file` and `create_directory`, on the host and in memory. */
module Creations {
  import opened ByteStrings
  import opened Errno
  import opened Options
  import opened Orders
  import opened SealedMetadata
  import opened NodeRecords
  import opened NodeRoundTrip
  import opened AccessRights
  import opened Paths
  import opened AuditLogs
  import opened MetadataFiles
  import opened FileStates
  import opened Trees
  import opened TreeChanges
  import opened TreeFiles
  import opened NodeCaches
  import opened FileSystemStates

  lemma AddElsewhere(t: Tree, logs: Logs, u: Bytes, w: Bytes, p: Node, c: Node, reason: Bytes)
    requires u in t && w !in t && logs.Keys == t.Keys
    ensures Elsewhere(t, t[u := p][w := c], logs, Noted(Noted(logs, u, reason), w, reason), {u, w})
    ensures var logs' := Noted(Noted(logs, u, reason), w, reason);
      logs'[u] == logs[u] + [reason] && logs'[w] == [reason] && logs'.Keys == t[u := p][w := c].Keys
  {
    assert [] + [reason] == [reason];
  }

  /** The parent with its new entry and the new node, as the code makes them and as the tree has them. */
  ghost predicate Creation(t: Tree, path: Bytes, kind: Kind, uuid: Bytes, user: Bytes, u: Bytes, p: Node, c: Node) {
    && IsPath(path) && uuid !in t && kind != RootKind && InDirectory(t, path)
    && CreateIn(t, Components(path), kind, uuid, user).0 == 0
    && Resolve(t, Init(Components(path))) == Some(u) && u in t
    && p == t[u].(entries := Insert(t[u].entries, Last(Components(path)), uuid))
    && c == NewNode(kind, Last(Components(path)), user)
  }

  lemma CreationTree(t: Tree, logs: Logs, path: Bytes, kind: Kind, uuid: Bytes, user: Bytes, u: Bytes, p: Node, c: Node,
                     reason: Bytes)
    requires IsTree(t) && Creation(t, path, kind, uuid, user, u, p, c)
    ensures CreateIn(t, Components(path), kind, uuid, user).1 == t[u := p][uuid := c]
    ensures CreateLogs(t, logs, Components(path), uuid, reason) == Noted(Noted(logs, u, reason), uuid, reason)
    ensures p.kind != FileKind && u != uuid && uuid != ROOT_UUID
    ensures u == ROOT_UUID <==> DirectoryPath(path) == ROOT_PATH
  {
    hide IsTree, Resolve, Components, IsPath, CreateIn, NewNode;
    DirectoryNames(path);
    CreateEdges(t, Components(path), kind, uuid, user);
    RootAlone(t, Components(path));
    if u == ROOT_UUID {
      RootPathAlone(t, Init(Components(path)));
    }
  }

  lemma CreationBegins(t: Tree, cached: set<Bytes>, path: Bytes, kind: Kind, uuid: Bytes, user: Bytes, u: Bytes,
                       p: Node, c: Node)
    requires IsTree(t) && IsPath(path) && uuid !in t && kind != RootKind && InDirectory(t, path)
    requires Resolve(t, Components(path)).None? && Resolve(t, Init(Components(path))) == Some(u)
    requires u in t ==> p == t[u].(entries := Insert(t[u].entries, Last(Components(path)), uuid))
    requires c == NewNode(kind, Last(Components(path)), user)
    ensures u in t && CreateIn(t, Components(path), kind, uuid, user).0 == 0
    ensures Creation(t, path, kind, uuid, user, u, p, c)
    ensures u == ROOT_UUID <==> DirectoryPath(path) == ROOT_PATH
    ensures CreateIn(t, Components(path), kind, uuid, user) == (0, CreateIn(t, Components(path), kind, uuid, user).1)
    ensures CreateCached(t, cached, path, kind)
      == cached - Key(DirectoryPath(path)) + (if kind == FileKind then {path} else {})
  {
    hide IsTree, Resolve, Components, IsPath, NewNode, InDirectory, DirectoryPath, Save;
    RootAlone(t, Components(path));
    CreationTree(t, map[], path, kind, uuid, user, u, p, c, []);
  }

  lemma CreationRefused(t: Tree, logs: Logs, cached: set<Bytes>, path: Bytes, kind: Kind, uuid: Bytes, user: Bytes,
                        reason: Bytes)
    requires Resolve(t, Components(path)).Some? || Resolve(t, Init(Components(path))).None?
    ensures CreateIn(t, Components(path), kind, uuid, user)
      == (if Resolve(t, Components(path)).Some? then -EEXIST else -ENOENT, t)
    ensures CreateLogs(t, logs, Components(path), uuid, reason) == logs
    ensures CreateCached(t, cached, path, kind)
      == if Resolve(t, Components(path)).Some? then cached - Key(path) else cached
  {
    hide Resolve, Components;
  }

  /** The state of a node object that `create_file` or `create_directory` makes. */
  ghost predicate NewState(kind: Kind, uuid: Bytes, name: Bytes, user: Bytes, c: NodeData) {
    && c == NodeData(ClassOf(kind).Code(), uuid, c.atime, c.mtime, c.ctime, name, map[],
                     map[CString(user) := OWNER_RIGHT], 0, map[], map[])
    && c.atime < SIZE_T_LIMIT && c.mtime < SIZE_T_LIMIT && c.ctime < SIZE_T_LIMIT
  }

  /** The new node can be written. */
  lemma ChildReady(h: Host, users: map<Bytes, User>, kind: Kind, uuid: Bytes, user: Bytes, name: Bytes, c: NodeData)
    requires h.bs > 0 && kind != RootKind && ValidUuid(uuid) && ValidUuid(user) && Gone(h, uuid)
    requires NewState(kind, uuid, name, user, c)
    requires SectionSize(users, h.bs, NewNode(kind, name, user)) < SECTION_LIMIT
    ensures var node := NewNode(kind, name, user);
      && node.kind == kind && WellFormed(ClassOf(kind), c) && Matches(uuid, c, node) && BodyShown(h, c, node)
      && Audited(h, uuid, [])
  {
    hide SectionSize, CString, Sensitive, Stored, Logged;
    var node := NewNode(kind, name, user);
    NameOfUuid(user);
    NewBody(h, c, node);
    NothingLogged(h.suite, h.audit, h.files, uuid);
    BodyKeysFit(h, c, node);
    SectionSizeExact(users, h.bs, uuid, c, node);
  }

  lemma NewStateUuid(kind: Kind, uuid: Bytes, name: Bytes, user: Bytes, c: NodeData)
    requires NewState(kind, uuid, name, user, c)
    ensures c.uuid == uuid
  {
  }

  lemma CreationReady(h: Host, users: map<Bytes, User>, t: Tree, logs: Logs, supernode: NodeData, path: Bytes,
                      kind: Kind, uuid: Bytes, user: Bytes, u: Bytes, d: NodeData, d': NodeData, c: NodeData, p: Node,
                      cn: Node)
    requires OnHost(h, t, logs, supernode) && Creation(t, path, kind, uuid, user, u, p, cn)
    requires NodeShown(h, u, d, t[u]) && d' == d.(entries := Insert(d.entries, Last(Components(path)), uuid))
    requires NewState(kind, uuid, Last(Components(path)), user, c) && ValidUuid(uuid) && ValidUuid(user)
    requires u == ROOT_UUID ==> d.users == users
    requires AllFit(users, h.bs, CreateIn(t, Components(path), kind, uuid, user).1)
    ensures WellFormed(ClassOf(p.kind), d') && Matches(u, d', p) && BodyShown(h, d', p) && u in logs
    ensures Audited(h, u, logs[u]) && u != uuid
    ensures WellFormed(ClassOf(kind), c) && Matches(uuid, c, cn) && BodyShown(h, c, cn) && Audited(h, uuid, [])
    ensures Gone(h, uuid)
    ensures cn.kind == kind && RelativePath(path) == Last(Components(path)) && uuid == c.uuid
    ensures supernode.path == ROOT_PATH && (DirectoryPath(path) == ROOT_PATH <==> u == ROOT_UUID)
    ensures u == ROOT_UUID ==> d'.path == ROOT_PATH
  {
    hide IsTree, Resolve, Components, IsPath, CreateIn, NodeShown, Logged, NewState, SectionSize, WellFormed,
         BodyShown, CString, LoadFile, DirectoryPath;
    CreationTree(t, logs, path, kind, uuid, user, u, p, cn, []);
    DirectoryNames(path);
    SupernodePath(h, t, logs, supernode, path);
    var t' := CreateIn(t, Components(path), kind, uuid, user).1;
    assert u in t' && t'[u] == p && uuid in t' && t'[uuid] == cn;
    NewStateUuid(kind, uuid, Last(Components(path)), user, c);
    ShownFacts(h, u, d, t[u]);
    RootIn(t);
    assert Shows(h, u, t[u], logs[u]);
    ParentReady(h, users, u, d, d', t[u], p);
    NothingLoads(h, h.root, t, logs, uuid);
    ChildReady(h, users, kind, uuid, user, Last(Components(path)), c);
  }

  lemma NotTheRoot(t: Tree, path: Bytes, kind: Kind, uuid: Bytes, user: Bytes)
    requires IsTree(t) && IsPath(path) && CreateIn(t, Components(path), kind, uuid, user).0 == 0
    ensures path != ROOT_PATH
  {
    hide IsTree, IsPath, Components;
    if path == ROOT_PATH {
      RootHasNoNames(t, path);
    }
  }

  /** What memory holds once the parent is freed. */
  lemma CreationLoaded(h: Host, h': Host, t: Tree, supernode: Node, loaded: map<Bytes, NodeData>,
                       cache: map<Bytes, Handle>, path: Bytes, kind: Kind, uuid: Bytes, user: Bytes, u: Bytes,
                       p: Node, c: Node, child: NodeData)
    requires Synced(t, supernode, cache) && LoadedShown(h, loaded, cache)
    requires Creation(t, path, kind, uuid, user, u, p, c)
    requires Touches(h, h', {u, uuid}) && NodeShown(h', uuid, child, c)
    ensures var dir, t' := DirectoryPath(path), CreateIn(t, Components(path), kind, uuid, user).1;
      && path !in loaded && path != dir && path != ROOT_PATH && IsTree(t') && t'[ROOT_UUID].name == ROOT_PATH
      && InMemory(h', t', if kind == FileKind then (loaded - Key(dir))[path := child] else loaded - Key(dir),
                  if kind == FileKind then (cache - Key(dir))[path := Handle(uuid, c)] else cache - Key(dir))
  {
    hide IsTree, Resolve, Components, IsPath, DirectoryPath, CreateIn, NodeShown, Touches, NewNode, Current, Insert,
         InDirectory;
    var dir := DirectoryPath(path);
    DirectoryNames(path);
    ChildAdded(t, supernode, cache, path, kind, uuid, user, Handle(u, t[u]), Handle(u, p), Handle(uuid, c));
    NotTheRoot(t, path, kind, uuid, user);
    forall q | q in cache && q !in Key(dir)
      ensures cache[q].uuid != uuid
    {
      OnlyCachedThere(t, cache, dir, u, q);
    }
    OthersStillLoaded(h, h', t, loaded, cache, dir, u, uuid, Key(dir));
    OneMoreLoaded(h', loaded - Key(dir), cache - Key(dir), path, child, Handle(uuid, c));
  }

  /** Changing the loaded parent, keeping the new node and freeing the parent. */
  lemma LoadedAfterCreation(loaded: map<Bytes, NodeData>, dir: Bytes, p: NodeData, path: Bytes, child: NodeData)
    requires path !in loaded && path != dir
    ensures var changed := if dir == ROOT_PATH then loaded else loaded[dir := p];
      && path !in changed && changed - Key(dir) == loaded - Key(dir)
      && changed[path := child] - Key(dir) == (loaded - Key(dir))[path := child]
      && ((loaded - Key(dir))[path := child]).Keys == loaded.Keys - Key(dir) + {path}
      && (loaded - Key(dir)).Keys == loaded.Keys - Key(dir)
  {
  }

  lemma CreationFrom(t: Tree, path: Bytes, kind: Kind, uuid: Bytes, user: Bytes, u: Bytes, p: Node, c: Node)
    requires Creation(t, path, kind, uuid, user, u, p, c)
    ensures u in t && uuid !in t
  {
  }

  /** What the host holds once both nodes are audited and written. */
  lemma CreationHosted(h: Host, h': Host, t: Tree, logs: Logs, supernode: NodeData, path: Bytes, kind: Kind,
                       uuid: Bytes, user: Bytes, reason: Bytes, u: Bytes, d: NodeData, p: Node, c: Node)
    requires OnHost(h, t, logs, supernode) && Creation(t, path, kind, uuid, user, u, p, c)
    requires Touches(h, h', {u, uuid}) && u in logs
    requires NodeShown(h', u, d, p) && Audited(h', u, logs[u] + [reason])
    requires OnDisk(h', uuid, c) && Audited(h', uuid, [reason])
    requires IsTree(CreateIn(t, Components(path), kind, uuid, user).1)
    requires CreateIn(t, Components(path), kind, uuid, user).1[ROOT_UUID].name == ROOT_PATH
    ensures OnHost(h', CreateIn(t, Components(path), kind, uuid, user).1,
                   CreateLogs(t, logs, Components(path), uuid, reason), if u == ROOT_UUID then d else supernode)
  {
    hide IsTree, Resolve, Components, IsPath, CreateIn, CreateLogs, NodeShown, Logged, Touches, Creation, NewNode;
    CreationTree(t, logs, path, kind, uuid, user, u, p, c, reason);
    LogKeys(h, t, logs, supernode);
    CreationFrom(t, path, kind, uuid, user, u, p, c);
    AddElsewhere(t, logs, u, uuid, p, c, reason);
    HostAfter(h, h', t, t[u := p][uuid := c], logs, Noted(Noted(logs, u, reason), uuid, reason), supernode,
              if u == ROOT_UUID then d else supernode, {u, uuid});
  }

  /** So host and memory are in step again. */
  lemma CreationDone(h: Host, h': Host, t: Tree, logs: Logs, supernode: NodeData, loaded: map<Bytes, NodeData>,
                     cache: map<Bytes, Handle>, path: Bytes, kind: Kind, uuid: Bytes, user: Bytes, reason: Bytes,
                     u: Bytes, d: NodeData, c: NodeData, p: Node, cn: Node)
    requires OnHost(h, t, logs, supernode) && InMemory(h, t, loaded, cache)
    requires Creation(t, path, kind, uuid, user, u, p, cn) && u in logs && Touches(h, h', {u, uuid})
    requires NodeShown(h', u, d, p) && Audited(h', u, logs[u] + [reason])
    requires NodeShown(h', uuid, c, cn) && Audited(h', uuid, [reason])
    ensures var dir, t' := DirectoryPath(path), CreateIn(t, Components(path), kind, uuid, user).1;
      && path !in loaded && path != dir && path != ROOT_PATH
      && OnHost(h', t', CreateLogs(t, logs, Components(path), uuid, reason), if u == ROOT_UUID then d else supernode)
      && InMemory(h', t', if kind == FileKind then (loaded - Key(dir))[path := c] else loaded - Key(dir),
                  if kind == FileKind then (cache - Key(dir))[path := Handle(uuid, cn)] else cache - Key(dir))
  {
    hide IsTree, Resolve, Components, IsPath, CreateIn, CreateLogs, NodeShown, Logged, Touches, Creation, NewNode,
         DirectoryPath, LoadedShown, AllCurrent;
    RootIn(t);
    CreationLoaded(h, h', t, t[ROOT_UUID], loaded, cache, path, kind, uuid, user, u, p, cn, c);
    CreationHosted(h, h', t, logs, supernode, path, kind, uuid, user, reason, u, d, p, cn);
  }
}
