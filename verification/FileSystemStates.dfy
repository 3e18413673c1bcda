/** What the filesystem keeps on the host and in memory, and how a change carries over. */
module FileSystemStates {
  import opened ByteStrings
  import opened Options
  import opened Crypto
  import opened SealedMetadata
  import opened NodeRecords
  import opened NodeRoundTrip
  import opened FilenodeContents
  import opened AccessRights
  import opened Paths
  import opened Disks
  import opened AuditLogs
  import opened MetadataFiles
  import opened FileStates
  import opened Trees
  import opened TreeFiles
  import opened NodeCaches

  /** The host holds the tree with its files and logs; the supernode in memory is the one on disk. */
  ghost predicate OnHost(h: Host, t: Tree, logs: Logs, supernode: NodeData) {
    && h.bs > 0 && IsTree(t) && t[ROOT_UUID].name == ROOT_PATH
    && Shown(h, t, logs) && NodeShown(h, ROOT_UUID, supernode, t[ROOT_UUID])
  }

  /** Every loaded node is the one of its handle. */
  ghost predicate LoadedShown(h: Host, loaded: map<Bytes, NodeData>, cache: map<Bytes, Handle>) {
    loaded.Keys == cache.Keys && forall p :: p in cache ==> NodeShown(h, cache[p].uuid, loaded[p], cache[p].node)
  }

  /** Every loaded node is what the host has for its path. */
  ghost predicate InMemory(h: Host, t: Tree, loaded: map<Bytes, NodeData>, cache: map<Bytes, Handle>) {
    AllCurrent(t, cache) && LoadedShown(h, loaded, cache)
  }

  /** What is loaded before and after is the same object. */
  predicate SameLoaded(before: map<Bytes, NodeData>, after: map<Bytes, NodeData>) {
    forall p :: p in before && p in after ==> after[p] == before[p]
  }

  /** `d` is the node that the path leads to, or there is none. */
  ghost predicate Found(h: Host, t: Tree, cs: seq<Bytes>, d: Option<NodeData>) {
    match Resolve(t, cs)
    case None => d.None?
    case Some(u) => u in t && d.Some? && NodeShown(h, u, d.value, t[u])
  }

  /** `d` is the node of the handle, or there is none. */
  ghost predicate Is(h: Host, handle: Option<Handle>, d: Option<NodeData>) {
    match handle
    case None => d.None?
    case Some(found) => d.Some? && NodeShown(h, found.uuid, d.value, found.node)
  }

  // ----- what a shown node tells -----

  /** The class of a node object, from its type. */
  function ClassOfType(typ: nat): Class {
    if typ == FILENODE_TYPE then FilenodeClass else if typ == DirnodeClass.Code() then DirnodeClass else SupernodeClass
  }

  lemma ShownFacts(h: Host, u: Bytes, d: NodeData, node: Node)
    requires NodeShown(h, u, d, node)
    ensures Matches(u, d, node) && WellFormed(ClassOf(node.kind), d) && BodyShown(h, d, node)
    ensures d.typ == ClassOf(node.kind).Code() && ClassOfType(d.typ) == ClassOf(node.kind) && ValidKeys(d.keys)
    ensures d.typ == FILENODE_TYPE <==> node.kind == FileKind
    ensures d.typ == DirnodeClass.Code() <==> node.kind == DirKind
  {
    hide LoadsAs, BodyShown;
    KeysAreValid(ClassOf(node.kind), d);
    TypeOf(ClassOf(node.kind), d);
    hide WellFormed;
  }

  lemma SameEntries(h: Host, u: Bytes, d: NodeData, node: Node)
    requires NodeShown(h, u, d, node)
    ensures d.uuid == u && d.path == node.name && d.entries == node.entries
  {
  }

  lemma ShownAllows(h: Host, u: Bytes, d: NodeData, node: Node, min: Rights, user: Bytes)
    requires NodeShown(h, u, d, node)
    ensures Permits(d.typ == SupernodeClass.Code(), d.entitlements, min, user) <==> Allows(node, min, user)
  {
    hide NodeShown, HasRights, HasUserRights;
    ShownFacts(h, u, d, node);
  }

  // ----- how a change carries over -----

  lemma RootIn(t: Tree)
    requires IsTree(t)
    ensures ROOT_UUID in t && t[ROOT_UUID].kind == RootKind
    ensures forall u :: u in t ==> (t[u].kind == RootKind <==> u == ROOT_UUID)
  {
  }

  lemma RootStays(t: Tree, t': Tree, logs: Logs, logs': Logs, us: set<Bytes>)
    requires Elsewhere(t, t', logs, logs', us) && ROOT_UUID in t && ROOT_UUID !in us
    ensures ROOT_UUID in t' && t'[ROOT_UUID] == t[ROOT_UUID]
  {
    assert SameNode(t, t', logs, logs', ROOT_UUID);
  }

  lemma SameSettings(h: Host, h': Host, us: set<Bytes>)
    requires Touches(h, h', us)
    ensures h' == h.(files := h'.files)
  {
  }

  lemma HostAfter(h: Host, h': Host, t: Tree, t': Tree, logs: Logs, logs': Logs, supernode: NodeData,
                  supernode': NodeData, us: set<Bytes>)
    requires OnHost(h, t, logs, supernode) && Touches(h, h', us) && Elsewhere(t, t', logs, logs', us)
    requires forall u :: u in us ==> if u in t' then Shows(h', u, t'[u], logs'[u]) else Gone(h', u)
    requires IsTree(t') && t'[ROOT_UUID].name == ROOT_PATH
    requires if ROOT_UUID in us then NodeShown(h', ROOT_UUID, supernode', t'[ROOT_UUID]) else supernode' == supernode
    ensures OnHost(h', t', logs', supernode')
  {
    hide Shown, NodeShown, IsTree, Shows, Gone, Touches, Elsewhere;
    ShownAfter(h, h', t, t', logs, logs', us);
    RootIn(t);
    if ROOT_UUID !in us {
      RootStays(t, t', logs, logs', us);
      NodeStillShown(h, h', us, ROOT_UUID, supernode, t[ROOT_UUID]);
    }
    SameSettings(h, h', us);
  }

  lemma StillLoaded(h: Host, h': Host, loaded: map<Bytes, NodeData>, cache: map<Bytes, Handle>, us: set<Bytes>)
    requires LoadedShown(h, loaded, cache) && Touches(h, h', us)
    requires forall p :: p in cache ==> cache[p].uuid !in us
    ensures LoadedShown(h', loaded, cache)
  {
    hide NodeShown, Touches;
    forall p | p in cache
      ensures NodeShown(h', cache[p].uuid, loaded[p], cache[p].node)
    {
      NodeStillShown(h, h', us, cache[p].uuid, loaded[p], cache[p].node);
    }
  }

  lemma Evicted(h: Host, t: Tree, loaded: map<Bytes, NodeData>, cache: map<Bytes, Handle>, keys: set<Bytes>)
    requires InMemory(h, t, loaded, cache)
    ensures InMemory(h, t, loaded - keys, cache - keys)
  {
    hide NodeShown, Current;
  }

  lemma OneMoreLoaded(h: Host, loaded: map<Bytes, NodeData>, cache: map<Bytes, Handle>, path: Bytes, d: NodeData,
                      handle: Handle)
    requires LoadedShown(h, loaded, cache) && NodeShown(h, handle.uuid, d, handle.node)
    ensures LoadedShown(h, loaded[path := d], cache[path := handle])
  {
    hide NodeShown;
  }

  /** Only the paths of changed nodes need to be evicted. */
  lemma OthersStillLoaded(h: Host, h': Host, t: Tree, loaded: map<Bytes, NodeData>, cache: map<Bytes, Handle>,
                          dir: Bytes, u: Bytes, w: Bytes, keys: set<Bytes>)
    requires IsTree(t) && InMemory(h, t, loaded, cache) && Touches(h, h', {u, w})
    requires IsPath(dir) && Resolve(t, Components(dir)) == Some(u) && Key(dir) <= keys
    requires forall p :: p in cache && p !in keys ==> cache[p].uuid != w
    ensures LoadedShown(h', loaded - keys, cache - keys)
  {
    hide NodeShown, Touches, IsTree, Resolve, Components, IsPath;
    Evicted(h, t, loaded, cache, keys);
    forall p | p in cache - keys
      ensures (cache - keys)[p].uuid !in {u, w}
    {
      OnlyCachedThere(t, cache, dir, u, p);
    }
    StillLoaded(h, h', loaded - keys, cache - keys, {u, w});
  }

  lemma SavedOnStore(h: Host, h': Host, root: GcmState, d: NodeData, node: Node, log: seq<Bytes>)
    requires h' == h.(files := h'.files) && h.root == root.(mac := h.root.mac)
    requires h'.files == h.files[(MetaDir, d.uuid) := FileOf(h'.files, MetaDir, d.uuid)]
    requires Matches(d.uuid, d, node) && WellFormed(ClassOf(node.kind), d) && BodyShown(h, d, node)
    requires Audited(h, d.uuid, log)
    requires LoadsAs(h.suite, root, ClassOf(node.kind), FileOf(h'.files, MetaDir, d.uuid), d)
    ensures Touches(h, h', {d.uuid}) && NodeShown(h', d.uuid, d, node) && Audited(h', d.uuid, log)
  {
    hide LoadsAs, WellFormed, NodeShown, BodyShown, Logged;
    LoadsUnderAnyTag(h.suite, root, h.root, ClassOf(node.kind), FileOf(h'.files, MetaDir, d.uuid), d);
    SavedShown(h, h', d.uuid, d, node);
    StillLogged(h.suite, h.audit, h.files, h'.files, d.uuid, log);
  }

  lemma AuditTouches(h: Host, h': Host, u: Bytes)
    requires h' == h.(files := h'.files) && h'.files == h.files[(AuditDir, u) := FileOf(h'.files, AuditDir, u)]
    ensures Touches(h, h', {u})
  {
    hide FileOf;
  }

  lemma NodeDeleted(h: Host, h': Host, u: Bytes)
    requires h' == h.(files := h'.files)
    requires h'.files == h.files - {(ContentDir, u)} - {(MetaDir, u)} - {(AuditDir, u)}
    ensures Touches(h, h', {u}) && Gone(h', u)
  {
    forall dir: Directory
      ensures (dir, u) !in h'.files
    {
      match dir
      case ContentDir =>
      case MetaDir =>
      case AuditDir =>
    }
  }

  lemma RootNamed(h: Host, t: Tree, logs: Logs, supernode: NodeData)
    requires OnHost(h, t, logs, supernode)
    ensures supernode.path == ROOT_PATH
  {
    hide IsTree, NodeShown, Shown;
    RootIn(t);
    ShownFacts(h, ROOT_UUID, supernode, t[ROOT_UUID]);
  }

  lemma RootFound(h: Host, t: Tree, supernode: NodeData)
    requires IsTree(t) && NodeShown(h, ROOT_UUID, supernode, t[ROOT_UUID])
    ensures Found(h, t, Components(ROOT_PATH), Some(supernode))
  {
    hide IsTree, NodeShown, Components, Resolve, Clean;
    RootIn(t);
    PathBack([]);
    RootHasNoNames(t, ROOT_PATH);
  }

  lemma SupernodePath(h: Host, t: Tree, logs: Logs, supernode: NodeData, path: Bytes)
    requires OnHost(h, t, logs, supernode) && IsPath(path)
    ensures supernode.path == ROOT_PATH && ROOT_UUID in t
    ensures path == ROOT_PATH ==> Found(h, t, Components(path), Some(supernode))
  {
    hide IsTree, NodeShown, Shown, IsPath, Components, Resolve, Found;
    RootIn(t);
    RootNamed(h, t, logs, supernode);
    RootFound(h, t, supernode);
  }

  lemma RelativeIsNoRoot(path: Bytes)
    requires IsPath(path)
    ensures RelativePath(path) != ROOT_PATH
  {
    hide IsPath, Components, RelativePath;
    DirectoryNames(path);
    if Components(path) != [] {
      assert Last(Components(path)) in Components(path);
    }
  }

  /** The cache has no relative paths. */
  lemma NotLoaded(h: Host, t: Tree, loaded: map<Bytes, NodeData>, cache: map<Bytes, Handle>, name: Bytes, path: Bytes)
    requires InMemory(h, t, loaded, cache) && IsPath(path) && name == RelativePath(path)
    ensures name !in loaded && name != ROOT_PATH && loaded.Keys - Key(name) == loaded.Keys
  {
    hide NodeShown, AllCurrent, IsPath, RelativePath;
    NotCached(t, cache, name, path);
    RelativeIsNoRoot(path);
  }

  lemma CachedFound(h: Host, t: Tree, loaded: map<Bytes, NodeData>, cache: map<Bytes, Handle>, path: Bytes)
    requires InMemory(h, t, loaded, cache) && path in loaded
    ensures Found(h, t, Components(path), Some(loaded[path]))
  {
    hide NodeShown, Resolve, Components, IsPath;
    assert Current(t, path, cache[path]);
  }

  lemma NewlyLoaded(h: Host, t: Tree, loaded: map<Bytes, NodeData>, cache: map<Bytes, Handle>, path: Bytes, d: NodeData,
                    handle: Handle)
    requires InMemory(h, t, loaded, cache) && IsPath(path) && path != ROOT_PATH
    requires Resolve(t, Components(path)) == Some(handle.uuid) && handle.uuid in t && handle.node == t[handle.uuid]
    requires NodeShown(h, handle.uuid, d, handle.node)
    ensures InMemory(h, t, loaded[path := d], cache[path := handle])
  {
    hide NodeShown, Resolve, Components, IsPath;
    OneMoreCurrent(t, cache, path, handle);
    OneMoreLoaded(h, loaded, cache, path, d, handle);
  }

  // ----- mounting again -----

  /** The supernode's blob loads as the supernode, but for the times. */
  lemma SupernodeOpens(h: Host, root: GcmState, supernode: NodeData, node: Node)
    requires NodeShown(h, ROOT_UUID, supernode, node) && node.kind == RootKind && root == h.root.(mac := root.mac)
    ensures var file := FileOf(h.files, MetaDir, ROOT_UUID);
            var p := OpenNode(h.suite, root, SupernodeClass, Blank(SupernodeClass), file);
      && file != [] && p.Done? && SameButTimes(p.value.0, supernode) && NodeShown(h, ROOT_UUID, p.value.0, node)
  {
    hide OpenNode, FileOf, WellFormed;
    var file := FileOf(h.files, MetaDir, ROOT_UUID);
    var d :| LoadsAs(h.suite, h.root, SupernodeClass, file, d) && SameButTimes(d, supernode);
    LoadedTimesFit(h.suite, h.root, SupernodeClass, file, d);
    TimesKeepSync(h.suite, h.root, SupernodeClass, h.files, supernode, d);
    LoadsUnderAnyTag(h.suite, h.root, root, SupernodeClass, file, d);
    LoadedTypes(h.suite, root, file);
    LoadGives(h.suite, root, SupernodeClass, file, Blank(SupernodeClass));
    hide LoadsAs, InSync;
  }

  lemma RemountHosted(h: Host, t: Tree, logs: Logs, supernode: NodeData, d: NodeData)
    requires OnHost(h, t, logs, supernode) && NodeShown(h, ROOT_UUID, d, t[ROOT_UUID])
    ensures OnHost(h, t, logs, d) && InMemory(h, t, map[], map[])
  {
    hide NodeShown, Shown, IsTree;
  }

  // ----- parents and paths -----

  lemma RootPathAlone(t: Tree, cs: seq<Bytes>)
    requires IsTree(t) && Resolve(t, cs) == Some(ROOT_UUID)
    ensures cs == []
  {
    PathsAreUnique(t, cs, []);
  }

  lemma WellFormedParts(cls: Class, d: NodeData)
    requires WellFormed(cls, d)
    ensures d.atime < SIZE_T_LIMIT && d.mtime < SIZE_T_LIMIT && d.ctime < SIZE_T_LIMIT
    ensures forall k :: k in d.entries ==> |d.entries[k]| == UUID_SIZE
    ensures forall k :: k in d.entitlements ==> UuidText(k)
    ensures cls == FilenodeClass ==> d.entries == map[]
  {
  }

  /** The changed parent can be written. */
  lemma ParentReady(h: Host, users: map<Bytes, User>, u: Bytes, d: NodeData, d': NodeData, node: Node, node': Node)
    requires h.bs > 0 && NodeShown(h, u, d, node) && node'.kind == node.kind != FileKind
    requires d' == d.(entries := d'.entries) && node' == node.(entries := d'.entries)
    requires forall k :: k in d'.entries && k !in d.entries ==> |d'.entries[k]| == UUID_SIZE
    requires forall k :: k in d'.entries && k in d.entries ==> d'.entries[k] == d.entries[k]
    requires node.kind == RootKind ==> d.users == users
    requires SectionSize(users, h.bs, node') < SECTION_LIMIT
    ensures WellFormed(ClassOf(node'.kind), d') && Matches(u, d', node') && BodyShown(h, d', node')
  {
    hide InSync, SectionSize, Stored;
    ShownFacts(h, u, d, node);
    BodySame(h, d, d', node, node');
    WellFormedParts(ClassOf(node.kind), d);
    hide NodeShown, BodyShown, WellFormed;
    ChangedWellFormed(h, users, u, d, d', node');
  }

  lemma BodyStays(h: Host, h': Host, us: set<Bytes>, d: NodeData, node: Node)
    requires BodyShown(h, d, node) && Touches(h, h', us) && d.uuid !in us
    ensures BodyShown(h', d, node)
  {
    SameFilesOf(h, h', us, d.uuid, ContentDir);
    hide Touches, FileOf;
  }

  /** The path of an entry is not the root, nor its own directory. */
  lemma OtherThanParent(t: Tree, path: Bytes, u: Bytes)
    requires IsTree(t) && IsPath(path) && u in t && Last(Components(path)) in t[u].entries
    ensures path != ROOT_PATH && path !in Key(DirectoryPath(path)) && Components(path) != []
  {
    hide IsTree, IsPath, Components, DirectoryPath;
    DirectoryNames(path);
    PathIsItsNames(path);
    SamePath(path, DirectoryPath(path));
    EntryFacts(t, u, Last(Components(path)), u, Last(Components(path)));
  }

  lemma ParentIsRoot(t: Tree, path: Bytes, u: Bytes)
    requires IsTree(t) && IsPath(path) && Resolve(t, Init(Components(path))) == Some(u)
    ensures u in t && (u == ROOT_UUID <==> DirectoryPath(path) == ROOT_PATH)
  {
    hide IsTree, Resolve, IsPath, Components, DirectoryPath;
    DirectoryNames(path);
    RootAlone(t, Components(path));
    if u == ROOT_UUID {
      RootPathAlone(t, Init(Components(path)));
    }
  }

  lemma LogKeys(h: Host, t: Tree, logs: Logs, supernode: NodeData)
    requires OnHost(h, t, logs, supernode)
    ensures logs.Keys == t.Keys
  {
  }

  lemma GoneStays(h: Host, h': Host, us: set<Bytes>, w: Bytes)
    requires Gone(h, w) && Touches(h, h', us) && w !in us
    ensures Gone(h', w)
  {
    forall dir
      ensures (dir, w) !in h'.files
    {
      SameFilesOf(h, h', us, w, dir);
    }
  }

  lemma PathOfRoot(t: Tree, path: Bytes, u: Bytes)
    requires IsTree(t) && IsPath(path) && Resolve(t, Components(path)) == Some(u)
    ensures u == ROOT_UUID <==> path == ROOT_PATH
  {
    hide IsTree, Components, IsPath;
    PathIsItsNames(path);
    if u == ROOT_UUID {
      RootPathAlone(t, Components(path));
    }
  }

  // ----- a new filesystem -----

  lemma NewSupernode(h: Host, d: NodeData, users: map<Bytes, User>)
    requires h.bs > 0 && h.files == map[] && forall k :: k in users ==> ValidUser(k, users[k])
    requires d == NodeData(SupernodeClass.Code(), ROOT_UUID, d.atime, d.mtime, d.ctime, ROOT_PATH, map[], map[], 0,
                           map[], users)
    requires d.atime < SIZE_T_LIMIT && d.mtime < SIZE_T_LIMIT && d.ctime < SIZE_T_LIMIT
    requires SectionSize(users, h.bs, EMPTY_ROOT) < SECTION_LIMIT
    ensures WellFormed(SupernodeClass, d) && Matches(ROOT_UUID, d, EMPTY_ROOT) && BodyShown(h, d, EMPTY_ROOT)
    ensures Audited(h, ROOT_UUID, [])
  {
    hide Sensitive, SectionSize, ValidUser, Logged;
    SectionSizeExact(users, h.bs, ROOT_UUID, d, EMPTY_ROOT);
    NothingLogged(h.suite, h.audit, h.files, ROOT_UUID);
  }

  lemma NewHosted(h: Host, h': Host, d: NodeData)
    requires h.files == map[] && h.bs > 0 && Touches(h, h', {ROOT_UUID})
    requires NodeShown(h', ROOT_UUID, d, EMPTY_ROOT) && Audited(h', ROOT_UUID, [])
    ensures OnHost(h', NEW_TREE, map[ROOT_UUID := []], d)
  {
    hide NodeShown, Logged, IsTree;
    EmptyIsTree(NEW_TREE);
    forall k: (Directory, Bytes) | k in h'.files
      ensures k.1 == ROOT_UUID
    {
      assert k.1 !in {ROOT_UUID} ==> SameFile(h.files, h'.files, k);
    }
  }
}
