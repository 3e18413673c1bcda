/** `FileSystem`: the operations by path over the files on the host, with the cache of loaded nodes. */
module FileSystems {
  import opened ByteStrings
  import opened Errno
  import opened Options
  import opened Orders
  import opened Crypto
  import opened Codec
  import opened SealedMetadata
  import opened Paths
  import opened NodeRecords
  import opened NodeRoundTrip
  import opened AccessRights
  import opened Disks
  import opened MetadataFiles
  import opened AuditLogs
  import opened FlatFiles
  import opened FileStates
  import opened FileStores
  import opened Trees
  import opened TreeChanges
  import opened TreeFiles
  import opened NodeCaches
  import opened FileSystemStates
  import opened Creations
  import opened Removals
  import opened Renamings
  import opened NodeUpdates

  class FileSystem {
    const store: FileStore
    var supernode: NodeData
    var loaded: map<Bytes, NodeData>
    /** What the host holds, and the nodes that the cached objects are. */
    ghost var tree: Tree
    ghost var logs: Logs
    ghost var cache: map<Bytes, Handle>

    /** The host, read under keys whose tags are left aside. */
    ghost function OnStore(): Host
      reads store.disk, store.rootKey, store.auditRootKey
    {
      Host(store.suite, store.blockSize, store.rootKey.state.(mac := Zeros(MAC_SIZE)),
           store.auditRootKey.state.(mac := Zeros(MAC_SIZE)), store.disk.files)
    }

    lemma Settings()
      ensures OnStore().bs == store.blockSize
    {
    }

    /** The host and the supernode in memory are the tree. */
    ghost predicate Mounted()
      reads this, store, store.disk, store.rootKey, store.auditRootKey
    {
      store.Valid() && ValidUuid(store.currentUser.uuid) && OnHost(OnStore(), tree, logs, supernode)
    }

    lemma TreeStands()
      requires Mounted()
      ensures IsTree(tree) && store.blockSize > 0
    {
    }

    lemma LogStands(u: Bytes)
      requires Mounted() && u in tree
      ensures u in logs && Audited(OnStore(), u, logs[u])
    {
      hide OnDisk, Logged, IsTree;
      assert Shows(OnStore(), u, tree[u], logs[u]);
    }

    /** So are the nodes in the cache. */
    ghost predicate Valid()
      reads this, store, store.disk, store.rootKey, store.auditRootKey
    {
      Mounted() && InMemory(OnStore(), tree, loaded, cache)
    }

    function User(): Bytes
      reads store
    {
      store.currentUser.uuid
    }

    /** A new filesystem with these users: an empty supernode, on disk and in memory, and nothing loaded. */
    constructor (store: FileStore, users: map<Bytes, User>)
      requires store.Valid() && ValidUuid(store.currentUser.uuid) && store.disk.files == map[]
      requires forall k :: k in users ==> ValidUser(k, users[k])
      requires SectionSize(users, store.blockSize, EMPTY_ROOT) < SECTION_LIMIT
      modifies store.disk, store.rootKey
      ensures Valid() && this.store == store && supernode.users == users && loaded == map[]
      ensures tree == NEW_TREE && logs == map[ROOT_UUID := []]
      ensures store.currentUser == old(store.currentUser)
    {
      hide NodeShown, Logged, IsTree, WellFormed, BodyShown, ValidUser, SectionSize, Shown, Touches;
      var t := CurrentTime();
      var d := NodeData(SupernodeClass.Code(), ROOT_UUID, t, t, t, ROOT_PATH, map[], map[], 0, map[], users);
      this.store, supernode, loaded := store, d, map[];
      tree, logs, cache := NEW_TREE, map[ROOT_UUID := []], map[];
      new;
      ghost var h := OnStore();
      NewSupernode(h, d, users);
      SaveNode(d, EMPTY_ROOT, []);
      NewHosted(h, OnStore(), d);
    }

    // ----- nodes on the host -----

    /** `load_metadata`: the node that an entry names. */
    method LoadNode(u: Bytes) returns (d: Option<NodeData>)
      requires Mounted()
      modifies store.rootKey
      ensures Mounted() && OnStore() == old(OnStore())
      ensures if Load(tree, u).None? then d.None?
              else u in tree && d.Some? && NodeShown(OnStore(), u, d.value, Load(tree, u).value)
    {
      hide NodeShown, LoadFile, IsTree, Shown, FileOf;
      RootIn(tree);
      TreeLoads(OnStore(), store.rootKey.state, tree, logs, u);
      var r := store.LoadMetadata(u);
      d := if r.Done? then Some(r.value.Data()) else None;
    }

    /** `e_write_meta_to_disk` of a node that is audited and whose content is on disk. */
    method SaveNode(d: NodeData, ghost node: Node, ghost log: seq<Bytes>)
      requires store.Valid() && WellFormed(ClassOf(node.kind), d) && Matches(d.uuid, d, node)
      requires BodyShown(OnStore(), d, node) && Audited(OnStore(), d.uuid, log)
      modifies store.disk, store.rootKey
      ensures store.Valid() && Touches(old(OnStore()), OnStore(), {d.uuid})
      ensures NodeShown(OnStore(), d.uuid, d, node) && Audited(OnStore(), d.uuid, log)
    {
      hide WellFormed, BodyShown, Logged, LoadsAs, FileOf, NodeShown;
      TypeOf(ClassOf(node.kind), d);
      ghost var h := OnStore();
      store.WriteNode(ClassOfType(d.typ), d);
      SavedOnStore(h, OnStore(), store.rootKey.state, d, node, log);
    }

    /** `e_append_audit_to_disk`, then `e_write_meta_to_disk`. */
    method AuditAndSave(d: NodeData, reason: Bytes, ghost node: Node, ghost log: seq<Bytes>)
      requires store.Valid() && WellFormed(ClassOf(node.kind), d) && Matches(d.uuid, d, node)
      requires BodyShown(OnStore(), d, node) && Audited(OnStore(), d.uuid, log) && |Text(reason)| < SECTION_LIMIT
      modifies store.disk, store.rootKey, store.auditRootKey
      ensures store.Valid() && Touches(old(OnStore()), OnStore(), {d.uuid})
      ensures NodeShown(OnStore(), d.uuid, d, node) && Audited(OnStore(), d.uuid, log + [reason])
    {
      hide WellFormed, BodyShown, Logged, NodeShown, Text, SameFiles, FileOf, Touches;
      ghost var h := OnStore();
      LoggedUnderAnyTag(store.suite, h.audit, store.auditRootKey.state, h.files, d.uuid, log);
      store.AuditNode(d.uuid, reason, log);
      ghost var h1 := OnStore();
      LoggedUnderAnyTag(store.suite, store.auditRootKey.state, h1.audit, h1.files, d.uuid, log + [reason]);
      AuditTouches(h, h1, d.uuid);
      BodyAfterAudit(h, h1, d.uuid, d, node);
      SaveNode(d, node, log + [reason]);
      TouchesMore(h, h1, OnStore(), {d.uuid}, {d.uuid});
      assert {d.uuid} + {d.uuid} == {d.uuid};
    }

    /** `delete_from_disk` in the three directories. */
    method DeleteNode(u: Bytes)
      requires store.Valid()
      modifies store.disk
      ensures store.Valid() && Touches(old(OnStore()), OnStore(), {u}) && Gone(OnStore(), u)
    {
      hide Touches, Gone;
      ghost var h := OnStore();
      store.disk.Delete(ContentDir, u);
      store.disk.Delete(MetaDir, u);
      store.disk.Delete(AuditDir, u);
      NodeDeleted(h, OnStore(), u);
    }

    /**
     `sgx_destroy_filesystem` and `sgx_load_filesystem`: the supernode comes back from its file and nothing is loaded,
     so the cache is current whatever it was before.
     */
    method Remount()
      requires Mounted()
      modifies this`supernode, this`loaded, this`cache, store.rootKey
      ensures Valid() && OnStore() == old(OnStore()) && loaded == map[] && supernode.users == old(supernode.users)
    {
      hide NodeShown, IsTree, Shown, OpenNode, FileOf, AllCurrent, LoadedShown;
      RootIn(tree);
      SupernodeOpens(OnStore(), store.rootKey.state, supernode, tree[ROOT_UUID]);
      var size := store.disk.FileSize(MetaDir, ROOT_UUID);
      var n, blob := store.disk.Load(MetaDir, ROOT_UUID, 0, size);
      assert blob == FileOf(store.disk.files, MetaDir, ROOT_UUID);
      var r := store.OpenBlob(SupernodeClass, blob);
      RemountHosted(OnStore(), tree, logs, supernode, r.value.Data());
      supernode, loaded, cache := r.value.Data(), map[], map[];
    }

    /** The registered users change, and the supernode is written. */
    method SaveUsers(users: map<Bytes, User>)
      requires Valid() && AllFit(users, store.blockSize, tree) && forall k :: k in users ==> ValidUser(k, users[k])
      modifies this`supernode, store.disk, store.rootKey
      ensures Valid() && supernode.users == users
    {
      hide OnHost, InMemory, OnStore, NodeShown, IsTree, Logged, Touches, WellFormed, BodyShown, ValidUser, AllFit,
           ValidUuid, Matches;
      TreeStands();
      Settings();
      RootIn(tree);
      LogStands(ROOT_UUID);
      ghost var h := OnStore();
      var d := supernode.(users := users);
      UsersReady(h, tree, logs, supernode, d, users);
      SaveNode(d, tree[ROOT_UUID], logs[ROOT_UUID]);
      UsersDone(h, OnStore(), tree, logs, supernode, loaded, cache, d);
      supernode := d;
    }

    // ----- nodes in memory -----

    /** `_retrieve_node` */
    method RetrieveBelow(from: NodeData, path: Bytes, ghost h: Handle) returns (d: Option<NodeData>)
      requires Mounted() && NodeShown(OnStore(), h.uuid, from, h.node)
      modifies store.rootKey
      ensures Mounted() && OnStore() == old(OnStore()) && Is(OnStore(), RetrieveFrom(tree, h, path), d)
      decreases |path|
    {
      hide Mounted, OnStore, NodeShown, ParentPath, ChildPath, RetrieveFrom, Load;
      if path == [] {
        NoStep(tree, h, path);
        return Some(from);
      }
      RetrieveStep(tree, h, path);
      ShownFacts(OnStore(), h.uuid, from, h.node);
      var name := ParentPath(path);
      if name !in from.entries {
        return None;
      }
      var child := LoadNode(from.entries[name]);
      if child.None? {
        return None;
      }
      ghost var next := Handle(from.entries[name], Load(tree, from.entries[name]).value);
      d := RetrieveBelow(child.value, ChildPath(path), next);
    }

    /** `retrieve_node`: what is loaded comes first, current or not. */
    method RetrieveNode(path: Bytes) returns (d: Option<NodeData>)
      requires Mounted() && IsPath(path)
      modifies this`loaded, this`cache, store.rootKey
      ensures Mounted() && OnStore() == old(OnStore())
      ensures if path != ROOT_PATH && path in old(loaded) then d == Some(old(loaded)[path]) && loaded == old(loaded)
              else Found(OnStore(), tree, Components(path), d)
                   && loaded == if d.Some? && path != ROOT_PATH then old(loaded)[path := d.value] else old(loaded)
      ensures path == ROOT_PATH ==> d == Some(supernode)
      ensures old(Valid()) ==> Valid() && Found(OnStore(), tree, Components(path), d)
    {
      hide NodeShown, IsTree, Shown, Resolve, Components, IsPath, RetrieveFrom;
      SupernodePath(OnStore(), tree, logs, supernode, path);
      if supernode.path == path {
        return Some(supernode);
      }
      ghost var current := Valid();
      if path in loaded {
        if current {
          CachedFound(OnStore(), tree, loaded, cache, path);
        }
        return Some(loaded[path]);
      }
      RetrieveFinds(tree, path);
      ghost var root := Handle(ROOT_UUID, tree[ROOT_UUID]);
      d := RetrieveBelow(supernode, ChildPath(path), root);
      if d.Some? {
        ghost var h := RetrieveFrom(tree, root, ChildPath(path)).value;
        if current {
          NewlyLoaded(OnStore(), tree, loaded, cache, path, d.value, h);
        }
        loaded, cache := loaded[path := d.value], cache[path := h];
      }
    }

    /** With the cache current, what is retrieved is what the host has for the path, and it is loaded afterwards. */
    method Retrieve(path: Bytes) returns (d: Option<NodeData>)
      requires Valid() && IsPath(path)
      modifies this`loaded, this`cache, store.rootKey
      ensures Valid() && OnStore() == old(OnStore()) && Found(OnStore(), tree, Components(path), d)
      ensures loaded.Keys == FoundCached(tree, old(loaded.Keys), path)
      ensures d.Some? ==> if path == ROOT_PATH then d.value == supernode else path in loaded && loaded[path] == d.value
      ensures SameLoaded(old(loaded), loaded) && old(loaded.Keys) <= loaded.Keys
    {
      hide InMemory, OnHost, NodeShown, Resolve, Components, IsPath, OnStore;
      d := RetrieveNode(path);
    }

    /** `free_node` */
    method FreeNode(path: Bytes)
      requires supernode.path == ROOT_PATH
      modifies this`loaded
      ensures loaded == old(loaded) - Key(path)
    {
      if supernode.path != path && path in loaded {
        loaded := loaded - {path};
      }
    }

    /** Freeing a node keeps the others. */
    method Release(path: Bytes)
      requires Valid()
      modifies this`loaded, this`cache
      ensures Valid() && loaded == old(loaded) - Key(path) && loaded.Keys == old(loaded.Keys) - Key(path)
    {
      hide InMemory, OnHost;
      Evicted(OnStore(), tree, loaded, cache, Key(path));
      RootNamed(OnStore(), tree, logs, supernode);
      FreeNode(path);
      cache := cache - Key(path);
    }

    // ----- creating -----

    /** A new node object, owned by the current user. */
    method NewData(kind: Kind, name: Bytes, uuid: Bytes) returns (d: NodeData)
      ensures NewState(kind, uuid, name, User(), d)
    {
      var atime := CurrentTime();
      var mtime := CurrentTime();
      var ctime := CurrentTime();
      var rights := map[CString(User()) := OWNER_RIGHT];
      d := NodeData(ClassOf(kind).Code(), uuid, atime, mtime, ctime, name, map[], rights, 0, map[], map[]);
    }

    /** The object that `RetrieveNode` gave for `path` is changed. */
    method Change(path: Bytes, d: NodeData)
      modifies this`loaded, this`supernode
      ensures if path == ROOT_PATH then supernode == d && loaded == old(loaded)
              else supernode == old(supernode) && loaded == old(loaded)[path := d]
    {
      if path == ROOT_PATH {
        supernode := d;
      } else {
        loaded := loaded[path := d];
      }
    }

    /** The parent and the new node are audited and written, in this order. */
    method WriteBoth(p: NodeData, child: NodeData, reason: Bytes, ghost pn: Node, ghost cn: Node, ghost log: seq<Bytes>)
      requires store.Valid() && |Text(reason)| < SECTION_LIMIT && p.uuid != child.uuid
      requires WellFormed(ClassOf(pn.kind), p) && Matches(p.uuid, p, pn) && BodyShown(OnStore(), p, pn)
      requires WellFormed(ClassOf(cn.kind), child) && Matches(child.uuid, child, cn) && BodyShown(OnStore(), child, cn)
      requires Audited(OnStore(), p.uuid, log) && Audited(OnStore(), child.uuid, [])
      modifies store.disk, store.rootKey, store.auditRootKey
      ensures store.Valid() && Touches(old(OnStore()), OnStore(), {p.uuid, child.uuid})
      ensures NodeShown(OnStore(), p.uuid, p, pn) && Audited(OnStore(), p.uuid, log + [reason])
      ensures NodeShown(OnStore(), child.uuid, child, cn) && Audited(OnStore(), child.uuid, [reason])
    {
      hide OnStore, NodeShown, Logged, WellFormed, BodyShown, Touches, Text, Matches;
      ghost var h := OnStore();
      AuditAndSave(p, reason, pn, log);
      ghost var h1 := OnStore();
      BodyStays(h, h1, {p.uuid}, child, cn);
      LogKept(h, h1, {p.uuid}, child.uuid, []);
      AuditAndSave(child, reason, cn, []);
      NodeStillShown(h1, OnStore(), {child.uuid}, p.uuid, p, pn);
      LogKept(h1, OnStore(), {child.uuid}, p.uuid, log + [reason]);
      TouchesMore(h, h1, OnStore(), {p.uuid}, {child.uuid});
      assert {p.uuid} + {child.uuid} == {p.uuid, child.uuid} && [] + [reason] == [reason];
    }

    /** The parent in memory has the entry and is freed; a new file stays loaded. */
    method LinkChild(path: Bytes, dir: Bytes, p: NodeData, kind: Kind, child: NodeData)
      requires path !in loaded && path != dir && supernode.path == ROOT_PATH
      requires dir == ROOT_PATH ==> p.path == ROOT_PATH
      modifies this`loaded, this`supernode
      ensures supernode == if dir == ROOT_PATH then p else old(supernode)
      ensures loaded == if kind == FileKind then (old(loaded) - Key(dir))[path := child] else old(loaded) - Key(dir)
      ensures loaded.Keys == old(loaded.Keys) - Key(dir) + (if kind == FileKind then {path} else {})
    {
      LoadedAfterCreation(loaded, dir, p, path, child);
      Change(dir, p);
      if kind == FileKind {
        loaded := Insert(loaded, path, child);
      }
      FreeNode(dir);
    }

    /**
     The end of a creation: the parent gets its entry, both nodes are audited and written, and the parent is freed.
     */
    method AddChild(path: Bytes, dir: Bytes, name: Bytes, parent: NodeData, kind: Kind, uuid: Bytes, reason: Bytes,
                    ghost u: Bytes, ghost pn: Node, ghost cn: Node)
      requires Valid() && ValidUuid(uuid) && dir == DirectoryPath(path) && |Text(reason)| < SECTION_LIMIT
      requires name == Last(Components(path))
      requires Creation(tree, path, kind, uuid, User(), u, pn, cn)
      requires u in tree && NodeShown(OnStore(), u, parent, tree[u])
      requires u == ROOT_UUID ==> parent.users == supernode.users
      requires AllFit(supernode.users, store.blockSize, CreateIn(tree, Components(path), kind, uuid, User()).1)
      modifies this, store.disk, store.rootKey, store.auditRootKey
      ensures Valid() && tree == CreateIn(old(tree), Components(path), kind, uuid, User()).1
      ensures logs == CreateLogs(old(tree), old(logs), Components(path), uuid, reason)
      ensures supernode.users == old(supernode.users)
      ensures loaded.Keys == old(loaded.Keys) - Key(dir) + (if kind == FileKind then {path} else {})
    {
      hide IsTree, Resolve, Components, IsPath, DirectoryPath, CreateIn, NewNode, NodeShown, Logged, WellFormed,
           BodyShown, Text, CreateLogs, InMemory, OnHost, Touches, CString, ValidUuid, AllFit, Creation, NewState,
           OnStore, Key;
      ghost var h, t, lg, before, memory, cached := OnStore(), tree, logs, supernode, loaded, cache;
      Settings();
      var child := NewData(kind, name, uuid);
      var p := parent.(entries := Insert(parent.entries, name, uuid));
      CreationReady(h, before.users, t, lg, before, path, kind, uuid, User(), u, parent, p, child, pn, cn);
      WriteBoth(p, child, reason, pn, cn, lg[u]);
      CreationDone(h, OnStore(), t, lg, before, memory, cached, path, kind, uuid, User(), reason, u, p, child, pn, cn);
      LinkChild(path, dir, p, kind, child);
      tree := CreateIn(t, Components(path), kind, uuid, User()).1;
      logs := CreateLogs(t, lg, Components(path), uuid, reason);
      cache := if kind == FileKind then (cached - Key(dir))[path := Handle(uuid, cn)] else cached - Key(dir);
    }

    /** What `create_file` and `create_directory` have in common. */
    method Create(path: Bytes, kind: Kind, uuid: Bytes, reason: Bytes) returns (r: int)
      requires Valid() && kind != RootKind && IsPath(path) && uuid !in tree && ValidUuid(uuid)
      requires InDirectory(tree, path)
      requires |Text(reason)| < SECTION_LIMIT
      requires AllFit(supernode.users, store.blockSize, CreateIn(tree, Components(path), kind, uuid, User()).1)
      modifies this, store.disk, store.rootKey, store.auditRootKey
      ensures Valid() && (r, tree) == CreateIn(old(tree), Components(path), kind, uuid, User())
      ensures logs == CreateLogs(old(tree), old(logs), Components(path), uuid, reason)
      ensures supernode.users == old(supernode.users)
      ensures loaded.Keys == CreateCached(old(tree), old(loaded.Keys), path, kind)
    {
      hide Mounted, InMemory, OnStore, NodeShown, IsTree, Resolve, Components, IsPath, DirectoryPath, RelativePath,
           InDirectory, NewNode, AllFit, Insert, CString, Text, ValidUuid, Noted, Creation, Save, CreateIn,
           CreateLogs, CreateCached;
      TreeStands();
      ghost var cached := loaded.Keys;
      var node := Retrieve(path);
      if node.Some? {
        CreationRefused(tree, logs, cached, path, kind, uuid, User(), reason);
        Release(path);
        return -EEXIST;
      }
      var dir, name := DirectoryPath(path), RelativePath(path);
      DirectoryNames(path);
      var parent := Retrieve(dir);
      if parent.None? {
        CreationRefused(tree, logs, cached, path, kind, uuid, User(), reason);
        return -ENOENT;
      }
      ghost var u := Resolve(tree, Init(Components(path))).value;
      ghost var pn := tree[u].(entries := Insert(tree[u].entries, Last(Components(path)), uuid));
      ghost var cn := NewNode(kind, Last(Components(path)), User());
      CreationBegins(tree, cached, path, kind, uuid, User(), u, pn, cn);
      AddChild(path, dir, name, parent.value, kind, uuid, reason, u, pn, cn);
      r := 0;
    }

    /** `create_file`: the new node stays loaded under its path. */
    method CreateFile(path: Bytes, uuid: Bytes, reason: Bytes) returns (r: int)
      requires Valid() && IsPath(path) && uuid !in tree && ValidUuid(uuid) && InDirectory(tree, path)
      requires |Text(reason)| < SECTION_LIMIT
      requires AllFit(supernode.users, store.blockSize, CreateIn(tree, Components(path), FileKind, uuid, User()).1)
      modifies this, store.disk, store.rootKey, store.auditRootKey
      ensures Valid() && (r, tree) == CreateIn(old(tree), Components(path), FileKind, uuid, User())
      ensures logs == CreateLogs(old(tree), old(logs), Components(path), uuid, reason)
      ensures supernode.users == old(supernode.users)
      ensures loaded.Keys == CreateCached(old(tree), old(loaded.Keys), path, FileKind)
    {
      hide *;
      r := Create(path, FileKind, uuid, reason);
    }

    /** `create_directory`: the new node is dropped. */
    method CreateDirectory(path: Bytes, uuid: Bytes, reason: Bytes) returns (r: int)
      requires Valid() && IsPath(path) && uuid !in tree && ValidUuid(uuid) && InDirectory(tree, path)
      requires |Text(reason)| < SECTION_LIMIT
      requires AllFit(supernode.users, store.blockSize, CreateIn(tree, Components(path), DirKind, uuid, User()).1)
      modifies this, store.disk, store.rootKey, store.auditRootKey
      ensures Valid() && (r, tree) == CreateIn(old(tree), Components(path), DirKind, uuid, User())
      ensures logs == CreateLogs(old(tree), old(logs), Components(path), uuid, reason)
      ensures supernode.users == old(supernode.users)
      ensures loaded.Keys == CreateCached(old(tree), old(loaded.Keys), path, DirKind)
    {
      hide *;
      r := Create(path, DirKind, uuid, reason);
    }

    // ----- removing -----

    /** `has_user_rights` of the current user. */
    predicate Permitted(d: NodeData, min: Rights)
      reads store
    {
      Permits(d.typ == SupernodeClass.Code(), d.entitlements, min, User())
    }

    /** The files of the removed node are deleted, before or after the parent is audited and written. */
    method WriteRemoval(p: NodeData, w: Bytes, reason: Bytes, deleteFirst: bool, ghost pn: Node, ghost log: seq<Bytes>)
      requires store.Valid() && |Text(reason)| < SECTION_LIMIT && p.uuid != w
      requires WellFormed(ClassOf(pn.kind), p) && Matches(p.uuid, p, pn) && BodyShown(OnStore(), p, pn)
      requires Audited(OnStore(), p.uuid, log)
      modifies store.disk, store.rootKey, store.auditRootKey
      ensures store.Valid() && Touches(old(OnStore()), OnStore(), {p.uuid, w}) && Gone(OnStore(), w)
      ensures NodeShown(OnStore(), p.uuid, p, pn) && Audited(OnStore(), p.uuid, log + [reason])
    {
      hide OnStore, NodeShown, Logged, WellFormed, BodyShown, Touches, Text, Matches, Gone;
      ghost var h := OnStore();
      if deleteFirst {
        DeleteNode(w);
        BodyStays(h, OnStore(), {w}, p, pn);
        LogKept(h, OnStore(), {w}, p.uuid, log);
      }
      ghost var h1 := OnStore();
      AuditAndSave(p, reason, pn, log);
      ghost var h2 := OnStore();
      if deleteFirst {
        GoneStays(h1, h2, {p.uuid}, w);
        TouchesMore(h, h1, h2, {w}, {p.uuid});
      } else {
        DeleteNode(w);
        NodeStillShown(h2, OnStore(), {w}, p.uuid, p, pn);
        LogKept(h2, OnStore(), {w}, p.uuid, log + [reason]);
        TouchesMore(h, h2, OnStore(), {p.uuid}, {w});
      }
      assert {p.uuid} + {w} == {p.uuid, w} == {w} + {p.uuid};
    }

    /** The parent in memory has lost the entry and is freed. */
    method DropParent(dir: Bytes, p: NodeData)
      requires supernode.path == ROOT_PATH && (dir == ROOT_PATH ==> p.path == ROOT_PATH)
      modifies this`loaded, this`supernode
      ensures supernode == if dir == ROOT_PATH then p else old(supernode)
      ensures loaded == old(loaded) - Key(dir) && loaded.Keys == old(loaded.Keys) - Key(dir)
    {
      Change(dir, p);
      FreeNode(dir);
    }

    method FinishUnlink(path: Bytes, dir: Bytes, name: Bytes, parent: NodeData, child: Bytes, reason: Bytes,
                        ghost u: Bytes)
      requires Valid() && IsPath(path) && dir == DirectoryPath(path) && |Text(reason)| < SECTION_LIMIT
      requires UnlinkIn(tree, Components(path), User()).0 == 0 && Resolve(tree, Init(Components(path))) == Some(u)
      requires u in tree
      requires NodeShown(OnStore(), u, parent, tree[u]) && (u == ROOT_UUID ==> parent.users == supernode.users)
      requires Last(Components(path)) in tree[u].entries && child == tree[u].entries[Last(Components(path))]
      requires child in tree && name == tree[child].name
      requires AllFit(supernode.users, store.blockSize, UnlinkIn(tree, Components(path), User()).1)
      modifies this, store.disk, store.rootKey, store.auditRootKey
      ensures Valid() && tree == UnlinkIn(old(tree), Components(path), User()).1
      ensures logs == RemoveLogs(old(tree), old(logs), Components(path), 0, reason)
      ensures supernode.users == old(supernode.users) && loaded == old(loaded) - Key(path) - Key(dir)
    {
      hide OnHost, InMemory, OnStore, NodeShown, IsTree, Resolve, Components, IsPath, DirectoryPath, AllFit, Text,
           UnlinkIn, RemoveLogs, WellFormed, BodyShown, Logged, Touches, Gone, Removal, Remove, ValidUuid, Key;
      TreeStands();
      Settings();
      ghost var h, t, lg, before, memory, cached := OnStore(), tree, logs, supernode, loaded, cache;
      ghost var t' := UnlinkIn(t, Components(path), User()).1;
      ghost var pn := t[u].(entries := t[u].entries - {Last(Components(path))});
      UnlinkBegins(t, path, User(), u, pn);
      var p := parent.(entries := parent.entries - {name});
      RemovalReady(h, before.users, t, lg, before, path, u, child, parent, p, pn, t');
      WriteRemoval(p, child, reason, true, pn, lg[u]);
      RemovalDone(h, OnStore(), t, lg, before, memory, cached, path, reason, u, child, p, pn, t');
      FreeNode(path);
      DropParent(dir, p);
      tree, logs, cache := t', RemoveLogs(t, lg, Components(path), 0, reason), cached - (Key(path) + Key(dir));
      FreedTwice(memory, Key(path), Key(dir));
    }

    /** `unlink`: when the entry is not a file, the parent stays loaded. */
    method Unlink(path: Bytes, reason: Bytes) returns (r: int)
      requires Valid() && IsPath(path) && |Text(reason)| < SECTION_LIMIT
      requires AllFit(supernode.users, store.blockSize, UnlinkIn(tree, Components(path), User()).1)
      modifies this, store.disk, store.rootKey, store.auditRootKey
      ensures Valid() && (r, tree) == UnlinkIn(old(tree), Components(path), User())
      ensures logs == RemoveLogs(old(tree), old(logs), Components(path), r, reason)
      ensures supernode.users == old(supernode.users)
      ensures loaded.Keys == UnlinkCached(old(tree), old(loaded.Keys), path, User())
    {
      hide Mounted, InMemory, OnStore, NodeShown, IsTree, Resolve, Components, IsPath, DirectoryPath, RelativePath,
           AllFit, Text, UnlinkIn, UnlinkCached, RemoveLogs, Allows, Permits, Matches, WellFormed, BodyShown, Noted,
           FoundCached, Key;
      TreeStands();
      FoundKeys(tree, loaded.Keys, DirectoryPath(path));
      UnlinkCases(tree, loaded.Keys, path, User());
      NotRemoved(tree, logs, Components(path), -ENOENT, reason);
      NotRemoved(tree, logs, Components(path), -EACCES, reason);
      var dir, name := DirectoryPath(path), RelativePath(path);
      DirectoryNames(path);
      var parent := Retrieve(dir);
      if parent.None? {
        return -ENOENT;
      }
      ghost var u := Resolve(tree, Init(Components(path))).value;
      ParentIsRoot(tree, path, u);
      SameEntries(OnStore(), u, parent.value, tree[u]);
      if name !in parent.value.entries {
        Release(dir);
        return -ENOENT;
      }
      var child := parent.value.entries[name];
      var node := LoadNode(child);
      if node.None? {
        return -ENOENT;
      }
      ShownFacts(OnStore(), child, node.value, tree[child]);
      SameEntries(OnStore(), child, node.value, tree[child]);
      ShownAllows(OnStore(), child, node.value, tree[child], OWNER_RIGHT, User());
      if node.value.typ != FILENODE_TYPE {
        return -ENOENT;
      }
      if !Permitted(node.value, OWNER_RIGHT) {
        Release(dir);
        return -EACCES;
      }
      FinishUnlink(path, dir, node.value.path, parent.value, child, reason, u);
      r := 0;
    }

    method FinishRmdir(path: Bytes, dir: Bytes, name: Bytes, parent: NodeData, child: Bytes, reason: Bytes,
                       ghost u: Bytes)
      requires Valid() && IsPath(path) && dir == DirectoryPath(path) && |Text(reason)| < SECTION_LIMIT
      requires RmdirIn(tree, Components(path), User()).0 == 0 && Resolve(tree, Init(Components(path))) == Some(u)
      requires u in tree
      requires NodeShown(OnStore(), u, parent, tree[u]) && (u == ROOT_UUID ==> parent.users == supernode.users)
      requires Last(Components(path)) in tree[u].entries && child == tree[u].entries[Last(Components(path))]
      requires name == Last(Components(path))
      requires AllFit(supernode.users, store.blockSize, RmdirIn(tree, Components(path), User()).1)
      modifies this, store.disk, store.rootKey, store.auditRootKey
      ensures Mounted() && tree == RmdirIn(old(tree), Components(path), User()).1
      ensures logs == RemoveLogs(old(tree), old(logs), Components(path), 0, reason)
      ensures supernode.users == old(supernode.users) && loaded == old(loaded) - Key(dir)
      ensures Valid() <==> path !in old(loaded)
    {
      hide OnHost, InMemory, OnStore, NodeShown, IsTree, Resolve, Components, IsPath, DirectoryPath, AllFit, Text,
           RmdirIn, RemoveLogs, WellFormed, BodyShown, Logged, Touches, Gone, Removal, Remove, ValidUuid;
      TreeStands();
      Settings();
      ghost var h, t, lg, before, memory, cached := OnStore(), tree, logs, supernode, loaded, cache;
      ghost var t' := RmdirIn(t, Components(path), User()).1;
      ghost var pn := t[u].(entries := t[u].entries - {Last(Components(path))});
      RmdirBegins(t, path, User(), u, pn);
      var p := parent.(entries := parent.entries - {name});
      RemovalReady(h, before.users, t, lg, before, path, u, child, parent, p, pn, t');
      WriteRemoval(p, child, reason, false, pn, lg[u]);
      RmdirDone(h, OnStore(), t, lg, before, memory, cached, path, reason, User(), u, child, p, pn, t');
      DropParent(dir, p);
      tree, logs, cache := t', RemoveLogs(t, lg, Components(path), 0, reason), cached - Key(dir);
    }

    /**
     `rm_directory`: the removed directory is not evicted, so the cache stays current exactly when it was not
     loaded.
     */
    method RmDirectory(path: Bytes, reason: Bytes) returns (r: int)
      requires Valid() && IsPath(path) && |Text(reason)| < SECTION_LIMIT
      requires AllFit(supernode.users, store.blockSize, RmdirIn(tree, Components(path), User()).1)
      modifies this, store.disk, store.rootKey, store.auditRootKey
      ensures Mounted() && (r, tree) == RmdirIn(old(tree), Components(path), User())
      ensures logs == RemoveLogs(old(tree), old(logs), Components(path), r, reason)
      ensures supernode.users == old(supernode.users)
      ensures loaded.Keys == RmdirCached(old(tree), old(loaded.Keys), path)
      ensures Valid() <==> (r == 0 ==> path !in old(loaded))
      ensures SameLoaded(old(loaded), loaded)
    {
      hide Mounted, InMemory, OnStore, NodeShown, IsTree, Resolve, Components, IsPath, DirectoryPath, RelativePath,
           AllFit, Text, RmdirIn, RmdirCached, RemoveLogs, Allows, Permits, Matches, WellFormed, BodyShown, Noted,
           FoundCached, Key;
      TreeStands();
      FoundKeys(tree, loaded.Keys, DirectoryPath(path));
      RmdirCases(tree, loaded.Keys, path, User());
      NotRemoved(tree, logs, Components(path), -ENOENT, reason);
      NotRemoved(tree, logs, Components(path), -EACCES, reason);
      NotRemoved(tree, logs, Components(path), -ENOTEMPTY, reason);
      var dir, name := DirectoryPath(path), RelativePath(path);
      DirectoryNames(path);
      var parent := Retrieve(dir);
      if parent.None? {
        return -ENOENT;
      }
      ghost var u := Resolve(tree, Init(Components(path))).value;
      ParentIsRoot(tree, path, u);
      SameEntries(OnStore(), u, parent.value, tree[u]);
      if name !in parent.value.entries {
        Release(dir);
        return -ENOENT;
      }
      var child := parent.value.entries[name];
      var node := LoadNode(child);
      if node.None? {
        Release(dir);
        return -ENOENT;
      }
      ShownFacts(OnStore(), child, node.value, tree[child]);
      SameEntries(OnStore(), child, node.value, tree[child]);
      ShownAllows(OnStore(), child, node.value, tree[child], OWNER_RIGHT, User());
      if node.value.typ != DirnodeClass.Code() {
        Release(dir);
        return -ENOENT;
      }
      if !Permitted(node.value, OWNER_RIGHT) {
        Release(dir);
        return -EACCES;
      }
      if node.value.entries != map[] {
        Release(dir);
        return -ENOTEMPTY;
      }
      OtherThanParent(tree, path, u);
      FinishRmdir(path, dir, name, parent.value, child, reason, u);
      r := 0;
    }

    // ----- renaming -----

    /** The parent is written, then the child. */
    method WriteRename(p: NodeData, c: NodeData, ghost pn: Node, ghost cn: Node, ghost plog: seq<Bytes>,
                       ghost clog: seq<Bytes>)
      requires store.Valid() && p.uuid != c.uuid
      requires WellFormed(ClassOf(pn.kind), p) && Matches(p.uuid, p, pn) && BodyShown(OnStore(), p, pn)
      requires WellFormed(ClassOf(cn.kind), c) && Matches(c.uuid, c, cn) && BodyShown(OnStore(), c, cn)
      requires Audited(OnStore(), p.uuid, plog) && Audited(OnStore(), c.uuid, clog)
      modifies store.disk, store.rootKey
      ensures store.Valid() && Touches(old(OnStore()), OnStore(), {p.uuid, c.uuid})
      ensures NodeShown(OnStore(), p.uuid, p, pn) && Audited(OnStore(), p.uuid, plog)
      ensures NodeShown(OnStore(), c.uuid, c, cn) && Audited(OnStore(), c.uuid, clog)
    {
      hide OnStore, NodeShown, Logged, WellFormed, BodyShown, Touches, Matches;
      ghost var h := OnStore();
      SaveNode(p, pn, plog);
      ghost var h1 := OnStore();
      BodyStays(h, h1, {p.uuid}, c, cn);
      LogKept(h, h1, {p.uuid}, c.uuid, clog);
      SaveNode(c, cn, clog);
      NodeStillShown(h1, OnStore(), {c.uuid}, p.uuid, p, pn);
      LogKept(h1, OnStore(), {c.uuid}, p.uuid, plog);
      TouchesMore(h, h1, OnStore(), {p.uuid}, {c.uuid});
      assert {p.uuid} + {c.uuid} == {p.uuid, c.uuid};
    }

    method FinishRename(was: Bytes, now: Bytes, dir: Bytes, name: Bytes, name': Bytes, parent: NodeData,
                        child: NodeData, ghost u: Bytes, ghost w: Bytes)
      requires Valid() && IsPath(was) && IsPath(now) && dir == DirectoryPath(was)
      requires name == Last(Components(was)) && name' == Last(Components(now))
      requires RenameIn(tree, Components(was), Components(now)).0 == 0
      requires Resolve(tree, Init(Components(was))) == Some(u)
      requires u in tree && NodeShown(OnStore(), u, parent, tree[u])
      requires u == ROOT_UUID ==> parent.users == supernode.users
      requires name in tree[u].entries && w == tree[u].entries[name] && w in tree
      requires NodeShown(OnStore(), w, child, tree[w])
      requires AllFit(supernode.users, store.blockSize, RenameIn(tree, Components(was), Components(now)).1)
      modifies this, store.disk, store.rootKey
      ensures Mounted() && tree == RenameIn(old(tree), Components(was), Components(now)).1 && logs == old(logs)
      ensures supernode.users == old(supernode.users) && loaded == old(loaded) - Key(dir)
      ensures Valid() <==> NotCachedBelow(old(loaded).Keys, was)
    {
      hide OnHost, InMemory, OnStore, NodeShown, IsTree, Resolve, Components, IsPath, DirectoryPath, AllFit, RenameIn,
           WellFormed, BodyShown, Logged, Touches, Renaming, ValidUuid, NotCachedBelow, Matches;
      TreeStands();
      Settings();
      ghost var h, t, before, memory, cached := OnStore(), tree, supernode, loaded, cache;
      ghost var pn := t[u].(entries := Insert(t[u].entries - {name}, name', w));
      ghost var cn := t[w].(name := name');
      RenamingBegins(t, was, now, u);
      SameEntries(h, u, parent, t[u]);
      SameEntries(h, w, child, t[w]);
      var p := parent.(entries := Insert(parent.entries - {name}, name', parent.entries[name]));
      var c := child.(path := name');
      RenamingReady(h, before.users, t, logs, before, was, now, u, w, parent, p, child, c, pn, cn);
      WriteRename(p, c, pn, cn, logs[u], logs[w]);
      RenamingDone(h, OnStore(), t, logs, before, memory, cached, was, now, u, w, p, c, pn, cn);
      DropParent(dir, p);
      tree, cache := RenameIn(t, Components(was), Components(now)).1, cached - Key(dir);
    }

    /** The end of `rename`, when nothing is at the new path. */
    method RenameEntry(was: Bytes, now: Bytes, dir: Bytes, name: Bytes, name': Bytes, parent: NodeData, ghost u: Bytes)
        returns (r: int)
      requires Valid() && IsPath(was) && IsPath(now) && dir == DirectoryPath(was) == DirectoryPath(now)
      requires name == Last(Components(was)) && name' == Last(Components(now))
      requires Resolve(tree, Init(Components(was))) == Some(u) && Resolve(tree, Components(now)).None?
      requires u in tree && NodeShown(OnStore(), u, parent, tree[u])
      requires u == ROOT_UUID ==> parent.users == supernode.users
      requires AllFit(supernode.users, store.blockSize, RenameIn(tree, Components(was), Components(now)).1)
      modifies this, store.disk, store.rootKey
      ensures Mounted() && (r, tree) == RenameIn(old(tree), Components(was), Components(now)) && logs == old(logs)
      ensures supernode.users == old(supernode.users) && loaded == old(loaded) - Key(dir)
      ensures Valid() <==> (r == 0 ==> NotCachedBelow(old(loaded.Keys), was))
    {
      hide Mounted, InMemory, OnStore, NodeShown, IsTree, Resolve, Components, IsPath, DirectoryPath, AllFit, RenameIn,
           RenameCached, NotCachedBelow, Matches, Key;
      TreeStands();
      RenameCases(tree, loaded.Keys, was, now);
      SameEntries(OnStore(), u, parent, tree[u]);
      if name !in parent.entries {
        Release(dir);
        return -ENOENT;
      }
      var child := LoadNode(parent.entries[name]);
      if child.None? {
        Release(dir);
        return -ENOENT;
      }
      FinishRename(was, now, dir, name, name', parent, child.value, u, parent.entries[name]);
      r := 0;
    }

    /**
     `rename`, within one directory: neither the node nor those below it are evicted, so the cache stays current exactly
     when none of them was loaded. A refusal because the new path exists frees the wrong key.
     */
    method Rename(was: Bytes, now: Bytes) returns (r: int)
      requires Valid() && IsPath(was) && IsPath(now)
      requires AllFit(supernode.users, store.blockSize, RenameIn(tree, Components(was), Components(now)).1)
      modifies this, store.disk, store.rootKey
      ensures Mounted() && (r, tree) == RenameIn(old(tree), Components(was), Components(now)) && logs == old(logs)
      ensures supernode.users == old(supernode.users)
      ensures loaded.Keys == RenameCached(old(tree), old(loaded.Keys), was, now)
      ensures Valid() <==> (r == 0 ==> NotCachedBelow(old(loaded.Keys), was))
      ensures SameLoaded(old(loaded), loaded)
    {
      hide Mounted, InMemory, OnStore, NodeShown, IsTree, Resolve, Components, IsPath, DirectoryPath, RelativePath,
           AllFit, RenameIn, RenameCached, NotCachedBelow, Matches, FoundCached, Key;
      TreeStands();
      RenameCases(tree, loaded.Keys, was, now);
      FoundKeys(tree, loaded.Keys, DirectoryPath(was));
      FoundKeys(tree, FoundCached(tree, loaded.Keys, DirectoryPath(was)), now);
      var dir, dir', name, name' := DirectoryPath(was), DirectoryPath(now), RelativePath(was), RelativePath(now);
      DirectoryNames(was);
      DirectoryNames(now);
      if dir != dir' {
        return -EPROTO;
      }
      var parent := Retrieve(dir);
      if parent.None? {
        return -ENOENT;
      }
      ghost var u := Resolve(tree, Init(Components(was))).value;
      ParentIsRoot(tree, was, u);
      SameEntries(OnStore(), u, parent.value, tree[u]);
      var existing := Retrieve(now);
      if existing.Some? {
        NotLoaded(OnStore(), tree, loaded, cache, name', now);
        Release(name');
        return -EEXIST;
      }
      ParentNotBelow(old(loaded.Keys), was);
      r := RenameEntry(was, now, dir, name, name', parent.value, u);
    }

    // ----- file content -----

    /** Writes through a node object; what it then holds is the file with the data in it. */
    method WriteThrough(d: NodeData, reason: Bytes, offset: nat, data: Bytes, ghost node: Node, ghost log: seq<Bytes>)
        returns (r: int, d': NodeData)
      requires store.Valid() && NodeShown(OnStore(), d.uuid, d, node) && node.kind == FileKind
      requires Audited(OnStore(), d.uuid, log)
      requires CanWriteTo(node, supernode.users, store.blockSize, offset, data, User(), reason)
      modifies store.disk, store.rootKey, store.auditRootKey
      ensures store.Valid() && Touches(old(OnStore()), OnStore(), {d.uuid})
      ensures var (code, node') := WriteTo(node, store.blockSize, offset, data, User());
        r == code && NodeShown(OnStore(), d.uuid, d', node')
      ensures Audited(OnStore(), d.uuid, AccessLog(node, log, WRITE_RIGHT, User(), reason))
    {
      hide NodeShown, Logged, Stands, WriteFlat, Text, SectionSize, FileOf, OnlyNode, HasUserRights, FileSection,
           NodeSection, Allows, Touches;
      ghost var h := OnStore();
      ghost var (code, node') := WriteTo(node, store.blockSize, offset, data, User());
      FileOpens(h, store.rootKey.state, store.auditRootKey.state, d.uuid, d, node, log);
      MayAccess(h, d.uuid, d, node, WRITE_RIGHT, User());
      if Allows(node, WRITE_RIGHT, User()) {
        WriteFits(h, supernode.users, d.uuid, d, node, node');
      }
      var file := store.Materialise(FilenodeClass, d);
      r := store.WriteFile(file, reason, offset, data, node.bytes, log);
      d' := file.Data();
      FileCloses(OnStore(), store.rootKey.state, store.auditRootKey.state, d.uuid, d', node',
                 AccessLog(node, log, WRITE_RIGHT, User(), reason));
      NodeTouched(h, OnStore(), d.uuid);
    }

    method ReadThrough(d: NodeData, reason: Bytes, offset: nat, length: nat, buffer: array<Byte>, ghost node: Node,
                       ghost log: seq<Bytes>)
        returns (r: int, d': NodeData)
      requires store.Valid() && NodeShown(OnStore(), d.uuid, d, node) && node.kind == FileKind
      requires Audited(OnStore(), d.uuid, log)
      requires CanRead(node, store.blockSize, offset, User(), reason) && length <= buffer.Length
      modifies store.disk, store.rootKey, store.auditRootKey, buffer
      ensures store.Valid() && Touches(old(OnStore()), OnStore(), {d.uuid})
      ensures r == ReadOf(node, store.blockSize, offset, length, User()).0
      ensures buffer[..] == Overlay(old(buffer[..]), 0, ReadOf(node, store.blockSize, offset, length, User()).1)
      ensures NodeShown(OnStore(), d.uuid, d', node)
      ensures Audited(OnStore(), d.uuid, AccessLog(node, log, READ_RIGHT, User(), reason))
    {
      hide NodeShown, Logged, Stands, ReadFlat, Text, FileOf, OnlyNode, HasUserRights, Allows, Touches, Overlay;
      ghost var h := OnStore();
      FileOpens(h, store.rootKey.state, store.auditRootKey.state, d.uuid, d, node, log);
      MayAccess(h, d.uuid, d, node, READ_RIGHT, User());
      OverlayNothing(buffer[..], 0);
      var file := store.Materialise(FilenodeClass, d);
      r := store.ReadFile(file, reason, offset, length, buffer, node.bytes, log);
      d' := file.Data();
      FileCloses(OnStore(), store.rootKey.state, store.auditRootKey.state, d.uuid, d', node,
                 AccessLog(node, log, READ_RIGHT, User(), reason));
      NodeTouched(h, OnStore(), d.uuid);
    }

    /** Truncates through a node object; when it grows, the host holds no tree any more. */
    method TruncateThrough(d: NodeData, newSize: nat, ghost node: Node, ghost log: seq<Bytes>)
        returns (r: int, d': NodeData)
      requires store.Valid() && NodeShown(OnStore(), d.uuid, d, node) && node.kind == FileKind
      requires Audited(OnStore(), d.uuid, log) && CanTruncate(node, newSize, User())
      modifies store.disk, store.rootKey
      ensures store.Valid() && Touches(old(OnStore()), OnStore(), {d.uuid})
      ensures if Grows(node, newSize, User()) then r == 0 && d'.fileSize == newSize && NoTree(OnStore())
              else r == TruncateTo(node, newSize, User()).0 && Audited(OnStore(), d.uuid, log)
                   && NodeShown(OnStore(), d.uuid, d', TruncateTo(node, newSize, User()).1)
    {
      hide NodeShown, Logged, Stands, FileOf, OnlyNode, HasUserRights, Allows, Touches, Outgrown, NoTree;
      ghost var h := OnStore();
      FileOpens(h, store.rootKey.state, store.auditRootKey.state, d.uuid, d, node, log);
      MayAccess(h, d.uuid, d, node, WRITE_RIGHT, User());
      r, d' := store.TruncateNode(d, newSize, node.bytes, log);
      NodeTouched(h, OnStore(), d.uuid);
      if Grows(node, newSize, User()) {
        NothingShown(OnStore(), store.rootKey.state, d');
      } else {
        ghost var node' := TruncateTo(node, newSize, User()).1;
        FileCloses(OnStore(), store.rootKey.state, store.auditRootKey.state, d.uuid, d', node', log);
      }
    }

    /** The object of `path` has changed with its files, and stays loaded. */
    ghost method Reloaded(path: Bytes, u: Bytes, d: NodeData, node: Node, log: seq<Bytes>, h: Host)
      requires store.Valid() && ValidUuid(store.currentUser.uuid) && OnHost(h, tree, logs, supernode)
      requires InMemory(h, tree, loaded, cache) && IsPath(path) && Resolve(tree, Components(path)) == Some(u)
      requires u in tree && tree[u].kind != RootKind && SameShape(tree[u], node)
      requires Touches(h, OnStore(), {u}) && NodeShown(OnStore(), u, d, node) && Audited(OnStore(), u, log)
      modifies this`tree, this`logs, this`cache
      ensures Mounted() && InMemory(OnStore(), tree, loaded[path := d], cache) && path != ROOT_PATH
      ensures tree == old(tree)[u := node] && logs == old(logs)[u := log]
    {
      hide OnHost, InMemory, OnStore, NodeShown, Resolve, Components, IsPath, Logged, Touches, ValidUuid;
      NodeDone(h, OnStore(), tree, logs, supernode, loaded, cache, path, u, d, node, log);
      tree, logs, cache := tree[u := node], logs[u := log], cache[path := Handle(u, node)];
    }

    /** `dynamic_cast` to `Filenode` of what is retrieved, which stays loaded. */
    method RetrieveFile(path: Bytes) returns (d: Option<NodeData>)
      requires Valid() && IsPath(path)
      modifies this`loaded, this`cache, store.rootKey
      ensures Valid() && OnStore() == old(OnStore()) && loaded.Keys == FoundCached(tree, old(loaded.Keys), path)
      ensures d.Some? <==> FileAt(tree, Components(path)).Some?
      ensures d.Some? ==> path != ROOT_PATH && path in loaded && loaded[path] == d.value
      ensures d.Some? ==> var u := FileAt(tree, Components(path)).value;
        d.value.uuid == u && NodeShown(OnStore(), u, d.value, tree[u]) && u in logs && Audited(OnStore(), u, logs[u])
    {
      hide OnHost, InMemory, OnStore, NodeShown, IsTree, Resolve, Components, IsPath, Logged;
      d := Retrieve(path);
      if d.None? {
        return;
      }
      ghost var u := Resolve(tree, Components(path)).value;
      ShownFacts(OnStore(), u, d.value, tree[u]);
      SameEntries(OnStore(), u, d.value, tree[u]);
      if d.value.typ != FILENODE_TYPE {
        return None;
      }
      TreeStands();
      LogStands(u);
      PathOfRoot(tree, path, u);
      RootIn(tree);
    }

    /** `write_file`: whatever is found stays loaded, a changed file with its new keys and size. */
    method WriteFile(path: Bytes, reason: Bytes, offset: nat, data: Bytes) returns (r: int)
      requires Valid() && IsPath(path)
      requires FileAt(tree, Components(path)).Some? ==>
        CanWriteTo(tree[FileAt(tree, Components(path)).value], supernode.users, store.blockSize, offset, data, User(),
                   reason)
      modifies this, store.disk, store.rootKey, store.auditRootKey
      ensures Valid() && (r, tree) == WriteIn(old(tree), store.blockSize, Components(path), offset, data, User())
      ensures logs == AccessLogs(old(tree), old(logs), Components(path), WRITE_RIGHT, User(), reason)
      ensures supernode == old(supernode) && loaded.Keys == FoundCached(old(tree), old(loaded.Keys), path)
    {
      hide OnHost, InMemory, OnStore, NodeShown, IsTree, Resolve, Components, IsPath, Logged, Touches, WriteTo,
           AccessLog, CanWriteTo, FileAt, ValidUuid;
      var d := RetrieveFile(path);
      if d.None? {
        return -ENOENT;
      }
      ghost var u, h := FileAt(tree, Components(path)).value, OnStore();
      WriteKeepsShape(tree[u], store.blockSize, offset, data, User());
      var d';
      r, d' := WriteThrough(d.value, reason, offset, data, tree[u], logs[u]);
      Reloaded(path, u, d', WriteTo(tree[u], store.blockSize, offset, data, User()).1,
               AccessLog(tree[u], logs[u], WRITE_RIGHT, User(), reason), h);
      loaded := loaded[path := d'];
    }

    /** `read_file`: whatever is found stays loaded. */
    method ReadFile(path: Bytes, reason: Bytes, offset: nat, length: nat, buffer: array<Byte>) returns (r: int)
      requires Valid() && IsPath(path) && length <= buffer.Length
      requires FileAt(tree, Components(path)).Some? ==>
        CanRead(tree[FileAt(tree, Components(path)).value], store.blockSize, offset, User(), reason)
      modifies this, store.disk, store.rootKey, store.auditRootKey, buffer
      ensures Valid() && r == ReadIn(tree, store.blockSize, Components(path), offset, length, User()).0
      ensures buffer[..]
        == Overlay(old(buffer[..]), 0, ReadIn(tree, store.blockSize, Components(path), offset, length, User()).1)
      ensures tree == old(tree) && logs == AccessLogs(tree, old(logs), Components(path), READ_RIGHT, User(), reason)
      ensures supernode == old(supernode) && loaded.Keys == FoundCached(tree, old(loaded.Keys), path)
    {
      hide OnHost, InMemory, OnStore, NodeShown, IsTree, Resolve, Components, IsPath, Logged, Touches, ReadOf,
           AccessLog, CanRead, FileAt, ValidUuid, Overlay;
      OverlayNothing(buffer[..], 0);
      var d := RetrieveFile(path);
      if d.None? {
        return -ENOENT;
      }
      ghost var u, h := FileAt(tree, Components(path)).value, OnStore();
      var d';
      r, d' := ReadThrough(d.value, reason, offset, length, buffer, tree[u], logs[u]);
      Reloaded(path, u, d', tree[u], AccessLog(tree[u], logs[u], READ_RIGHT, User(), reason), h);
      assert tree == old(tree);
      loaded := loaded[path := d'];
    }

    /** `truncate_file`: whatever is found stays loaded. The host holds a tree afterwards unless the file grows. */
    method TruncateFile(path: Bytes, newSize: nat) returns (r: int)
      requires Valid() && IsPath(path)
      requires FileAt(tree, Components(path)).Some? ==>
        CanTruncate(tree[FileAt(tree, Components(path)).value], newSize, User())
      modifies this, store.disk, store.rootKey
      ensures if GrowsAt(old(tree), Components(path), newSize, User())
        then r == 0 && path in loaded && loaded[path].fileSize == newSize && NoTree(OnStore())
        else Valid() && (r, tree) == TruncateIn(old(tree), Components(path), newSize, User()) && logs == old(logs)
      ensures supernode == old(supernode) && loaded.Keys == FoundCached(old(tree), old(loaded.Keys), path)
    {
      hide OnHost, InMemory, OnStore, NodeShown, IsTree, Resolve, Components, IsPath, Logged, Touches, TruncateTo,
           CanTruncate, FileAt, ValidUuid, Grows, NoTree;
      var d := RetrieveFile(path);
      if d.None? {
        return -ENOENT;
      }
      ghost var u, h := FileAt(tree, Components(path)).value, OnStore();
      TruncateKeepsShape(tree[u], newSize, User());
      var d';
      r, d' := TruncateThrough(d.value, newSize, tree[u], logs[u]);
      if !Grows(tree[u], newSize, User()) {
        Reloaded(path, u, d', TruncateTo(tree[u], newSize, User()).1, logs[u], h);
        assert logs == old(logs);
      }
      loaded := loaded[path := d'];
    }

    /** `file_size` frees a file, but not a directory that it finds instead. */
    method FileSize(path: Bytes) returns (r: int)
      requires Valid() && IsPath(path)
      modifies this`loaded, this`cache, store.rootKey
      ensures Valid() && r == SizeIn(tree, Components(path)) && loaded.Keys == SizeCached(tree, old(loaded.Keys), path)
    {
      hide OnHost, InMemory, OnStore, NodeShown, IsTree, Resolve, Components, IsPath, Logged, FileAt, ValidUuid;
      var d := RetrieveFile(path);
      if d.None? {
        return -ENOENT;
      }
      SizeShown(OnStore(), d.value.uuid, d.value, tree[d.value.uuid]);
      r := d.value.fileSize;
      Release(path);
    }

    // ----- opening, types, rights and listings -----

    /** `open_file`: whatever is found stays loaded, also when it is a directory or the rights are missing. */
    method OpenFile(path: Bytes, asked: Rights) returns (r: int)
      requires Valid() && IsPath(path)
      modifies this`loaded, this`cache, store.rootKey
      ensures Valid() && r == OpenCode(tree, Components(path), asked, User())
      ensures loaded.Keys == FoundCached(tree, old(loaded.Keys), path)
    {
      hide OnHost, InMemory, OnStore, NodeShown, IsTree, Resolve, Components, IsPath, Logged, ValidUuid, Allows,
           Permits;
      var d := RetrieveFile(path);
      if d.None? {
        return -ENOENT;
      }
      ShownAllows(OnStore(), d.value.uuid, d.value, tree[d.value.uuid], asked, User());
      r := if Permitted(d.value, asked) then 0 else -EACCES;
    }

    method CloseFile(path: Bytes)
      requires Valid() && IsPath(path)
      modifies this`loaded, this`cache
      ensures Valid() && loaded.Keys == old(loaded.Keys) - Key(path)
    {
      Release(path);
    }

    /** `entry_type`: a loaded node answers for its path, current or not. */
    method EntryType(path: Bytes) returns (r: int)
      requires Mounted() && IsPath(path)
      modifies this`loaded, this`cache, store.rootKey
      ensures Mounted() && loaded.Keys == old(loaded.Keys) - Key(path)
      ensures path != ROOT_PATH && path in old(loaded) ==> r == TypeReply(old(loaded)[path].typ)
      ensures path !in old(loaded) ==> r == TypeCode(tree, Components(path))
      ensures old(Valid()) ==> Valid() && r == TypeCode(tree, Components(path))
    {
      hide OnHost, InMemory, OnStore, NodeShown, IsTree, Resolve, Components, IsPath, TypeCode, Found;
      RootNamed(OnStore(), tree, logs, supernode);
      ghost var current := Valid();
      var node := RetrieveNode(path);
      if path !in old(loaded) || current {
        TypeFound(OnStore(), tree, Components(path), node);
      }
      if node.None? {
        return -ENOENT;
      }
      r := TypeReply(node.value.typ);
      if current {
        Evicted(OnStore(), tree, loaded, cache, Key(path));
      }
      FreeNode(path);
      cache := cache - Key(path);
    }

    /** `retrieve_user` finds the user. */
    predicate Known(target: Bytes)
      reads this
    {
      CString(target) in supernode.users
    }

    /** The rights of the user are changed, and the node is written and freed. */
    method SaveRights(path: Bytes, d: NodeData, rights: Rights, target: Bytes, ghost u: Bytes)
      requires Valid() && IsPath(path) && Resolve(tree, Components(path)) == Some(u) && u in tree
      requires NodeShown(OnStore(), u, d, tree[u]) && CString(target) in supernode.users
      requires EditIn(tree, Components(path), rights, target, true, User()).0 == 0
      requires AllFit(supernode.users, store.blockSize, EditIn(tree, Components(path), rights, target, true, User()).1)
      modifies this, store.disk, store.rootKey
      ensures Valid() && logs == old(logs) && supernode == old(supernode)
      ensures tree == EditIn(old(tree), Components(path), rights, target, true, User()).1
      ensures loaded.Keys == old(loaded.Keys) - Key(path)
    {
      hide OnHost, InMemory, OnStore, NodeShown, IsTree, Resolve, Components, IsPath, AllFit, EditIn, Logged, Touches,
           WellFormed, BodyShown, CString, ValidUuid, Matches;
      TreeStands();
      Settings();
      LogStands(u);
      ghost var h, node := OnStore(), tree[u].(rights := tree[u].rights[CString(target) := rights]);
      EditedNode(tree, Components(path), rights, target, true, User());
      var time := CurrentTime();
      var user := supernode.users[CString(target)];
      var d' := d.(entitlements := d.entitlements[CString(user.uuid) := rights], ctime := time);
      EditReady(h, tree, logs, supernode, u, d, d', target, rights, node);
      SaveNode(d', node, logs[u]);
      NodeDone(h, OnStore(), tree, logs, supernode, loaded, cache, path, u, d', node, logs[u]);
      RootNamed(h, tree, logs, supernode);
      FreeNode(path);
      tree, cache := tree[u := node], cache - Key(path);
      assert logs[u := logs[u]] == logs;
    }

    /** The checks of `edit_user_entitlement`, for a known user. */
    method EditFound(path: Bytes, d: NodeData, rights: Rights, target: Bytes, ghost u: Bytes) returns (r: int)
      requires Valid() && IsPath(path) && Resolve(tree, Components(path)) == Some(u) && u in tree
      requires NodeShown(OnStore(), u, d, tree[u]) && Known(target)
      requires AllFit(supernode.users, store.blockSize, EditIn(tree, Components(path), rights, target, true, User()).1)
      modifies this, store.disk, store.rootKey
      ensures Valid() && logs == old(logs) && supernode == old(supernode)
      ensures (r, tree) == EditIn(old(tree), Components(path), rights, target, true, User())
      ensures loaded.Keys == old(loaded.Keys) - Key(path)
    {
      hide Mounted, InMemory, OnStore, NodeShown, IsTree, Resolve, Components, IsPath, AllFit, EditIn, EditCached,
           Matches, Allows, Permits, CString, Key;
      TreeStands();
      EditDecided(OnStore(), tree, path, u, d, rights, target, User());
      r := if !Permitted(d, OWNER_RIGHT) then -EACCES else if d.typ == SupernodeClass.Code() then -EPROTO else 0;
      if r < 0 {
        Release(path);
      } else {
        SaveRights(path, d, rights, target, u);
      }
    }

    /** `edit_user_entitlement`: an unknown user leaves the node loaded. */
    method EditUserEntitlement(path: Bytes, rights: Rights, target: Bytes) returns (r: int)
      requires Valid() && IsPath(path)
      requires AllFit(supernode.users, store.blockSize,
                      EditIn(tree, Components(path), rights, target, Known(target), User()).1)
      modifies this, store.disk, store.rootKey
      ensures Valid() && logs == old(logs) && supernode == old(supernode)
      ensures (r, tree) == EditIn(old(tree), Components(path), rights, target, old(Known(target)), User())
      ensures loaded.Keys == EditCached(old(tree), old(loaded.Keys), path, old(Known(target)))
    {
      hide Mounted, InMemory, OnStore, NodeShown, IsTree, Resolve, Components, IsPath, AllFit, EditIn, EditCached,
           Matches, Allows, Permits, CString, FoundCached, Key;
      TreeStands();
      FoundKeys(tree, loaded.Keys, path);
      EditCases(tree, loaded.Keys, path, rights, target, Known(target), User());
      var node := Retrieve(path);
      if node.None? || !Known(target) {
        return -ENOENT;
      }
      r := EditFound(path, node.value, rights, target, Resolve(tree, Components(path)).value);
    }

    /** The loop of `readdir`, over the entries in the order of their names. */
    method ListChildren(entries: map<Bytes, Bytes>, ghost u: Bytes) returns (names: seq<Bytes>)
      requires Mounted() && u in tree && entries == tree[u].entries
      modifies store.rootKey
      ensures Mounted() && OnStore() == old(OnStore())
      ensures forall k :: k in KeyList(entries) ==> k in entries && entries[k] in tree
      ensures names == Visible(tree, entries, KeyList(entries), User())
    {
      hide OnHost, OnStore, NodeShown, IsTree, Sees, KeyList;
      TreeStands();
      ListingExact(tree, u, User());
      var ks, i := KeyList(entries), 0;
      names := [];
      while i < |ks|
        invariant 0 <= i <= |ks| && Mounted() && OnStore() == old(OnStore())
        invariant forall k :: k in ks[..i] ==> k in entries && entries[k] in tree
        invariant names == Visible(tree, entries, ks[..i], User())
      {
        assert ks[..i + 1][..i] == ks[..i] && ks[i] in ks;
        EntryFacts(tree, u, ks[i], u, ks[i]);
        var child := LoadNode(entries[ks[i]]);
        SameEntries(OnStore(), entries[ks[i]], child.value, tree[entries[ks[i]]]);
        ShownSees(OnStore(), entries[ks[i]], child.value, tree[entries[ks[i]]], User());
        if Permitted(child.value, OWNER_RIGHT) || Permitted(child.value, READ_RIGHT)
           || Permitted(child.value, WRITE_RIGHT) {
          names := names + [child.value.path];
        }
        i := i + 1;
      }
      assert ks[..|ks|] == ks;
    }

    /** The end of `readdir`: the directory is written with its new access time, and freed. */
    method SaveTime(path: Bytes, node: NodeData, ghost u: Bytes)
      requires Valid() && IsPath(path) && Resolve(tree, Components(path)) == Some(u) && u in tree
      requires NodeShown(OnStore(), u, node, tree[u]) && (path == ROOT_PATH ==> node == supernode)
      modifies this`supernode, this`loaded, this`cache, store.disk, store.rootKey
      ensures Valid() && supernode.users == old(supernode.users) && loaded.Keys == old(loaded.Keys) - Key(path)
    {
      hide OnHost, InMemory, OnStore, NodeShown, IsTree, Resolve, Components, IsPath, Logged, Touches, WellFormed,
           BodyShown, ValidUuid, Matches, Key;
      TreeStands();
      ghost var h := OnStore();
      LogStands(u);
      var time := CurrentTime();
      var d := node.(atime := time);
      TimeReady(h, u, node, d, tree[u]);
      SaveNode(d, tree[u], logs[u]);
      ShownDone(h, OnStore(), tree, logs, supernode, loaded, cache, path, u, d);
      RootNamed(h, tree, logs, supernode);
      DropParent(path, d);
      cache := cache - Key(path);
    }

    /** `readdir` of a path that resolves: the access time of the directory is all that changes. */
    method Readdir(path: Bytes) returns (names: seq<Bytes>)
      requires Valid() && IsPath(path) && Resolve(tree, Components(path)).Some?
      modifies this, store.disk, store.rootKey
      ensures Valid() && tree == old(tree) && logs == old(logs) && supernode.users == old(supernode.users)
      ensures loaded.Keys == old(loaded.Keys) - Key(path)
      ensures var u := Resolve(tree, Components(path)).value;
        u in tree && (forall k :: k in KeyList(tree[u].entries) ==> k in tree[u].entries && tree[u].entries[k] in tree)
        && names == Visible(tree, tree[u].entries, KeyList(tree[u].entries), User())
    {
      hide OnHost, InMemory, OnStore, NodeShown, IsTree, Resolve, Components, IsPath, ValidUuid, Matches, Visible,
           KeyList, Key;
      TreeStands();
      FoundKeys(tree, loaded.Keys, path);
      var node := Retrieve(path);
      ghost var u := Resolve(tree, Components(path)).value;
      SameEntries(OnStore(), u, node.value, tree[u]);
      names := ListChildren(node.value.entries, u);
      SaveTime(path, node.value, u);
    }
  }
}
