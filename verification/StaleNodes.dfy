/** Runs from a new filesystem after which the cache, the tree or a lookup is not what it should be. */
module StaleNodes {
  import opened ByteStrings
  import opened Errno
  import opened Options
  import opened Orders
  import opened Codec
  import opened SealedMetadata
  import opened Paths
  import opened NodeRecords
  import opened NodeRoundTrip
  import opened AccessRights
  import Nodes
  import opened FileStates
  import opened FileStores
  import opened Trees
  import opened TreeChanges
  import opened TreeFiles
  import opened NodeCaches
  import opened FileSystemStates
  import opened NodeUpdates
  import opened FileSystems

  // ----- a loaded node answers for its path after it is gone -----

  lemma LoadedType(h: Host, t: Tree, loaded: map<Bytes, NodeData>, cache: map<Bytes, Handle>, path: Bytes)
    requires IsTree(t) && InMemory(h, t, loaded, cache) && path in loaded
    ensures IsPath(path) && path != ROOT_PATH && TypeReply(loaded[path].typ) == TypeCode(t, Components(path))
    ensures path !in Key(DirectoryPath(path))
  {
    hide IsTree, NodeShown, Resolve, Components, IsPath, DirectoryPath, TypeCode, TypeReply;
    CachedFound(h, t, loaded, cache, path);
    TypeFound(h, t, Components(path), Some(loaded[path]));
    assert Current(t, path, cache[path]);
    DirectoryNames(path);
    PathIsItsNames(path);
    SamePath(path, DirectoryPath(path));
  }

  lemma RemovedIsDirectory(t: Tree, cs: seq<Bytes>, user: Bytes)
    requires IsTree(t) && RmdirIn(t, cs, user).0 == 0
    ensures Resolve(t, cs).Some? && Resolve(t, cs).value in t && t[Resolve(t, cs).value].kind == DirKind
  {
    hide IsTree, Walk, Allows, Remove;
    var u := Resolve(t, Init(cs)).value;
    RmdirRemoves(t, cs, user);
    EntryLooksUp(t, u, Last(cs));
    ResolveLast(t, cs);
  }

  lemma RmdirLeavesNothing(t: Tree, path: Bytes, user: Bytes)
    requires IsTree(t) && RmdirIn(t, Components(path), user).0 == 0
    ensures TypeCode(RmdirIn(t, Components(path), user).1, Components(path)) == -ENOENT
    ensures TypeCode(t, Components(path)) == EISDIR
    ensures forall cached ::
      path in cached && path !in Key(DirectoryPath(path)) ==> path in RmdirCached(t, cached, path)
  {
    hide IsTree, Components, RmdirIn, Resolve, DirectoryPath;
    RmdirKeepsTree(t, Components(path), user, Components(path));
    RemovedIsDirectory(t, Components(path), user);
  }

  lemma RenameLeavesNothing(t: Tree, was: Bytes, now: Bytes)
    requires IsTree(t) && RenameIn(t, Components(was), Components(now)).0 == 0
    ensures TypeCode(RenameIn(t, Components(was), Components(now)).1, Components(was)) == -ENOENT
  {
    hide IsTree, Components, RenameIn, Resolve;
    RenameMoves(t, Components(was), Components(now), Components(was));
    RenameRelabels(t, Components(was), Components(now));
    SameLast(Components(was), Components(now));
  }

  /** A directory that is removed while it is loaded is still announced under its path. */
  method TypeAfterRmdir(fs: FileSystem, path: Bytes, reason: Bytes) returns (code: int, typ: int)
    requires fs.Valid() && path in fs.loaded && |Text(reason)| < SECTION_LIMIT
    requires RmdirIn(fs.tree, Components(path), fs.User()).0 == 0
    requires AllFit(fs.supernode.users, fs.store.blockSize, RmdirIn(fs.tree, Components(path), fs.User()).1)
    modifies fs, fs.store.disk, fs.store.rootKey, fs.store.auditRootKey
    ensures code == 0 && typ == EISDIR && TypeCode(fs.tree, Components(path)) == -ENOENT
  {
    hide OnHost, FileSystem.OnStore, Components, IsPath, TypeCode, RmdirIn, RmdirCached, AllFit, DirectoryPath,
         TypeReply, Text, LoadedShown, AllCurrent, Key, ValidUuid;
    fs.TreeStands();
    LoadedType(fs.OnStore(), fs.tree, fs.loaded, fs.cache, path);
    RmdirLeavesNothing(fs.tree, path, fs.User());
    code := fs.RmDirectory(path, reason);
    typ := fs.EntryType(path);
  }

  lemma RenamedStaysCached(t: Tree, cached: set<Bytes>, was: Bytes, now: Bytes)
    requires was in cached && was !in Key(DirectoryPath(was)) && IsPath(was)
    ensures was in RenameCached(t, cached, was, now)
  {
    hide Resolve, Components, DirectoryPath, IsPath, Key;
  }

  /** A node that is renamed while it is loaded is still announced under its old path. */
  method TypeAfterRename(fs: FileSystem, was: Bytes, now: Bytes) returns (code: int, typ: int)
    requires fs.Valid() && was in fs.loaded && IsPath(now)
    requires RenameIn(fs.tree, Components(was), Components(now)).0 == 0
    requires AllFit(fs.supernode.users, fs.store.blockSize, RenameIn(fs.tree, Components(was), Components(now)).1)
    modifies fs, fs.store.disk, fs.store.rootKey
    ensures code == 0 && typ == TypeCode(old(fs.tree), Components(was)) && TypeCode(fs.tree, Components(was)) == -ENOENT
  {
    hide OnHost, FileSystem.OnStore, Components, IsPath, TypeCode, RenameIn, RenameCached, AllFit, DirectoryPath,
         TypeReply, LoadedShown, AllCurrent, Key, ValidUuid;
    fs.TreeStands();
    LoadedType(fs.OnStore(), fs.tree, fs.loaded, fs.cache, was);
    RenameLeavesNothing(fs.tree, was, now);
    RenamedStaysCached(fs.tree, fs.loaded.Keys, was, now);
    code := fs.Rename(was, now);
    typ := fs.EntryType(was);
  }

  // ----- such runs from a new filesystem -----

  /** The path with one name of one letter. */
  function ShortPath(letter: Byte): Bytes {
    [SLASH, letter]
  }

  lemma ShortPathNames(letter: Byte)
    requires letter != SLASH
    ensures IsPath(ShortPath(letter)) && Components(ShortPath(letter)) == [[letter]]
    ensures ShortPath(letter) != ROOT_PATH
  {
    var cs: seq<Bytes> := [[letter]];
    assert cs[1..] == [] && Join(cs) == [SLASH] + cs[0] + Join([]);
    assert IsName(cs[0]) && PathOf(cs) == ShortPath(letter);
    PathBack(cs);
  }

  /** The tree of a filesystem with one node below the root. */
  function OneNode(kind: Kind, name: Bytes, uuid: Bytes, user: Bytes): Tree {
    map[ROOT_UUID := EMPTY_ROOT.(entries := map[name := uuid]), uuid := NewNode(kind, name, user)]
  }

  lemma OneNodeMade(kind: Kind, name: Bytes, uuid: Bytes, user: Bytes)
    requires kind != RootKind && uuid != ROOT_UUID && IsName(name)
    ensures CreateIn(NEW_TREE, [name], kind, uuid, user) == (0, OneNode(kind, name, uuid, user))
  {
    hide CString;
    var cs, node := [name], NewNode(kind, name, user);
    assert Init(cs) == [] && Last(cs) == name && cs[1..] == [];
    var parent := EMPTY_ROOT.(entries := Insert(EMPTY_ROOT.entries, name, uuid));
    assert Save(Save(NEW_TREE, ROOT_UUID, parent), uuid, node) == OneNode(kind, name, uuid, user);
  }

  lemma FirstNode(kind: Kind, name: Bytes, uuid: Bytes, user: Bytes, reason: Bytes)
    requires kind != RootKind && uuid != ROOT_UUID && IsName(name)
    ensures IsTree(NEW_TREE) && Resolve(NEW_TREE, [name]) == None && Resolve(NEW_TREE, []) == Some(ROOT_UUID)
    ensures CreateIn(NEW_TREE, [name], kind, uuid, user) == (0, OneNode(kind, name, uuid, user))
    ensures var t := OneNode(kind, name, uuid, user);
      IsTree(t) && Resolve(t, [name]) == Some(uuid) && forall m :: m != name ==> Resolve(t, [m]) == None
  {
    hide IsTree, CString;
    EmptyIsTree(NEW_TREE);
    var cs := [name];
    assert Init(cs) == [] && Last(cs) == name && cs[1..] == [];
    assert Names(cs);
    OneNodeMade(kind, name, uuid, user);
    hide NewNode, CreateIn;
    CreateKeepsTree(NEW_TREE, cs, kind, uuid, user);
    CreateResolves(NEW_TREE, cs, kind, uuid, user, cs);
    forall m | m != name
      ensures Resolve(OneNode(kind, name, uuid, user), [m]) == None
    {
      assert [m][1..] == [];
      CreateResolves(NEW_TREE, cs, kind, uuid, user, [m]);
    }
  }

  lemma EntriesSmall(items: seq<(Bytes, Bytes)>)
    requires |items| <= 1 && forall e :: e in items ==> |e.0| == 1
    ensures EntriesSize(items) <= 31
  {
    if items != [] {
      assert items[..|items| - 1] == [] && items[|items| - 1] in items;
    }
  }

  lemma PlainSize(node: Node)
    requires |node.name| == 1 && |node.entries| <= 1 && |node.rights| <= 1
    requires forall k :: k in node.entries ==> |k| == 1 && |node.entries[k]| == UUID_SIZE
    ensures |NodeSection(Plain(node))| < 200
  {
    NodeSectionSizeExact(Plain(node));
    ItemsBack(node.entries);
    hide Items, NodeSection, EntriesSize;
    EntriesSmall(Items(node.entries));
  }

  lemma NoUsers()
    ensures |List(Values(map[]), UserRecord)| == 8
  {
    var users: map<Bytes, User> := map[];
    UsersBack(users);
    assert Values(users) == [];
  }

  lemma NodeFits(node: Node, bs: nat)
    requires bs > 0 && |node.name| == 1 && |node.entries| <= 1 && |node.rights| <= 1
    requires forall k :: k in node.entries ==> |k| == 1 && |node.entries[k]| == UUID_SIZE
    requires node.bytes == [] && !node.keyed
    ensures SectionSize(map[], bs, node) < SECTION_LIMIT
  {
    PlainSize(node);
    NoUsers();
    hide NodeSection, Plain, List, Values;
  }

  lemma SmallNodesFit(kind: Kind, name: Bytes, uuid: Bytes, user: Bytes, bs: nat)
    requires bs > 0 && kind != RootKind && uuid != ROOT_UUID && |uuid| == UUID_SIZE && |name| == 1
    ensures AllFit(map[], bs, NEW_TREE) && AllFit(map[], bs, OneNode(kind, name, uuid, user))
  {
    hide SectionSize, CString;
    NodeFits(EMPTY_ROOT, bs);
    NodeFits(EMPTY_ROOT.(entries := map[name := uuid]), bs);
    NodeFits(NewNode(kind, name, user), bs);
  }

  lemma RmdirOne(name: Bytes, uuid: Bytes, user: Bytes)
    requires uuid != ROOT_UUID && IsName(name)
    ensures RmdirIn(OneNode(DirKind, name, uuid, user), [name], user) == (0, NEW_TREE)
  {
    hide CString;
    var cs, t := [name], OneNode(DirKind, name, uuid, user);
    assert Init(cs) == [] && Last(cs) == name;
    assert Resolve(t, []) == Some(ROOT_UUID) && t[ROOT_UUID].entries[name] == uuid;
    assert map[name := uuid] - {name} == map[];
    assert Remove(t, ROOT_UUID, name, uuid) == NEW_TREE;
  }

  lemma RenameRelabelsOne(name: Bytes, name': Bytes, uuid: Bytes, user: Bytes)
    requires uuid != ROOT_UUID && name != name'
    ensures var t := OneNode(FileKind, name, uuid, user);
      Save(Save(t, ROOT_UUID, t[ROOT_UUID].(entries := Insert(t[ROOT_UUID].entries - {name}, name', uuid))), uuid,
           t[uuid].(name := name')) == OneNode(FileKind, name', uuid, user)
  {
    hide CString;
    assert Insert(map[name := uuid] - {name}, name', uuid) == map[name' := uuid];
  }

  lemma RenameOne(name: Bytes, name': Bytes, uuid: Bytes, user: Bytes)
    requires uuid != ROOT_UUID && IsName(name) && IsName(name') && name != name'
    ensures RenameIn(OneNode(FileKind, name, uuid, user), [name], [name']) == (0, OneNode(FileKind, name', uuid, user))
  {
    FirstNode(FileKind, name, uuid, user, []);
    hide IsTree, CString;
    var a, b, t := [name], [name'], OneNode(FileKind, name, uuid, user);
    assert Init(a) == Init(b) == [] && Last(a) == name && Last(b) == name';
    RenameRelabelsOne(name, name', uuid, user);
  }

  lemma OneNodeCodes(kind: Kind, name: Bytes, uuid: Bytes, user: Bytes, asked: Rights)
    requires kind != RootKind && uuid != ROOT_UUID && IsName(name)
    ensures var t := OneNode(kind, name, uuid, user);
      && TypeCode(t, [name]) == (if kind == FileKind then EEXIST else EISDIR)
      && (kind == DirKind ==> OpenCode(t, [name], asked, user) == -ENOENT)
  {
    FirstNode(kind, name, uuid, user, []);
    hide IsTree, Resolve, CString;
  }

  /** What the examples start from: a mounted store without files. */
  ghost predicate Unused(store: FileStore, uuid: Bytes, reason: Bytes)
    reads store, store.disk, store.rootKey, store.auditRootKey
  {
    && store.Valid() && ValidUuid(store.currentUser.uuid) && store.disk.files == map[]
    && ValidUuid(uuid) && uuid != ROOT_UUID && |Text(reason)| < SECTION_LIMIT
  }

  lemma FitsNew(bs: nat)
    requires bs > 0
    ensures SectionSize(map[], bs, EMPTY_ROOT) < SECTION_LIMIT
  {
    NodeFits(EMPTY_ROOT, bs);
  }

  lemma FirstCached(kind: Kind, letter: Byte)
    requires kind != RootKind && letter != SLASH
    ensures CreateCached(NEW_TREE, {}, ShortPath(letter), kind) == if kind == FileKind then {ShortPath(letter)} else {}
    ensures InDirectory(NEW_TREE, ShortPath(letter))
  {
    hide DirectoryPath;
    ShortPathNames(letter);
    assert Init([[letter]]) == [];
    assert Resolve(NEW_TREE, []) == Some(ROOT_UUID);
    assert [[letter]][1..] == [] && Resolve(NEW_TREE, [[letter]]) == None;
  }

  /** A new filesystem and its first node, which has a name of one letter. */
  method FirstOf(store: FileStore, kind: Kind, letter: Byte, uuid: Bytes, reason: Bytes) returns (fs: FileSystem)
    requires Unused(store, uuid, reason) && kind != RootKind && letter != SLASH
    modifies store.disk, store.rootKey, store.auditRootKey
    ensures fresh(fs) && fs.Valid() && fs.store == store && fs.supernode.users == map[]
    ensures fs.tree == OneNode(kind, [letter], uuid, fs.User())
    ensures fs.loaded.Keys == if kind == FileKind then {ShortPath(letter)} else {}
  {
    hide FileSystem.Mounted, InMemory, IsTree, SectionSize, NewNode, Text, CString, Components, IsPath, AllFit,
         ShortPath, CreateLogs, DirectoryPath;
    var path := ShortPath(letter);
    ShortPathNames(letter);
    SmallNodesFit(kind, [letter], uuid, store.currentUser.uuid, store.blockSize);
    FirstNode(kind, [letter], uuid, store.currentUser.uuid, reason);
    FirstCached(kind, letter);
    FitsNew(store.blockSize);
    fs := new FileSystem(store, map[]);
    var code;
    if kind == FileKind {
      code := fs.CreateFile(path, uuid, reason);
    } else {
      code := fs.CreateDirectory(path, uuid, reason);
    }
  }

  /**
   `mkdir "/d"`, `open "/d"`, which is refused but keeps it loaded, `rmdir "/d"`: a directory is still announced
   there.
   */
  method RmdirExample(store: FileStore, uuid: Bytes, reason: Bytes)
      returns (fs: FileSystem, open: int, removed: int, typ: int)
    requires Unused(store, uuid, reason)
    modifies store.disk, store.rootKey, store.auditRootKey
    ensures open == -ENOENT && removed == 0
    ensures typ == EISDIR && TypeCode(fs.tree, Components(ShortPath(100))) == -ENOENT
  {
    hide FileSystem.Mounted, InMemory, Text, Components, AllFit, ShortPath, RmdirIn, OpenCode, TypeCode, NewNode,
         OneNode;
    var path := ShortPath(100);
    ShortPathNames(100);
    SmallNodesFit(DirKind, [100], uuid, store.currentUser.uuid, store.blockSize);
    RmdirOne([100], uuid, store.currentUser.uuid);
    OneNodeCodes(DirKind, [100], uuid, store.currentUser.uuid, READ_RIGHT);
    FirstNode(DirKind, [100], uuid, store.currentUser.uuid, reason);
    fs := FirstOf(store, DirKind, 100, uuid, reason);
    open := fs.OpenFile(path, READ_RIGHT);
    removed, typ := TypeAfterRmdir(fs, path, reason);
  }

  /** Creating `"/f"`, which stays loaded, and `rename "/f" "/g"`: a file is still announced under the old path. */
  method RenameExample(store: FileStore, uuid: Bytes, reason: Bytes) returns (fs: FileSystem, renamed: int, typ: int)
    requires Unused(store, uuid, reason)
    modifies store.disk, store.rootKey, store.auditRootKey
    ensures renamed == 0 && typ == EEXIST && TypeCode(fs.tree, Components(ShortPath(102))) == -ENOENT
  {
    hide FileSystem.Mounted, InMemory, Text, Components, AllFit, ShortPath, RenameIn, TypeCode, NewNode, OneNode;
    ShortPathNames(102);
    ShortPathNames(103);
    SmallNodesFit(FileKind, [103], uuid, store.currentUser.uuid, store.blockSize);
    RenameOne([102], [103], uuid, store.currentUser.uuid);
    OneNodeCodes(FileKind, [102], uuid, store.currentUser.uuid, READ_RIGHT);
    fs := FirstOf(store, FileKind, 102, uuid, reason);
    renamed, typ := TypeAfterRename(fs, ShortPath(102), ShortPath(103));
  }

  lemma UnkeyedHasNoKeys(h: Host, t: Tree, loaded: map<Bytes, NodeData>, cache: map<Bytes, Handle>, path: Bytes,
                         u: Bytes)
    requires InMemory(h, t, loaded, cache) && path in loaded && Resolve(t, Components(path)) == Some(u)
    requires u in t && t[u].kind == FileKind && !t[u].keyed
    ensures loaded[path].keys == map[]
  {
    hide InSync, Stored, Resolve, Components;
    CachedFound(h, t, loaded, cache, path);
  }

  /**
   Creating `"/f"` and truncating it to 0, which its owner may: the loaded node has no key, and the first lookup of
   `truncate_keys` finds none.
   */
  method TruncateNewExample(store: FileStore, uuid: Bytes, reason: Bytes) returns (fs: FileSystem)
    requires Unused(store, uuid, reason)
    modifies store.disk, store.rootKey, store.auditRootKey
    ensures fs.Valid() && FileAt(fs.tree, Components(ShortPath(102))) == Some(uuid)
    ensures Allows(fs.tree[uuid], WRITE_RIGHT, fs.User()) && !CanTruncate(fs.tree[uuid], 0, fs.User())
    ensures ShortPath(102) in fs.loaded && fs.loaded[ShortPath(102)].keys == map[]
    ensures Nodes.LastKeyIndex(|fs.loaded[ShortPath(102)].keys|) !in fs.loaded[ShortPath(102)].keys
  {
    hide FileSystem.Mounted, InMemory, Text, Components, AllFit, ShortPath, IsTree, Resolve, CString;
    var path := ShortPath(102);
    ShortPathNames(102);
    FirstNode(FileKind, [102], uuid, store.currentUser.uuid, reason);
    fs := FirstOf(store, FileKind, 102, uuid, reason);
    assert fs.tree[uuid] == NewNode(FileKind, [102], fs.User());
    UnkeyedHasNoKeys(fs.OnStore(), fs.tree, fs.loaded, fs.cache, path, uuid);
    Nodes.NoKeyFoundExample();
  }

  /** Creating `"/f"`, then `"/f/x"`: both succeed, but nothing leads to the second node. */
  lemma CreateInFileExample(a: Bytes, b: Bytes, user: Bytes)
    requires a != b && a != ROOT_UUID && b != ROOT_UUID
    ensures var (first, t) := CreateIn(NEW_TREE, [[102]], FileKind, a, user);
            var (second, t') := CreateIn(t, [[102], [120]], FileKind, b, user);
      first == 0 && second == 0 && b in t' && Resolve(t', [[102], [120]]) == None && !IsTree(t')
  {
    assert IsName([102]);
    FirstNode(FileKind, [102], a, user, []);
    hide IsTree, CString;
    var t, cs: seq<Bytes> := OneNode(FileKind, [102], a, user), [[102], [120]];
    assert Init(cs) == [[102]] && Last(cs) == [120];
    ResolveLast(t, cs);
    CreateLoses(t, cs, FileKind, b, user);
    var t' := CreateIn(t, cs, FileKind, b, user).1;
    ResolveLast(t', cs);
  }
}
