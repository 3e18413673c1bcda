/** Whole runs of operations by path: the cache of loaded nodes never shows, and the host always holds the tree. */
module FileSystemRuns {
  import opened ByteStrings
  import opened Orders
  import opened Codec
  import opened SealedMetadata
  import opened Paths
  import opened NodeRecords
  import opened NodeRoundTrip
  import opened AccessRights
  import opened Trees
  import opened TreeChanges
  import opened TreeFiles
  import opened NodeCaches
  import opened FileStores
  import opened FileSystemStates
  import opened FileSystems

  datatype Op =
    | Create(path: Bytes, uuid: Bytes, reason: Bytes)
    | Mkdir(path: Bytes, uuid: Bytes, reason: Bytes)
    | Unlink(path: Bytes, reason: Bytes)
    | Rmdir(path: Bytes, reason: Bytes)
    | Rename(path: Bytes, now: Bytes)
    | Open(path: Bytes, asked: Rights)
    | Close(path: Bytes)
    | Type(path: Bytes)
    | Size(path: Bytes)
    | Edit(path: Bytes, rights: Rights, target: Bytes)
    | List(path: Bytes)
    | Read(path: Bytes, reason: Bytes, offset: nat, length: nat)
    | Write(path: Bytes, reason: Bytes, offset: nat, data: Bytes)
    | Truncate(path: Bytes, newSize: nat)

  datatype Reply = Code(code: int) | Names(names: seq<Bytes>) | Content(code: int, data: Bytes)

  /** What no operation changes: who is logged in, the registered users and the block size. */
  datatype Setting = Setting(user: Bytes, users: map<Bytes, User>, bs: nat)

  /** The simple thing: a tree of nodes with flat files, and the audited reasons. */
  datatype State = State(tree: Tree, logs: Logs)

  /** The names that the user sees in a directory. */
  function Listing(t: Tree, cs: seq<Bytes>, user: Bytes): seq<Bytes> {
    var u := Resolve(t, cs);
    if u.None? || u.value !in t then [] else
    var entries := t[u.value].entries;
    var ks := KeyList(entries);
    if forall k | k in ks :: k in entries && entries[k] in t then Visible(t, entries, ks, user) else []
  }

  /** What an operation does to the tree and answers, with nothing loaded before it. */
  function ApplyTree(w: Setting, t: Tree, op: Op): (Tree, Reply)
    requires w.bs > 0
  {
    var cs := Components(op.path);
    match op
    case Create(_, uuid, _) => var r := CreateIn(t, cs, FileKind, uuid, w.user); (r.1, Code(r.0))
    case Mkdir(_, uuid, _) => var r := CreateIn(t, cs, DirKind, uuid, w.user); (r.1, Code(r.0))
    case Unlink(_, _) => var r := UnlinkIn(t, cs, w.user); (r.1, Code(r.0))
    case Rmdir(_, _) => var r := RmdirIn(t, cs, w.user); (r.1, Code(r.0))
    case Rename(_, now) => var r := RenameIn(t, cs, Components(now)); (r.1, Code(r.0))
    case Open(_, asked) => (t, Code(OpenCode(t, cs, asked, w.user)))
    case Close(_) => (t, Code(0))
    case Type(_) => (t, Code(TypeCode(t, cs)))
    case Size(_) => (t, Code(SizeIn(t, cs)))
    case Edit(_, rights, target) =>
      var r := EditIn(t, cs, rights, target, CString(target) in w.users, w.user); (r.1, Code(r.0))
    case List(_) => (t, Names(Listing(t, cs, w.user)))
    case Read(_, _, offset, length) => var r := ReadIn(t, w.bs, cs, offset, length, w.user); (t, Content(r.0, r.1))
    case Write(_, _, offset, data) => var r := WriteIn(t, w.bs, cs, offset, data, w.user); (r.1, Code(r.0))
    case Truncate(_, newSize) => var r := TruncateIn(t, cs, newSize, w.user); (r.1, Code(r.0))
  }

  /** Which actions are audited, and where. */
  function ApplyLogs(w: Setting, t: Tree, logs: Logs, op: Op): Logs {
    var cs := Components(op.path);
    match op
    case Create(_, uuid, reason) => CreateLogs(t, logs, cs, uuid, reason)
    case Mkdir(_, uuid, reason) => CreateLogs(t, logs, cs, uuid, reason)
    case Unlink(_, reason) => RemoveLogs(t, logs, cs, UnlinkIn(t, cs, w.user).0, reason)
    case Rmdir(_, reason) => RemoveLogs(t, logs, cs, RmdirIn(t, cs, w.user).0, reason)
    case Read(_, reason, _, _) => AccessLogs(t, logs, cs, READ_RIGHT, w.user, reason)
    case Write(_, reason, _, _) => AccessLogs(t, logs, cs, WRITE_RIGHT, w.user, reason)
    case _ => logs
  }

  function Apply(w: Setting, s: State, op: Op): (State, Reply)
    requires w.bs > 0
  {
    (State(ApplyTree(w, s.tree, op).0, ApplyLogs(w, s.tree, s.logs, op)), ApplyTree(w, s.tree, op).1)
  }

  /** Which paths are loaded after an operation. */
  function Cached(w: Setting, t: Tree, cached: set<Bytes>, op: Op): set<Bytes> {
    match op
    case Create(path, _, _) => CreateCached(t, cached, path, FileKind)
    case Mkdir(path, _, _) => CreateCached(t, cached, path, DirKind)
    case Unlink(path, _) => UnlinkCached(t, cached, path, w.user)
    case Rmdir(path, _) => RmdirCached(t, cached, path)
    case Rename(path, now) => RenameCached(t, cached, path, now)
    case Open(path, _) => FoundCached(t, cached, path)
    case Close(path) => cached - Key(path)
    case Type(path) => cached - Key(path)
    case Size(path) => SizeCached(t, cached, path)
    case Edit(path, _, target) => EditCached(t, cached, path, CString(target) in w.users)
    case List(path) => cached - Key(path)
    case Read(path, _, _, _) => FoundCached(t, cached, path)
    case Write(path, _, _, _) => FoundCached(t, cached, path)
    case Truncate(path, _) => FoundCached(t, cached, path)
  }

  /** What a creation needs: a drawn UUID that is not in use, and a parent that is no file. */
  predicate CanCreate(t: Tree, path: Bytes, uuid: Bytes, reason: Bytes) {
    uuid !in t && ValidUuid(uuid) && InDirectory(t, path) && |Text(reason)| < SECTION_LIMIT
  }

  /**
   What the operations need: clean paths, metadata that fits afterwards, no loaded node where `rename` or `rmdir`
   strikes, and of a file what its operations need.
   */
  ghost predicate Legal(w: Setting, t: Tree, cached: set<Bytes>, op: Op)
    requires w.bs > 0
  {
    var file := FileAt(t, Components(op.path));
    IsPath(op.path) && AllFit(w.users, w.bs, ApplyTree(w, t, op).0) &&
    match op
    case Create(path, uuid, reason) => CanCreate(t, path, uuid, reason)
    case Mkdir(path, uuid, reason) => CanCreate(t, path, uuid, reason)
    case Unlink(_, reason) => |Text(reason)| < SECTION_LIMIT
    case Rmdir(path, reason) =>
      |Text(reason)| < SECTION_LIMIT && (RmdirIn(t, Components(path), w.user).0 == 0 ==> path !in cached)
    case Rename(path, now) =>
      IsPath(now) && (RenameIn(t, Components(path), Components(now)).0 == 0 ==> NotCachedBelow(cached, path))
    case List(path) => Resolve(t, Components(path)).Some?
    case Read(_, reason, offset, _) => file.Some? ==> CanRead(t[file.value], w.bs, offset, w.user, reason)
    case Write(_, reason, offset, data) =>
      file.Some? ==> CanWriteTo(t[file.value], w.users, w.bs, offset, data, w.user, reason)
    case Truncate(_, newSize) =>
      file.Some? ==> CanTruncate(t[file.value], newSize, w.user) && !Grows(t[file.value], newSize, w.user)
    case _ => true
  }

  ghost predicate LegalRun(w: Setting, s: State, cached: set<Bytes>, ops: seq<Op>)
    requires w.bs > 0
    decreases |ops|
  {
    ops == [] || (Legal(w, s.tree, cached, ops[0])
                  && LegalRun(w, Apply(w, s, ops[0]).0, Cached(w, s.tree, cached, ops[0]), ops[1..]))
  }

  function RunTree(w: Setting, s: State, ops: seq<Op>): (State, seq<Reply>)
    requires w.bs > 0
    decreases |ops|
  {
    if ops == [] then (s, []) else
    var (s1, reply) := Apply(w, s, ops[0]);
    var (s2, replies) := RunTree(w, s1, ops[1..]);
    (s2, [reply] + replies)
  }

  lemma CreateStep(t: Tree, path: Bytes, kind: Kind, uuid: Bytes, user: Bytes)
    requires IsTree(t) && IsPath(path) && uuid !in t && InDirectory(t, path) && kind != RootKind
    ensures IsTree(CreateIn(t, Components(path), kind, uuid, user).1)
  {
    hide IsTree, Resolve, Components;
    if CreateIn(t, Components(path), kind, uuid, user).0 == 0 {
      CreateKeepsTree(t, Components(path), kind, uuid, user);
    }
  }

  lemma StepKeepsTree(w: Setting, t: Tree, cached: set<Bytes>, op: Op)
    requires w.bs > 0 && IsTree(t) && Legal(w, t, cached, op)
    ensures IsTree(ApplyTree(w, t, op).0)
  {
    hide IsTree, Resolve, Components, UnlinkIn, RmdirIn, RenameIn, EditIn, WriteIn, TruncateIn, AllFit;
    var cs := Components(op.path);
    match op
    case Create(path, uuid, _) =>
      CreateStep(t, path, FileKind, uuid, w.user);
    case Mkdir(path, uuid, _) =>
      CreateStep(t, path, DirKind, uuid, w.user);
    case Unlink(_, _) => UnlinkKeepsTree(t, cs, w.user, []);
    case Rmdir(_, _) => RmdirKeepsTree(t, cs, w.user, []);
    case Rename(_, now) => RenameKeepsTree(t, cs, Components(now));
    case Edit(_, rights, target) => EditKeepsTree(t, cs, rights, target, CString(target) in w.users, w.user, []);
    case Write(_, _, offset, data) => WriteKeepsTree(t, w.bs, cs, offset, data, w.user, []);
    case Truncate(_, newSize) => TruncateKeepsTree(t, cs, newSize, w.user, []);
    case _ =>
  }

  /** Every run keeps the tree. */
  lemma {:induction false} RunKeepsTree(w: Setting, s: State, cached: set<Bytes>, ops: seq<Op>)
    requires w.bs > 0 && IsTree(s.tree) && LegalRun(w, s, cached, ops)
    ensures IsTree(RunTree(w, s, ops).0.tree)
    decreases |ops|
  {
    hide IsTree, ApplyTree, ApplyLogs;
    if ops != [] {
      StepKeepsTree(w, s.tree, cached, ops[0]);
      hide Cached, Legal;
      RunKeepsTree(w, Apply(w, s, ops[0]).0, Cached(w, s.tree, cached, ops[0]), ops[1..]);
    }
  }

  ghost function SettingOf(fs: FileSystem): Setting
    reads fs, fs.store
  {
    Setting(fs.store.currentUser.uuid, fs.supernode.users, fs.store.blockSize)
  }

  ghost function StateOf(fs: FileSystem): State
    reads fs
  {
    State(fs.tree, fs.logs)
  }

  predicate Changes(op: Op) {
    op.Create? || op.Mkdir? || op.Unlink? || op.Rmdir? || op.Rename? || op.Edit?
  }

  method StepChange(fs: FileSystem, op: Op) returns (reply: Reply)
    requires fs.Valid() && Legal(SettingOf(fs), fs.tree, fs.loaded.Keys, op) && Changes(op)
    modifies fs, fs.store.disk, fs.store.rootKey, fs.store.auditRootKey
    ensures fs.Valid() && SettingOf(fs) == old(SettingOf(fs))
    ensures (StateOf(fs), reply) == Apply(old(SettingOf(fs)), old(StateOf(fs)), op)
    ensures fs.loaded.Keys == Cached(old(SettingOf(fs)), old(fs.tree), old(fs.loaded.Keys), op)
  {
    hide FileSystem.Mounted, InMemory, FileSystem.OnStore, Resolve, Components, IsPath, CreateIn, UnlinkIn, RmdirIn,
         RenameIn, EditIn, CreateCached, UnlinkCached, RmdirCached, RenameCached, EditCached, InDirectory,
         NotCachedBelow, AllFit, CreateLogs, RemoveLogs, CString, Text, ValidUuid, FileAt;
    var code;
    match op {
      case Create(path, uuid, reason) => code := fs.CreateFile(path, uuid, reason);
      case Mkdir(path, uuid, reason) => code := fs.CreateDirectory(path, uuid, reason);
      case Unlink(path, reason) => code := fs.Unlink(path, reason);
      case Rmdir(path, reason) => code := fs.RmDirectory(path, reason);
      case Rename(path, now) => code := fs.Rename(path, now);
      case Edit(path, rights, target) => code := fs.EditUserEntitlement(path, rights, target);
    }
    reply := Code(code);
  }

  predicate Accesses(op: Op) {
    op.Read? || op.Write? || op.Truncate?
  }

  /** What a read stores is as long as its code says. */
  lemma ReadHolds(t: Tree, bs: nat, cs: seq<Bytes>, offset: nat, length: nat, user: Bytes, prior: Bytes)
    requires bs > 0 && |prior| == length
    ensures var (r, data) := ReadIn(t, bs, cs, offset, length, user);
      |data| <= length && (if r < 0 then data == [] else r == |data| && Overlay(prior, 0, data)[..r] == data)
  {
    hide Resolve, Allows;
  }

  method StepContent(fs: FileSystem, op: Op) returns (reply: Reply)
    requires fs.Valid() && Legal(SettingOf(fs), fs.tree, fs.loaded.Keys, op) && Accesses(op)
    modifies fs, fs.store.disk, fs.store.rootKey, fs.store.auditRootKey
    ensures fs.Valid() && SettingOf(fs) == old(SettingOf(fs))
    ensures (StateOf(fs), reply) == Apply(old(SettingOf(fs)), old(StateOf(fs)), op)
    ensures fs.loaded.Keys == Cached(old(SettingOf(fs)), old(fs.tree), old(fs.loaded.Keys), op)
  {
    hide FileSystem.Mounted, InMemory, FileSystem.OnStore, Resolve, Components, IsPath, WriteIn, TruncateIn, ReadIn,
         AllFit, AccessLogs, FoundCached, Text, CanWriteTo, CanRead, CanTruncate, Grows, FileAt, Overlay;
    match op
    case Read(path, reason, offset, length) =>
      var buffer := new Byte[length];
      ghost var prior := buffer[..];
      fs.TreeStands();
      var r := fs.ReadFile(path, reason, offset, length, buffer);
      ReadHolds(fs.tree, fs.store.blockSize, Components(path), offset, length, fs.User(), prior);
      reply := Content(r, if r < 0 then [] else buffer[..r]);
    case Write(path, reason, offset, data) =>
      var r := fs.WriteFile(path, reason, offset, data);
      reply := Code(r);
    case Truncate(path, newSize) =>
      var r := fs.TruncateFile(path, newSize);
      reply := Code(r);
  }

  method StepLook(fs: FileSystem, op: Op) returns (reply: Reply)
    requires fs.Valid() && Legal(SettingOf(fs), fs.tree, fs.loaded.Keys, op) && !Changes(op) && !Accesses(op)
    modifies fs, fs.store.disk, fs.store.rootKey
    ensures fs.Valid() && SettingOf(fs) == old(SettingOf(fs))
    ensures (StateOf(fs), reply) == Apply(old(SettingOf(fs)), old(StateOf(fs)), op)
    ensures fs.loaded.Keys == Cached(old(SettingOf(fs)), old(fs.tree), old(fs.loaded.Keys), op)
  {
    hide FileSystem.Mounted, InMemory, FileSystem.OnStore, Resolve, Components, IsPath, OpenCode, TypeCode, SizeIn,
         AllFit, FoundCached, SizeCached, KeyList, Visible, FileAt, Key;
    match op
    case Open(path, asked) =>
      var r := fs.OpenFile(path, asked);
      reply := Code(r);
    case Close(path) =>
      fs.CloseFile(path);
      reply := Code(0);
    case Type(path) =>
      var r := fs.EntryType(path);
      reply := Code(r);
    case Size(path) =>
      var r := fs.FileSize(path);
      reply := Code(r);
    case List(path) =>
      var names := fs.Readdir(path);
      reply := Names(names);
  }

  /** One operation: its reply, what it leaves on the host, and which paths are loaded afterwards. */
  method Step(fs: FileSystem, op: Op) returns (reply: Reply)
    requires fs.Valid() && Legal(SettingOf(fs), fs.tree, fs.loaded.Keys, op)
    modifies fs, fs.store.disk, fs.store.rootKey, fs.store.auditRootKey
    ensures fs.Valid() && SettingOf(fs) == old(SettingOf(fs))
    ensures (StateOf(fs), reply) == Apply(old(SettingOf(fs)), old(StateOf(fs)), op)
    ensures fs.loaded.Keys == Cached(old(SettingOf(fs)), old(fs.tree), old(fs.loaded.Keys), op)
  {
    hide ApplyTree, ApplyLogs, Cached, Legal, FileSystem.Mounted, InMemory, FileSystem.OnStore;
    match op
    case Create(_, _, _) => reply := StepChange(fs, op);
    case Mkdir(_, _, _) => reply := StepChange(fs, op);
    case Unlink(_, _) => reply := StepChange(fs, op);
    case Rmdir(_, _) => reply := StepChange(fs, op);
    case Rename(_, _) => reply := StepChange(fs, op);
    case Edit(_, _, _) => reply := StepChange(fs, op);
    case Read(_, _, _, _) => reply := StepContent(fs, op);
    case Write(_, _, _, _) => reply := StepContent(fs, op);
    case Truncate(_, _) => reply := StepContent(fs, op);
    case _ => reply := StepLook(fs, op);
  }

  /**
   Every run from any loaded nodes, as long as they are current, gives the replies that it would give with nothing
   loaded, and leaves the tree, the files and the logs that it would then leave: they are what the metadata, content
   and audit files on the host hold.
   */
  method Run(fs: FileSystem, ops: seq<Op>) returns (replies: seq<Reply>)
    requires fs.Valid() && LegalRun(SettingOf(fs), StateOf(fs), fs.loaded.Keys, ops)
    modifies fs, fs.store.disk, fs.store.rootKey, fs.store.auditRootKey
    ensures fs.Valid() && SettingOf(fs) == old(SettingOf(fs))
    ensures (StateOf(fs), replies) == RunTree(old(SettingOf(fs)), old(StateOf(fs)), ops)
    ensures Shown(fs.OnStore(), fs.tree, fs.logs)
    decreases |ops|
  {
    hide Apply, Cached, Legal, InMemory, FileSystem.OnStore, NodeShown, IsTree, Shown;
    if ops == [] {
      return [];
    }
    var reply := Step(fs, ops[0]);
    var rest := Run(fs, ops[1..]);
    replies := [reply] + rest;
  }

  /** The life of a filesystem from an empty host on. */
  method NewAndRun(store: FileStore, users: map<Bytes, User>, ops: seq<Op>)
      returns (fs: FileSystem, replies: seq<Reply>)
    requires store.Valid() && ValidUuid(store.currentUser.uuid) && store.disk.files == map[]
    requires forall k :: k in users ==> ValidUser(k, users[k])
    requires SectionSize(users, store.blockSize, EMPTY_ROOT) < SECTION_LIMIT
    requires LegalRun(Setting(store.currentUser.uuid, users, store.blockSize),
                      State(NEW_TREE, map[ROOT_UUID := []]), {}, ops)
    modifies store.disk, store.rootKey, store.auditRootKey
    ensures fresh(fs) && fs.store == store && fs.Valid()
    ensures (StateOf(fs), replies)
      == RunTree(Setting(old(store.currentUser.uuid), users, store.blockSize),
                 State(NEW_TREE, map[ROOT_UUID := []]), ops)
  {
    hide LegalRun, RunTree, SectionSize, ValidUser, InMemory, FileSystem.Mounted, FileSystem.OnStore;
    fs := new FileSystem(store, users);
    assert fs.loaded.Keys == {};
    replies := Run(fs, ops);
  }
}
