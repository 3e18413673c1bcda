/** The namespace tree, with the bytes of its files, in the metadata, content and audit directories. */
module TreeFiles {
  import opened ByteStrings
  import opened Crypto
  import opened Codec
  import opened SealedMetadata
  import opened NodeRecords
  import opened AccessRights
  import opened NodeRoundTrip
  import opened FilenodeContents
  import opened Disks
  import opened Audits
  import opened MetadataFiles
  import opened AuditLogs
  import opened FlatFiles
  import opened FileParts
  import opened FileStates
  import opened Trees

  /** What the untrusted store holds, and the keys it is read with; their tags do not matter, and are left aside. */
  datatype Host = Host(suite: CipherSuite, bs: nat, root: GcmState, audit: GcmState, files: Files)

  function ClassOf(kind: Kind): Class {
    match kind
    case RootKind => SupernodeClass
    case DirKind => DirnodeClass
    case FileKind => FilenodeClass
  }

  predicate Matches(u: Bytes, d: NodeData, node: Node) {
    d.uuid == u && d.path == node.name && d.entries == node.entries && d.entitlements == node.rights
  }

  /** The keys of the node and its content file stand for the bytes; only a file has any. */
  ghost predicate BodyShown(h: Host, d: NodeData, node: Node) {
    if node.kind == FileKind
    then Stored(h.suite, h.bs, h.files, d, node.bytes) && (node.keyed <==> d.keys != map[])
    else node.bytes == [] && !node.keyed
  }

  /** The object state `d` and the files of `u` are the node. */
  ghost predicate NodeShown(h: Host, u: Bytes, d: NodeData, node: Node) {
    Matches(u, d, node) && InSync(h.suite, h.root, ClassOf(node.kind), h.files, d) && BodyShown(h, d, node)
  }

  ghost predicate OnDisk(h: Host, u: Bytes, node: Node) {
    exists d :: NodeShown(h, u, d, node)
  }

  ghost predicate Audited(h: Host, u: Bytes, log: seq<Bytes>) {
    Logged(h.suite, h.audit, h.files, u, log)
  }

  ghost predicate Shows(h: Host, u: Bytes, node: Node, log: seq<Bytes>) {
    OnDisk(h, u, node) && Audited(h, u, log)
  }

  /** The files of the three directories are exactly the nodes of the tree, their bytes and their logs. */
  ghost predicate Shown(h: Host, t: Tree, logs: Logs) {
    && logs.Keys == t.Keys
    && (forall k: (Directory, Bytes) :: k in h.files ==> k.1 in t)
    && (forall u :: u in t ==> Shows(h, u, t[u], logs[u]))
  }

  // ----- changes -----

  predicate SameFile(files: Files, files': Files, k: (Directory, Bytes)) {
    (k in files' <==> k in files) && (k in files ==> files'[k] == files[k])
  }

  /** Only files of the nodes `us` may differ. */
  ghost predicate Touches(h: Host, h': Host, us: set<Bytes>) {
    && h' == h.(files := h'.files)
    && forall k: (Directory, Bytes) :: k.1 !in us ==> SameFile(h.files, h'.files, k)
  }

  lemma NodeTouched(h: Host, h': Host, u: Bytes)
    requires h' == h.(files := h'.files) && OnlyNode(h.files, h'.files, u)
    ensures Touches(h, h', {u})
  {
  }

  lemma TouchesMore(h: Host, h1: Host, h2: Host, us: set<Bytes>, vs: set<Bytes>)
    requires Touches(h, h1, us) && Touches(h1, h2, vs)
    ensures Touches(h, h2, us + vs)
  {
    forall k: (Directory, Bytes) | k.1 !in us + vs
      ensures SameFile(h.files, h2.files, k)
    {
      assert SameFile(h.files, h1.files, k) && SameFile(h1.files, h2.files, k);
    }
  }

  lemma SameFilesOf(h: Host, h': Host, us: set<Bytes>, u: Bytes, dir: Directory)
    requires Touches(h, h', us) && u !in us
    ensures SameFile(h.files, h'.files, (dir, u)) && FileOf(h'.files, dir, u) == FileOf(h.files, dir, u)
    ensures h' == h.(files := h'.files)
  {
    assert SameFile(h.files, h'.files, (dir, u));
  }

  lemma NodeStillShown(h: Host, h': Host, us: set<Bytes>, u: Bytes, d: NodeData, node: Node)
    requires NodeShown(h, u, d, node) && Touches(h, h', us) && u !in us
    ensures NodeShown(h', u, d, node)
  {
    SameFilesOf(h, h', us, u, MetaDir);
    SameFilesOf(h, h', us, u, ContentDir);
    hide InSync, KeysFit, Touches;
    SyncKept(h.suite, h.root, h.root, ClassOf(node.kind), h.files, h'.files, d);
  }

  lemma LogKept(h: Host, h': Host, us: set<Bytes>, u: Bytes, log: seq<Bytes>)
    requires Audited(h, u, log) && Touches(h, h', us) && u !in us
    ensures Audited(h', u, log)
  {
    SameFilesOf(h, h', us, u, AuditDir);
    hide Touches, AuditFile, ValidLog, ReasonsOf, FileOf;
  }

  lemma StillShows(h: Host, h': Host, us: set<Bytes>, u: Bytes, node: Node, log: seq<Bytes>)
    requires Shows(h, u, node, log) && Touches(h, h', us) && u !in us
    ensures Shows(h', u, node, log)
  {
    hide NodeShown, Touches, Logged;
    var d :| NodeShown(h, u, d, node);
    NodeStillShown(h, h', us, u, d, node);
    LogKept(h, h', us, u, log);
  }

  ghost predicate Gone(h: Host, u: Bytes) {
    forall dir :: (dir, u) !in h.files
  }

  predicate SameNode(t: Tree, t': Tree, logs: Logs, logs': Logs, u: Bytes) {
    u in t && u in t' && u in logs && u in logs' && t'[u] == t[u] && logs'[u] == logs[u]
  }

  /** Other nodes of the tree are as they were. */
  predicate Elsewhere(t: Tree, t': Tree, logs: Logs, logs': Logs, us: set<Bytes>) {
    && t'.Keys - us == t.Keys - us && logs'.Keys == t'.Keys && logs.Keys == t.Keys
    && forall u :: u in t && u !in us ==> u in t' && SameNode(t, t', logs, logs', u)
  }

  /** Changing the files of some nodes changes the tree there and nowhere else. */
  lemma ShownAfter(h: Host, h': Host, t: Tree, t': Tree, logs: Logs, logs': Logs, us: set<Bytes>)
    requires Shown(h, t, logs) && Touches(h, h', us) && Elsewhere(t, t', logs, logs', us)
    requires forall u :: u in us ==> if u in t' then Shows(h', u, t'[u], logs'[u]) else Gone(h', u)
    ensures Shown(h', t', logs')
  {
    hide Shows;
    forall u | u in t'
      ensures Shows(h', u, t'[u], logs'[u])
    {
      if u !in us {
        assert u in t'.Keys - us;
        assert SameNode(t, t', logs, logs', u);
        StillShows(h, h', us, u, t[u], logs[u]);
      }
    }
    forall k: (Directory, Bytes) | k in h'.files
      ensures k.1 in t'
    {
      assert k.1 !in us ==> SameFile(h.files, h'.files, k) && k.1 in t'.Keys - us;
      assert k.1 in us && k.1 !in t' ==> Gone(h', k.1) && (k.0, k.1) == k;
    }
  }

  // ----- writing a node -----

  /** A node whose blob was just written is shown by its state. */
  lemma SavedShown(h: Host, h': Host, u: Bytes, d: NodeData, node: Node)
    requires h' == h.(files := h'.files) && h'.files == h.files[(MetaDir, u) := FileOf(h'.files, MetaDir, u)]
    requires Matches(u, d, node) && WellFormed(ClassOf(node.kind), d) && BodyShown(h, d, node)
    requires LoadsAs(h.suite, h.root, ClassOf(node.kind), FileOf(h'.files, MetaDir, u), d)
    ensures NodeShown(h', u, d, node)
  {
    hide LoadsAs, WellFormed, FileOf, Stored;
    SyncFrom(h'.suite, h'.root, ClassOf(node.kind), h'.files, d);
    if node.kind == FileKind {
      StoredAfterMeta(h.suite, h.bs, h.files, h'.files, d, node.bytes);
    }
  }

  /** Auditing an action leaves the body of the node. */
  lemma BodyAfterAudit(h: Host, h': Host, u: Bytes, d: NodeData, node: Node)
    requires BodyShown(h, d, node) && d.uuid == u && h' == h.(files := h'.files) && SameFiles(h.files, h'.files, u)
    ensures BodyShown(h', d, node)
  {
    hide KeysFit, FileOf;
  }

  /** A node with the same body under another name, with other rights or times. */
  lemma BodySame(h: Host, d: NodeData, d': NodeData, node: Node, node': Node)
    requires BodyShown(h, d, node) && d'.uuid == d.uuid && d'.keys == d.keys && d'.fileSize == d.fileSize
    requires node'.kind == node.kind && node'.bytes == node.bytes && node'.keyed == node.keyed
    ensures BodyShown(h, d', node')
  {
    hide KeysFit, FileOf;
  }

  lemma NewBody(h: Host, d: NodeData, node: Node)
    requires h.bs > 0 && d.keys == map[] && d.fileSize == 0 && node.bytes == [] && !node.keyed && Gone(h, d.uuid)
    ensures BodyShown(h, d, node)
  {
    NewFileStored(h.suite, h.bs, h.files, d);
  }

  // ----- loading a node -----

  lemma TypeOf(cls: Class, d: NodeData)
    requires WellFormed(cls, d)
    ensures d.typ == cls.Code()
  {
  }

  lemma LoadedIsShown(h: Host, u: Bytes, node: Node)
    requires OnDisk(h, u, node)
    ensures exists d1 :: LoadsAs(h.suite, h.root, ClassOf(node.kind), FileOf(h.files, MetaDir, u), d1)
                         && ValidKeys(d1.keys) && d1.typ == ClassOf(node.kind).Code() && NodeShown(h, u, d1, node)
  {
    var d :| NodeShown(h, u, d, node);
    var cls, file := ClassOf(node.kind), FileOf(h.files, MetaDir, u);
    var d1 :| LoadsAs(h.suite, h.root, cls, file, d1) && SameButTimes(d1, d);
    LoadedTimesFit(h.suite, h.root, cls, file, d1);
    TimesKeepSync(h.suite, h.root, cls, h.files, d, d1);
    KeysAreValid(cls, d);
    BodySame(h, d, d1, node, node);
    hide LoadsAs, BodyShown, InSync, FileOf;
    TypeOf(cls, d);
  }

  lemma NothingLoads(h: Host, root: GcmState, t: Tree, logs: Logs, u: Bytes)
    requires Shown(h, t, logs) && u !in t
    ensures LoadFile(h.suite, root, FileOf(h.files, MetaDir, u)) == Rejected && Gone(h, u)
  {
    assert forall dir :: (dir, u) in h.files ==> (dir, u).1 in t;
    hide Shows;
  }

  /** `load_metadata` gives the nodes of the tree other than the supernode, under whatever tag, and nothing else. */
  lemma TreeLoads(h: Host, root: GcmState, t: Tree, logs: Logs, u: Bytes)
    requires Shown(h, t, logs) && root == h.root.(mac := root.mac)
    requires u in t ==> (t[u].kind == RootKind <==> u == ROOT_UUID)
    ensures var p := LoadFile(h.suite, root, FileOf(h.files, MetaDir, u));
      if Trees.Load(t, u).Some?
      then p.Done? && p.value.0 == ClassOf(t[u].kind) && ValidKeys(p.value.1.keys) && NodeShown(h, u, p.value.1, t[u])
      else p.Rejected?
  {
    hide NodeShown, LoadsAs, Logged, LoadFile, FileOf;
    var file := FileOf(h.files, MetaDir, u);
    if u in t {
      assert Shows(h, u, t[u], logs[u]);
      LoadedIsShown(h, u, t[u]);
      var d1 :| LoadsAs(h.suite, h.root, ClassOf(t[u].kind), file, d1) && ValidKeys(d1.keys)
                && d1.typ == ClassOf(t[u].kind).Code() && NodeShown(h, u, d1, t[u]);
      LoadsUnderAnyTag(h.suite, h.root, root, ClassOf(t[u].kind), file, d1);
      if t[u].kind == RootKind {
        SupernodeNotLoaded(h.suite, root, file, d1);
      } else {
        LoadsAsLoaded(h.suite, root, ClassOf(t[u].kind), file, d1);
      }
    } else {
      NothingLoads(h, root, t, logs, u);
    }
  }

  // ----- file nodes -----

  lemma ShownStands(h: Host, root: GcmState, u: Bytes, d: NodeData, node: Node)
    requires NodeShown(h, u, d, node) && node.kind == FileKind && root == h.root.(mac := root.mac)
    ensures Stands(h.suite, root, h.bs, h.files, d, node.bytes) && (node.keyed <==> d.keys != map[])
  {
    SyncKept(h.suite, h.root, root, FilenodeClass, h.files, h.files, d);
    hide InSync, Stored;
  }

  lemma StandsShown(h: Host, root: GcmState, u: Bytes, d: NodeData, node: Node)
    requires Stands(h.suite, root, h.bs, h.files, d, node.bytes) && (node.keyed <==> d.keys != map[])
    requires node.kind == FileKind && h.root == root.(mac := h.root.mac) && Matches(u, d, node)
    ensures NodeShown(h, u, d, node)
  {
    SyncKept(h.suite, root, h.root, FilenodeClass, h.files, h.files, d);
    hide InSync, Stored;
  }

  lemma LoggedUnderAnyTag(suite: CipherSuite, audit: GcmState, audit': GcmState, files: Files, u: Bytes,
                          log: seq<Bytes>)
    requires Logged(suite, audit, files, u, log) && audit' == audit.(mac := audit'.mac)
    ensures Logged(suite, audit', files, u, log)
  {
    hide AuditFile, ValidLog, ReasonsOf, FileOf;
    var entries :| ValidLog(suite, entries) && FileOf(files, AuditDir, u) == AuditFile(suite, audit, entries)
                   && ReasonsOf(entries) == log;
    AnyTag(suite, audit, audit', entries);
  }

  // ----- what is on the host determines the tree -----

  lemma SameKind(a: Kind, b: Kind)
    requires ClassOf(a).Code() == ClassOf(b).Code()
    ensures a == b
  {
  }

  lemma BodyIsDetermined(h: Host, u: Bytes, d: NodeData, node: Node, node': Node)
    requires NodeShown(h, u, d, node) && NodeShown(h, u, d, node') && node.kind == node'.kind
    ensures node == node'
  {
    hide InSync, Stored;
    if node.kind == FileKind {
      FileIsDetermined(h.suite, h.root, h.bs, h.files, d, node.bytes, node'.bytes);
    }
  }

  lemma NodeIsDetermined(h: Host, u: Bytes, node: Node, node': Node)
    requires OnDisk(h, u, node) && OnDisk(h, u, node')
    ensures node == node'
  {
    hide NodeShown, LoadsAs, FileOf, OpenNode;
    var file := FileOf(h.files, MetaDir, u);
    LoadedIsShown(h, u, node);
    LoadedIsShown(h, u, node');
    var d :| LoadsAs(h.suite, h.root, ClassOf(node.kind), file, d) && ValidKeys(d.keys)
             && d.typ == ClassOf(node.kind).Code() && NodeShown(h, u, d, node);
    var d' :| LoadsAs(h.suite, h.root, ClassOf(node'.kind), file, d') && ValidKeys(d'.keys)
              && d'.typ == ClassOf(node'.kind).Code() && NodeShown(h, u, d', node');
    LoadedTypes(h.suite, h.root, file);
    SameKind(node.kind, node'.kind);
    LoadGives(h.suite, h.root, ClassOf(node.kind), file, Blank(ClassOf(node.kind)));
    BodyIsDetermined(h, u, d, node, node');
  }

  lemma LogIsDetermined(h: Host, u: Bytes, log: seq<Bytes>, log': seq<Bytes>)
    requires Audited(h, u, log) && Audited(h, u, log')
    ensures log == log'
  {
    hide Logged, ReadLog;
    assert h.audit == h.audit.(mac := h.audit.mac);
    AuditReasons(h.suite, h.audit, h.audit, h.files, u, log);
    AuditReasons(h.suite, h.audit, h.audit, h.files, u, log');
  }

  lemma NodeHasFile(h: Host, u: Bytes, node: Node)
    requires OnDisk(h, u, node)
    ensures (MetaDir, u) in h.files
  {
    hide NodeShown, LoadsAs;
    LoadedIsShown(h, u, node);
    LoadedTypes(h.suite, h.root, FileOf(h.files, MetaDir, u));
  }

  lemma FileIsThere(files: Files, dir: Directory, u: Bytes)
    requires FileOf(files, dir, u) != []
    ensures (dir, u) in files
  {
  }

  lemma StoredSize(h: Host, u: Bytes, d: NodeData, node: Node)
    requires NodeShown(h, u, d, node) && node.kind == FileKind
    ensures d.fileSize == |node.bytes| == |FileOf(h.files, ContentDir, u)|
  {
    hide InSync, KeysFit, FileOf;
  }

  lemma NodesIncluded(h: Host, t: Tree, t': Tree, logs: Logs, logs': Logs)
    requires Shown(h, t, logs) && Shown(h, t', logs')
    ensures t.Keys <= t'.Keys
  {
    hide OnDisk, Logged;
    forall u | u in t
      ensures u in t'
    {
      assert Shows(h, u, t[u], logs[u]);
      NodeHasFile(h, u, t[u]);
    }
  }

  /** A file whose two files disagree about its size is in no tree. */
  lemma OutgrownShowsNothing(h: Host, root: GcmState, d: NodeData, t: Tree, logs: Logs)
    requires Outgrown(h.suite, root, h.files, d) && root == h.root.(mac := root.mac)
    ensures !Shown(h, t, logs)
  {
    hide NodeShown, LoadsAs, FileOf, OpenNode, Logged;
    var file, u := FileOf(h.files, MetaDir, d.uuid), d.uuid;
    if Shown(h, t, logs) {
      LoadsUnderAnyTag(h.suite, root, h.root, FilenodeClass, file, d);
      LoadedTypes(h.suite, h.root, file);
      FileIsThere(h.files, MetaDir, u);
      assert Shows(h, u, t[u], logs[u]);
      LoadedIsShown(h, u, t[u]);
      var d1 :| LoadsAs(h.suite, h.root, ClassOf(t[u].kind), file, d1) && ValidKeys(d1.keys)
                && d1.typ == ClassOf(t[u].kind).Code() && NodeShown(h, u, d1, t[u]);
      SameKind(t[u].kind, FileKind);
      LoadGives(h.suite, h.root, FilenodeClass, file, Blank(FilenodeClass));
      StoredSize(h, u, d, t[u]);
    }
  }

  /** One host holds one tree, with one content of every file and one log of every node. */
  lemma HostDetermines(h: Host, t: Tree, t': Tree, logs: Logs, logs': Logs)
    requires Shown(h, t, logs) && Shown(h, t', logs')
    ensures t == t' && logs == logs'
  {
    hide OnDisk, Logged;
    NodesIncluded(h, t, t', logs, logs');
    NodesIncluded(h, t', t, logs', logs);
    forall u | u in t
      ensures t[u] == t'[u] && logs[u] == logs'[u]
    {
      assert Shows(h, u, t[u], logs[u]) && Shows(h, u, t'[u], logs'[u]);
      NodeIsDetermined(h, u, t[u], t'[u]);
      LogIsDetermined(h, u, logs[u], logs'[u]);
    }
  }

  // ----- metadata sizes -----

  /** What the parts of a node that the namespace sees take in its sensitive section. */
  function Plain(node: Node): NodeData {
    NodeData(ClassOf(node.kind).Code(), [], 0, 0, 0, node.name, node.entries, node.rights, 0, map[], map[])
  }

  /** The size of the sensitive section of a node, given the users that the supernode stores. */
  function SectionSize(users: map<Bytes, User>, bs: nat, node: Node): nat
    requires bs > 0
  {
    match node.kind
    case RootKind => |NodeSection(Plain(node))| + |List(Values(users), UserRecord)|
    case DirKind => |NodeSection(Plain(node))|
    case FileKind => FileSection(|NodeSection(Plain(node))|, bs, |node.bytes|, node.keyed)
  }

  /** The metadata blob of every node has a size that fits an `int`. */
  predicate AllFit(users: map<Bytes, User>, bs: nat, t: Tree)
    requires bs > 0
  {
    forall u :: u in t ==> SectionSize(users, bs, t[u]) < SECTION_LIMIT
  }

  // ----- what the file operations need -----

  ghost predicate CanWriteTo(node: Node, users: map<Bytes, User>, bs: nat, offset: nat, data: Bytes, user: Bytes,
                             reason: Bytes)
    requires bs > 0
  {
    Allows(node, WRITE_RIGHT, user) ==>
      && |Text(reason)| < SECTION_LIMIT && offset + |data| < INT_LIMIT && WritableAt(bs, |node.bytes|, offset, |data|)
      && SectionSize(users, bs, WriteTo(node, bs, offset, data, user).1) < SECTION_LIMIT
  }

  ghost predicate CanRead(node: Node, bs: nat, offset: nat, user: Bytes, reason: Bytes)
    requires bs > 0
  {
    Allows(node, READ_RIGHT, user) ==> |Text(reason)| < SECTION_LIMIT && ReadableAt(bs, |node.bytes|, offset)
  }

  /** A truncation that makes the file larger: no bytes stand for it then. */
  predicate Grows(node: Node, newSize: nat, user: Bytes) {
    Allows(node, WRITE_RIGHT, user) && newSize > |node.bytes|
  }

  ghost predicate CanTruncate(node: Node, newSize: nat, user: Bytes) {
    Allows(node, WRITE_RIGHT, user) ==> newSize < INT_LIMIT && (newSize == 0 ==> node.keyed)
  }

  predicate GrowsAt(t: Tree, cs: seq<Bytes>, newSize: nat, user: Bytes) {
    FileAt(t, cs).Some? && Grows(t[FileAt(t, cs).value], newSize, user)
  }

  /** The files on the host are those of no tree. */
  ghost predicate NoTree(h: Host) {
    forall t, logs :: !Shown(h, t, logs)
  }

  lemma NothingShown(h: Host, root: GcmState, d: NodeData)
    requires Outgrown(h.suite, root, h.files, d) && root == h.root.(mac := root.mac)
    ensures NoTree(h)
  {
    forall t, logs
      ensures !Shown(h, t, logs)
    {
      OutgrownShowsNothing(h, root, d, t, logs);
    }
  }

  // ----- sizes -----

  lemma PlainSection(u: Bytes, d: NodeData, node: Node)
    requires Matches(u, d, node) && d.typ == ClassOf(node.kind).Code()
    ensures NodeSection(d) == NodeSection(Plain(node))
  {
    hide List, Text;
  }

  lemma SectionSizeExact(users: map<Bytes, User>, bs: nat, u: Bytes, d: NodeData, node: Node)
    requires bs > 0 && Matches(u, d, node) && d.typ == ClassOf(node.kind).Code()
    requires node.kind == RootKind ==> d.users == users
    requires node.kind == FileKind ==> KeysFit(d.keys, bs, node.bytes) && (node.keyed <==> d.keys != map[])
    ensures |Sensitive(ClassOf(node.kind), d)| == SectionSize(users, bs, node)
  {
    PlainSection(u, d, node);
    if node.kind == FileKind {
      FileSectionExact(bs, d, node.bytes);
    }
    hide NodeSection, List, Values, KeysFit, FileSection;
  }

  lemma BodyKeysFit(h: Host, d: NodeData, node: Node)
    requires BodyShown(h, d, node)
    ensures node.kind == FileKind ==> KeysFit(d.keys, h.bs, node.bytes) && (node.keyed <==> d.keys != map[])
  {
    hide KeysFit;
  }

  /** A changed node is well-formed if its section fits: its other parts must be. */
  lemma ChangedWellFormed(h: Host, users: map<Bytes, User>, u: Bytes, d: NodeData, d': NodeData, node': Node)
    requires h.bs > 0 && WellFormed(ClassOf(node'.kind), d) && Matches(u, d', node') && BodyShown(h, d', node')
    requires d' == d.(path := d'.path, entries := d'.entries, entitlements := d'.entitlements, atime := d'.atime,
                      mtime := d'.mtime, ctime := d'.ctime)
    requires d'.atime < SIZE_T_LIMIT && d'.mtime < SIZE_T_LIMIT && d'.ctime < SIZE_T_LIMIT
    requires forall k :: k in d'.entries ==> |d'.entries[k]| == UUID_SIZE
    requires forall k :: k in d'.entitlements ==> UuidText(k)
    requires node'.kind == FileKind ==> d'.entries == map[]
    requires node'.kind == RootKind ==> d.users == users
    requires SectionSize(users, h.bs, node') < SECTION_LIMIT
    ensures WellFormed(ClassOf(node'.kind), d')
  {
    BodyKeysFit(h, d', node');
    TypeOf(ClassOf(node'.kind), d);
    SectionSizeExact(users, h.bs, u, d', node');
    hide Sensitive, SectionSize, BodyShown, ContiguousKeys, KeysFit;
  }
}
