/** Operations that change one node, or none, on the host and in memory. */
module NodeUpdates {
  import opened ByteStrings
  import opened Errno
  import opened Options
  import opened Crypto
  import opened SealedMetadata
  import opened NodeRecords
  import opened NodeRoundTrip
  import opened FilenodeContents
  import opened AccessRights
  import opened Paths
  import opened AuditLogs
  import opened FlatFiles
  import opened FileParts
  import opened FileStates
  import opened Trees
  import opened TreeChanges
  import opened TreeFiles
  import opened NodeCaches
  import opened FileSystemStates

  lemma FreedTwice(loaded: map<Bytes, NodeData>, a: set<Bytes>, b: set<Bytes>)
    ensures loaded - a - b == loaded - (a + b)
  {
  }

  lemma RestStillLoaded(h: Host, h': Host, t: Tree, loaded: map<Bytes, NodeData>, cache: map<Bytes, Handle>,
                        path: Bytes, u: Bytes)
    requires IsTree(t) && InMemory(h, t, loaded, cache) && Touches(h, h', {u})
    requires IsPath(path) && Resolve(t, Components(path)) == Some(u)
    ensures LoadedShown(h', loaded - Key(path), cache - Key(path))
  {
    hide NodeShown, Touches, IsTree, Resolve, Components, IsPath;
    Evicted(h, t, loaded, cache, Key(path));
    forall p | p in cache - Key(path)
      ensures (cache - Key(path))[p].uuid !in {u}
    {
      OnlyCachedThere(t, cache, path, u, p);
    }
    StillLoaded(h, h', loaded - Key(path), cache - Key(path), {u});
  }

  lemma OneElsewhere(t: Tree, logs: Logs, u: Bytes, node: Node, log: seq<Bytes>)
    requires u in t && logs.Keys == t.Keys
    ensures Elsewhere(t, t[u := node], logs, logs[u := log], {u})
  {
  }

  lemma KeptOrFreed(h: Host, loaded: map<Bytes, NodeData>, cache: map<Bytes, Handle>, path: Bytes, u: Bytes,
                    d: NodeData, node: Node)
    requires LoadedShown(h, loaded - Key(path), cache - Key(path)) && NodeShown(h, u, d, node) && path != ROOT_PATH
    ensures LoadedShown(h, loaded[path := d], cache[path := Handle(u, node)])
  {
    hide NodeShown, LoadedShown;
    OneMoreLoaded(h, loaded - Key(path), cache - Key(path), path, d, Handle(u, node));
    assert (loaded - Key(path))[path := d] == loaded[path := d];
    assert (cache - Key(path))[path := Handle(u, node)] == cache[path := Handle(u, node)];
  }

  /** The node of a path, with other rights or another body, and whether it is kept or freed. */
  lemma NodeDone(h: Host, h': Host, t: Tree, logs: Logs, supernode: NodeData, loaded: map<Bytes, NodeData>,
                 cache: map<Bytes, Handle>, path: Bytes, u: Bytes, d: NodeData, node: Node, log: seq<Bytes>)
    requires OnHost(h, t, logs, supernode) && InMemory(h, t, loaded, cache)
    requires IsPath(path) && Resolve(t, Components(path)) == Some(u) && u in t && t[u].kind != RootKind
    requires SameShape(t[u], node) && Touches(h, h', {u}) && NodeShown(h', u, d, node) && Audited(h', u, log)
    ensures OnHost(h', t[u := node], logs[u := log], supernode) && path != ROOT_PATH
    ensures InMemory(h', t[u := node], loaded - Key(path), cache - Key(path))
    ensures InMemory(h', t[u := node], loaded[path := d], cache[path := Handle(u, node)])
  {
    hide IsTree, Resolve, Components, IsPath, NodeShown, Touches, Logged, AllCurrent, Elsewhere;
    RootIn(t);
    LogKeys(h, t, logs, supernode);
    NodeChanged(t, t[ROOT_UUID], cache, path, Handle(u, t[u]), node);
    OneElsewhere(t, logs, u, node, log);
    HostAfter(h, h', t, t[u := node], logs, logs[u := log], supernode, supernode, {u});
    RestStillLoaded(h, h', t, loaded, cache, path, u);
    KeptOrFreed(h', loaded, cache, path, u, d, node);
  }

  /** The node of a path, the supernode included, of which the tree shows no change: only times, or users, differ. */
  lemma ShownDone(h: Host, h': Host, t: Tree, logs: Logs, supernode: NodeData, loaded: map<Bytes, NodeData>,
                  cache: map<Bytes, Handle>, path: Bytes, u: Bytes, d: NodeData)
    requires OnHost(h, t, logs, supernode) && InMemory(h, t, loaded, cache)
    requires IsPath(path) && Resolve(t, Components(path)) == Some(u) && u in t && u in logs
    requires Touches(h, h', {u}) && NodeShown(h', u, d, t[u]) && Audited(h', u, logs[u])
    ensures OnHost(h', t, logs, if u == ROOT_UUID then d else supernode)
    ensures InMemory(h', t, loaded - Key(path), cache - Key(path))
    ensures u == ROOT_UUID <==> path == ROOT_PATH
  {
    hide IsTree, Resolve, Components, IsPath, NodeShown, Touches, Logged, Elsewhere, Current;
    RootIn(t);
    LogKeys(h, t, logs, supernode);
    OneElsewhere(t, logs, u, t[u], logs[u]);
    assert t[u := t[u]] == t && logs[u := logs[u]] == logs;
    HostAfter(h, h', t, t, logs, logs, supernode, if u == ROOT_UUID then d else supernode, {u});
    RestStillLoaded(h, h', t, loaded, cache, path, u);
    PathOfRoot(t, path, u);
  }

  // ----- the users of the supernode -----

  /** The supernode with other users can be written. */
  lemma UsersReady(h: Host, t: Tree, logs: Logs, supernode: NodeData, d: NodeData, users: map<Bytes, User>)
    requires OnHost(h, t, logs, supernode) && d == supernode.(users := users)
    requires AllFit(users, h.bs, t) && forall k :: k in users ==> ValidUser(k, users[k])
    ensures ROOT_UUID in t && t[ROOT_UUID].kind == RootKind && d.uuid == ROOT_UUID
    ensures WellFormed(SupernodeClass, d) && Matches(ROOT_UUID, d, t[ROOT_UUID]) && BodyShown(h, d, t[ROOT_UUID])
  {
    hide IsTree, Shown, NodeShown, SectionSize, ValidUser, Sensitive, BodyShown;
    RootIn(t);
    ShownFacts(h, ROOT_UUID, supernode, t[ROOT_UUID]);
    BodySame(h, supernode, d, t[ROOT_UUID], t[ROOT_UUID]);
    SectionSizeExact(users, h.bs, ROOT_UUID, d, t[ROOT_UUID]);
  }

  lemma UsersDone(h: Host, h': Host, t: Tree, logs: Logs, supernode: NodeData, loaded: map<Bytes, NodeData>,
                  cache: map<Bytes, Handle>, d: NodeData)
    requires OnHost(h, t, logs, supernode) && InMemory(h, t, loaded, cache) && ROOT_UUID in t && ROOT_UUID in logs
    requires Touches(h, h', {ROOT_UUID}) && NodeShown(h', ROOT_UUID, d, t[ROOT_UUID])
    requires Audited(h', ROOT_UUID, logs[ROOT_UUID])
    ensures OnHost(h', t, logs, d) && InMemory(h', t, loaded, cache)
  {
    hide IsTree, NodeShown, Touches, Logged, Resolve, Components, Clean, Shown, AllCurrent, LoadedShown;
    PathBack([]);
    RootHasNoNames(t, ROOT_PATH);
    ShownDone(h, h', t, logs, supernode, loaded, cache, ROOT_PATH, ROOT_UUID, d);
    assert loaded - Key(ROOT_PATH) == loaded && cache - Key(ROOT_PATH) == cache;
  }

  // ----- file nodes -----

  /** A file node of the tree, as the object that the file operations work on. */
  lemma FileOpens(h: Host, root: GcmState, audit: GcmState, u: Bytes, d: NodeData, node: Node, log: seq<Bytes>)
    requires NodeShown(h, u, d, node) && node.kind == FileKind && Audited(h, u, log)
    requires root == h.root.(mac := root.mac) && audit == h.audit.(mac := audit.mac)
    ensures Stands(h.suite, root, h.bs, h.files, d, node.bytes) && (node.keyed <==> d.keys != map[])
    ensures ValidKeys(d.keys)
    ensures Logged(h.suite, audit, h.files, d.uuid, log) && Matches(u, d, node)
  {
    hide NodeShown, Logged, Stands;
    ShownFacts(h, u, d, node);
    ShownStands(h, root, u, d, node);
    LoggedUnderAnyTag(h.suite, h.audit, audit, h.files, u, log);
  }

  lemma MayAccess(h: Host, u: Bytes, d: NodeData, node: Node, min: Rights, user: Bytes)
    requires NodeShown(h, u, d, node) && node.kind == FileKind
    ensures HasUserRights(d.entitlements, min, user) <==> Allows(node, min, user)
  {
    hide InSync, BodyShown, HasRights;
  }

  lemma SizeShown(h: Host, u: Bytes, d: NodeData, node: Node)
    requires NodeShown(h, u, d, node) && node.kind == FileKind
    ensures d.fileSize == |node.bytes|
  {
    hide InSync, KeysFit;
  }

  /** And back, once the object stands for other bytes. */
  lemma FileCloses(h: Host, root: GcmState, audit: GcmState, u: Bytes, d: NodeData, node: Node, log: seq<Bytes>)
    requires Stands(h.suite, root, h.bs, h.files, d, node.bytes) && (node.keyed <==> d.keys != map[])
    requires Logged(h.suite, audit, h.files, u, log) && node.kind == FileKind && Matches(u, d, node)
    requires h.root == root.(mac := h.root.mac) && h.audit == audit.(mac := h.audit.mac)
    ensures NodeShown(h, u, d, node) && Audited(h, u, log)
  {
    hide NodeShown, Logged, Stands;
    StandsShown(h, root, u, d, node);
    LoggedUnderAnyTag(h.suite, audit, h.audit, h.files, u, log);
  }

  /** What a write to a file needs: its metadata fits. */
  lemma WriteFits(h: Host, users: map<Bytes, User>, u: Bytes, d: NodeData, node: Node, node': Node)
    requires h.bs > 0 && NodeShown(h, u, d, node) && node.kind == FileKind
    requires SectionSize(users, h.bs, node') < SECTION_LIMIT
    requires node' == node.(bytes := node'.bytes, keyed := node'.keyed)
    ensures FileSection(|NodeSection(d)|, h.bs, |node'.bytes|, node'.keyed) < SECTION_LIMIT
  {
    hide NodeSection, FileSection;
    ShownFacts(h, u, d, node);
    PlainSection(u, d, node');
    hide NodeShown, BodyShown;
  }

  // ----- rights, types and listings -----

  /** `entry_type`, from the type of a node object. */
  function TypeReply(typ: nat): int {
    if typ == FILENODE_TYPE then EEXIST else EISDIR
  }

  lemma TypeFound(h: Host, t: Tree, cs: seq<Bytes>, d: Option<NodeData>)
    requires Found(h, t, cs, d)
    ensures TypeCode(t, cs) == if d.None? then -ENOENT else TypeReply(d.value.typ)
  {
    hide NodeShown, Resolve;
    if d.Some? {
      ShownFacts(h, Resolve(t, cs).value, d.value, t[Resolve(t, cs).value]);
    }
  }

  lemma EditCases(t: Tree, cached: set<Bytes>, path: Bytes, rights: Rights, target: Bytes, known: bool, user: Bytes)
    requires IsTree(t)
    ensures var u := Resolve(t, Components(path));
            var (code, t') := EditIn(t, Components(path), rights, target, known, user);
            var cached' := EditCached(t, cached, path, known);
      && (code != 0 ==> t' == t)
      && (u.None? ==> code == -ENOENT && cached' == cached)
      && (u.Some? ==> u.value in t)
      && (u.Some? && !known ==> code == -ENOENT && cached' == cached + Key(path))
      && (u.Some? && known ==>
            && cached' == cached - Key(path)
            && code == if !Allows(t[u.value], OWNER_RIGHT, user) then -EACCES
                       else if t[u.value].kind == RootKind then -EPROTO else 0)
  {
    RootAlone(t, Components(path));
    hide IsTree, Resolve, Components, Allows, CString;
  }

  /** The checks on the object that is found decide as those on the tree do. */
  lemma EditDecided(h: Host, t: Tree, path: Bytes, u: Bytes, d: NodeData, rights: Rights, target: Bytes, user: Bytes)
    requires IsTree(t) && Resolve(t, Components(path)) == Some(u) && u in t && NodeShown(h, u, d, t[u])
    ensures var r := if !Permits(d.typ == SupernodeClass.Code(), d.entitlements, OWNER_RIGHT, user) then -EACCES
                     else if d.typ == SupernodeClass.Code() then -EPROTO else 0;
            var (code, t') := EditIn(t, Components(path), rights, target, true, user);
      r == code && (code != 0 ==> t' == t)
  {
    hide IsTree, Resolve, Components, NodeShown, Matches, EditIn, EditCached, Allows, Permits, CString;
    EditCases(t, {}, path, rights, target, true, user);
    ShownFacts(h, u, d, t[u]);
    ShownAllows(h, u, d, t[u], OWNER_RIGHT, user);
  }

  lemma KnownUser(d: NodeData, k: Bytes)
    requires WellFormed(SupernodeClass, d) && k in d.users
    ensures UuidText(k) && k == CString(d.users[k].uuid)
  {
    assert ValidUser(k, d.users[k]);
    NameOfUuid(d.users[k].uuid);
  }

  /** A registered user can be given rights. */
  lemma UserKnown(h: Host, supernode: NodeData, node: Node, k: Bytes)
    requires NodeShown(h, ROOT_UUID, supernode, node) && node.kind == RootKind && k in supernode.users
    ensures UuidText(k) && k == CString(supernode.users[k].uuid)
  {
    ShownFacts(h, ROOT_UUID, supernode, node);
    hide NodeShown, CString;
    KnownUser(supernode, k);
  }

  /** A node with other rights and a new time can be written. */
  lemma RightsReady(h: Host, users: map<Bytes, User>, u: Bytes, d: NodeData, d': NodeData, node: Node, node': Node)
    requires h.bs > 0 && NodeShown(h, u, d, node) && node.kind != RootKind && d'.ctime < SIZE_T_LIMIT
    requires d' == d.(entitlements := d'.entitlements, ctime := d'.ctime) && node' == node.(rights := d'.entitlements)
    requires forall k :: k in d'.entitlements && k !in d.entitlements ==> UuidText(k)
    requires SectionSize(users, h.bs, node') < SECTION_LIMIT
    ensures WellFormed(ClassOf(node'.kind), d') && Matches(u, d', node') && BodyShown(h, d', node') && d'.uuid == u
  {
    hide InSync, SectionSize, Stored, UuidText;
    ShownFacts(h, u, d, node);
    BodySame(h, d, d', node, node');
    WellFormedParts(ClassOf(node.kind), d);
    hide NodeShown, BodyShown, WellFormed;
    ChangedWellFormed(h, users, u, d, d', node');
  }

  /** So can a node with a new time. */
  lemma TimeReady(h: Host, u: Bytes, d: NodeData, d': NodeData, node: Node)
    requires NodeShown(h, u, d, node) && d' == d.(atime := d'.atime) && d'.atime < SIZE_T_LIMIT
    ensures WellFormed(ClassOf(node.kind), d') && Matches(u, d', node) && BodyShown(h, d', node) && d'.uuid == u
    ensures d'.users == d.users && d'.path == d.path
  {
    hide InSync, Stored;
    ShownFacts(h, u, d, node);
    BodySame(h, d, d', node, node);
    WellFormedParts(ClassOf(node.kind), d);
    TimesKeepWellFormed(ClassOf(node.kind), d, d');
  }

  lemma EditReady(h: Host, t: Tree, logs: Logs, supernode: NodeData, u: Bytes, d: NodeData, d': NodeData, target: Bytes,
                  rights: Rights, node: Node)
    requires OnHost(h, t, logs, supernode) && u in t && NodeShown(h, u, d, t[u]) && t[u].kind != RootKind
    requires CString(target) in supernode.users && d'.ctime < SIZE_T_LIMIT
    requires d' == d.(entitlements := d.entitlements[CString(supernode.users[CString(target)].uuid) := rights],
                      ctime := d'.ctime)
    requires node == t[u].(rights := t[u].rights[CString(target) := rights])
    requires AllFit(supernode.users, h.bs, t[u := node])
    ensures WellFormed(ClassOf(node.kind), d') && Matches(u, d', node) && BodyShown(h, d', node) && d'.uuid == u
  {
    hide IsTree, Shown, NodeShown, WellFormed, BodyShown, SectionSize, CString;
    RootIn(t);
    UserKnown(h, supernode, t[ROOT_UUID], CString(target));
    ShownFacts(h, u, d, t[u]);
    assert t[u := node][u] == node;
    RightsReady(h, supernode.users, u, d, d', t[u], node);
  }

  lemma ShownSees(h: Host, u: Bytes, d: NodeData, node: Node, user: Bytes)
    requires NodeShown(h, u, d, node)
    ensures Sees(node, user)
      <==> || Permits(d.typ == SupernodeClass.Code(), d.entitlements, OWNER_RIGHT, user)
           || Permits(d.typ == SupernodeClass.Code(), d.entitlements, READ_RIGHT, user)
           || Permits(d.typ == SupernodeClass.Code(), d.entitlements, WRITE_RIGHT, user)
  {
    hide NodeShown, Allows, Permits;
    ShownAllows(h, u, d, node, OWNER_RIGHT, user);
    ShownAllows(h, u, d, node, READ_RIGHT, user);
    ShownAllows(h, u, d, node, WRITE_RIGHT, user);
  }
}
