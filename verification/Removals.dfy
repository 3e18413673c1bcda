/** `unlink` and `rm_directory`, on the host and in memory. */
module Removals {
  import opened ByteStrings
  import opened Errno
  import opened Options
  import opened NodeRecords
  import opened NodeRoundTrip
  import opened AccessRights
  import opened Paths
  import opened AuditLogs
  import opened Trees
  import opened TreeChanges
  import opened TreeFiles
  import opened NodeCaches
  import opened FileSystemStates

  lemma UnlinkCases(t: Tree, cached: set<Bytes>, path: Bytes, user: Bytes)
    requires IsTree(t)
    ensures var u := Resolve(t, Init(Components(path)));
            var (code, t') := UnlinkIn(t, Components(path), user);
            var cached', parent := UnlinkCached(t, cached, path, user), Key(DirectoryPath(path));
      && (code != 0 ==> t' == t)
      && (u.None? ==> code == -ENOENT && cached' == cached)
      && (u.Some? ==> u.value in t)
      && (u.Some? && Last(Components(path)) !in t[u.value].entries ==> code == -ENOENT && cached' == cached - parent)
      && (u.Some? && Last(Components(path)) in t[u.value].entries ==>
            var node := Load(t, t[u.value].entries[Last(Components(path))]);
            && (node.None? || node.value.kind != FileKind ==> code == -ENOENT && cached' == cached + parent)
            && (node.Some? && node.value.kind == FileKind ==>
                  if Allows(node.value, OWNER_RIGHT, user) then code == 0 && cached' == cached - Key(path) - parent
                  else code == -EACCES && cached' == cached - parent))
  {
    RootAlone(t, Components(path));
    hide IsTree, Resolve, Components, Allows, DirectoryPath, Remove;
  }

  lemma RmdirCases(t: Tree, cached: set<Bytes>, path: Bytes, user: Bytes)
    requires IsTree(t)
    ensures var u := Resolve(t, Init(Components(path)));
            var (code, t') := RmdirIn(t, Components(path), user);
      && (code != 0 ==> t' == t)
      && (u.None? ==> code == -ENOENT && RmdirCached(t, cached, path) == cached)
      && (u.Some? ==> u.value in t && RmdirCached(t, cached, path) == cached - Key(DirectoryPath(path)))
      && (u.Some? && Last(Components(path)) !in t[u.value].entries ==> code == -ENOENT)
      && (u.Some? && Last(Components(path)) in t[u.value].entries ==>
            var node := Load(t, t[u.value].entries[Last(Components(path))]);
            && (node.None? || node.value.kind != DirKind ==> code == -ENOENT)
            && (node.Some? && node.value.kind == DirKind ==>
                  code == if !Allows(node.value, OWNER_RIGHT, user) then -EACCES
                          else if node.value.entries != map[] then -ENOTEMPTY else 0))
  {
    RootAlone(t, Components(path));
    hide IsTree, Resolve, Components, Allows, DirectoryPath, Remove;
  }

  lemma NotRemoved(t: Tree, logs: Logs, cs: seq<Bytes>, code: int, reason: Bytes)
    requires code != 0
    ensures RemoveLogs(t, logs, cs, code, reason) == logs
  {
  }

  /** The parent without the entry of the leaf `w`. */
  ghost predicate Removal(t: Tree, path: Bytes, u: Bytes, w: Bytes, p: Node) {
    && IsPath(path) && Components(path) != [] && Resolve(t, Init(Components(path))) == Some(u)
    && Edge(t, u, Last(Components(path)), w) && w in t && t[w].entries == map[]
    && p == t[u].(entries := t[u].entries - {Last(Components(path))})
  }

  /** What a removal that succeeds removes. */
  lemma UnlinkBegins(t: Tree, path: Bytes, user: Bytes, u: Bytes, p: Node)
    requires IsTree(t) && IsPath(path) && UnlinkIn(t, Components(path), user).0 == 0
    requires Resolve(t, Init(Components(path))) == Some(u) && u in t
    requires p == t[u].(entries := t[u].entries - {Last(Components(path))})
    ensures Last(Components(path)) in t[u].entries
    ensures var w := t[u].entries[Last(Components(path))];
      && Removal(t, path, u, w, p) && w in t && t[w].name == Last(Components(path))
      && UnlinkIn(t, Components(path), user).1 == Remove(t, u, Last(Components(path)), w)
  {
    hide IsTree, Resolve, Components, IsPath, UnlinkIn, Remove;
    UnlinkRemoves(t, Components(path), user);
    EntryName(t, u, Last(Components(path)));
  }

  lemma RmdirBegins(t: Tree, path: Bytes, user: Bytes, u: Bytes, p: Node)
    requires IsTree(t) && IsPath(path) && RmdirIn(t, Components(path), user).0 == 0
    requires Resolve(t, Init(Components(path))) == Some(u) && u in t
    requires p == t[u].(entries := t[u].entries - {Last(Components(path))})
    ensures Last(Components(path)) in t[u].entries
    ensures var w := t[u].entries[Last(Components(path))];
      && Removal(t, path, u, w, p) && w in t
      && RmdirIn(t, Components(path), user).1 == Remove(t, u, Last(Components(path)), w)
  {
    hide IsTree, Resolve, Components, IsPath, RmdirIn, Remove;
    RmdirRemoves(t, Components(path), user);
    EntryName(t, u, Last(Components(path)));
  }

  lemma RemovalTree(t: Tree, path: Bytes, u: Bytes, w: Bytes, p: Node)
    requires IsTree(t) && Removal(t, path, u, w, p)
    ensures u in t && Remove(t, u, Last(Components(path)), w) == t[u := p] - {w}
    ensures Resolve(t, Components(path)) == Some(w)
    ensures u != w && w != ROOT_UUID && t[u].kind != FileKind && (u == ROOT_UUID <==> DirectoryPath(path) == ROOT_PATH)
    ensures Resolve(t, Components(DirectoryPath(path))) == Some(u) && path != ROOT_PATH
  {
    hide IsTree, Resolve, Components, IsPath, DirectoryPath, Lookup;
    var cs := Components(path);
    DirectoryNames(path);
    EntryFacts(t, u, Last(cs), u, Last(cs));
    NoLoop(t, u, Last(cs));
    ResolveLast(t, cs);
    EntryLooksUp(t, u, Last(cs));
    RootAlone(t, cs);
    PathIsItsNames(path);
    if u == ROOT_UUID {
      RootPathAlone(t, Init(cs));
    }
  }

  lemma RemoveElsewhere(t: Tree, logs: Logs, u: Bytes, w: Bytes, p: Node, reason: Bytes)
    requires u in t && w in t && u != w && logs.Keys == t.Keys
    ensures Elsewhere(t, t[u := p] - {w}, logs, Noted(logs - {w}, u, reason), {u, w})
    ensures Noted(logs - {w}, u, reason)[u] == logs[u] + [reason]
  {
  }

  lemma RemovedNode(t: Tree, path: Bytes, u: Bytes, w: Bytes, p: Node)
    requires Removal(t, path, u, w, p)
    ensures u in t && w in t && p == t[u].(entries := t[u].entries - {Last(Components(path))})
  {
  }

  /** The parent can be written without the entry. */
  lemma RemovalReady(h: Host, users: map<Bytes, User>, t: Tree, logs: Logs, supernode: NodeData, path: Bytes, u: Bytes,
                     w: Bytes, d: NodeData, d': NodeData, p: Node, t': Tree)
    requires OnHost(h, t, logs, supernode) && Removal(t, path, u, w, p) && NodeShown(h, u, d, t[u])
    requires d' == d.(entries := d.entries - {Last(Components(path))}) && (u == ROOT_UUID ==> d.users == users)
    requires t' == Remove(t, u, Last(Components(path)), w) && AllFit(users, h.bs, t')
    ensures WellFormed(ClassOf(p.kind), d') && Matches(u, d', p) && BodyShown(h, d', p) && u in logs
    ensures Audited(h, u, logs[u])
    ensures d.uuid == u && u != w && supernode.path == ROOT_PATH
    ensures DirectoryPath(path) == ROOT_PATH <==> u == ROOT_UUID
    ensures u == ROOT_UUID ==> d'.path == ROOT_PATH
  {
    hide IsTree, Resolve, Components, IsPath, Remove, Removal, NodeShown, Logged, SectionSize, WellFormed, BodyShown,
         DirectoryPath;
    RemovalTree(t, path, u, w, p);
    RemovedNode(t, path, u, w, p);
    RootNamed(h, t, logs, supernode);
    RootIn(t);
    ShownFacts(h, u, d, t[u]);
    assert Shows(h, u, t[u], logs[u]);
    assert u in t' && t'[u] == p;
    ParentReady(h, users, u, d, d', t[u], p);
  }

  lemma RemovalFrom(t: Tree, path: Bytes, u: Bytes, w: Bytes, p: Node)
    requires Removal(t, path, u, w, p)
    ensures Resolve(t, Init(Components(path))) == Some(u)
  {
  }

  lemma RemovalHosted(h: Host, h': Host, t: Tree, logs: Logs, supernode: NodeData, path: Bytes, reason: Bytes, u: Bytes,
                      w: Bytes, d: NodeData, p: Node, t': Tree)
    requires OnHost(h, t, logs, supernode) && Removal(t, path, u, w, p) && u in logs
    requires t' == Remove(t, u, Last(Components(path)), w) && IsTree(t') && t'[ROOT_UUID].name == ROOT_PATH
    requires Touches(h, h', {u, w}) && NodeShown(h', u, d, p) && Audited(h', u, logs[u] + [reason]) && Gone(h', w)
    ensures OnHost(h', t', RemoveLogs(t, logs, Components(path), 0, reason), if u == ROOT_UUID then d else supernode)
  {
    hide IsTree, Resolve, Components, IsPath, Remove, Removal, NodeShown, Logged, Touches, Gone;
    RemovalTree(t, path, u, w, p);
    RemovedNode(t, path, u, w, p);
    LogKeys(h, t, logs, supernode);
    RemoveElsewhere(t, logs, u, w, p, reason);
    RemovalFrom(t, path, u, w, p);
    HostAfter(h, h', t, t', logs, Noted(logs - {w}, u, reason), supernode,
              if u == ROOT_UUID then d else supernode, {u, w});
  }

  /** Memory is in step once neither the removed node nor its parent is loaded. */
  lemma RemovalLoaded(h: Host, h': Host, t: Tree, loaded: map<Bytes, NodeData>, cache: map<Bytes, Handle>, path: Bytes,
                      u: Bytes, w: Bytes, p: Node, t': Tree)
    requires IsTree(t) && t[ROOT_UUID].name == ROOT_PATH && InMemory(h, t, loaded, cache)
    requires Removal(t, path, u, w, p) && Touches(h, h', {u, w}) && t' == Remove(t, u, Last(Components(path)), w)
    ensures var keys := Key(path) + Key(DirectoryPath(path));
      && IsTree(t') && t'[ROOT_UUID].name == ROOT_PATH
      && InMemory(h', t', loaded - keys, cache - keys)
  {
    hide IsTree, Resolve, Components, IsPath, Remove, NodeShown, Touches, DirectoryPath, AllCurrent, Edge;
    RootIn(t);
    RemoveSyncs(t, t[ROOT_UUID], cache, path, u, w);
    RemovalTree(t, path, u, w, p);
    var keys := Key(path) + Key(DirectoryPath(path));
    forall q | q in cache && q !in keys
      ensures cache[q].uuid != w
    {
      OnlyCachedThere(t, cache, path, w, q);
    }
    DirectoryIsPath(path);
    OthersStillLoaded(h, h', t, loaded, cache, DirectoryPath(path), u, w, keys);
    assert cache - keys == cache - Key(path) - Key(DirectoryPath(path));
  }

  lemma RemovalDone(h: Host, h': Host, t: Tree, logs: Logs, supernode: NodeData, loaded: map<Bytes, NodeData>,
                    cache: map<Bytes, Handle>, path: Bytes, reason: Bytes, u: Bytes, w: Bytes, d: NodeData, p: Node,
                    t': Tree)
    requires OnHost(h, t, logs, supernode) && InMemory(h, t, loaded, cache) && Removal(t, path, u, w, p) && u in logs
    requires t' == Remove(t, u, Last(Components(path)), w)
    requires Touches(h, h', {u, w}) && NodeShown(h', u, d, p) && Audited(h', u, logs[u] + [reason]) && Gone(h', w)
    ensures var keys := Key(path) + Key(DirectoryPath(path));
      && OnHost(h', t', RemoveLogs(t, logs, Components(path), 0, reason), if u == ROOT_UUID then d else supernode)
      && InMemory(h', t', loaded - keys, cache - keys)
  {
    hide IsTree, Resolve, Components, IsPath, Remove, NodeShown, Touches, DirectoryPath, InMemory, Logged, Removal,
         RemoveLogs;
    RemovalLoaded(h, h', t, loaded, cache, path, u, w, p, t');
    RemovalHosted(h, h', t, logs, supernode, path, reason, u, w, d, p, t');
  }

  lemma RemovalPath(t: Tree, path: Bytes, u: Bytes, w: Bytes, p: Node)
    requires Removal(t, path, u, w, p)
    ensures IsPath(path)
  {
  }

  /** Only the parent is freed: memory is in step exactly when the removed directory was not loaded. */
  lemma RmdirDone(h: Host, h': Host, t: Tree, logs: Logs, supernode: NodeData, loaded: map<Bytes, NodeData>,
                  cache: map<Bytes, Handle>, path: Bytes, reason: Bytes, user: Bytes, u: Bytes, w: Bytes, d: NodeData,
                  p: Node, t': Tree)
    requires OnHost(h, t, logs, supernode) && InMemory(h, t, loaded, cache) && Removal(t, path, u, w, p) && u in logs
    requires RmdirIn(t, Components(path), user) == (0, t') && t' == Remove(t, u, Last(Components(path)), w)
    requires Touches(h, h', {u, w}) && NodeShown(h', u, d, p) && Audited(h', u, logs[u] + [reason]) && Gone(h', w)
    ensures OnHost(h', t', RemoveLogs(t, logs, Components(path), 0, reason), if u == ROOT_UUID then d else supernode)
    ensures InMemory(h', t', loaded - Key(DirectoryPath(path)), cache - Key(DirectoryPath(path))) <==> path !in loaded
  {
    hide IsTree, Resolve, Components, IsPath, Remove, NodeShown, Touches, DirectoryPath, AllCurrent, Logged, Removal,
         RemoveLogs, RmdirIn;
    RemovalDone(h, h', t, logs, supernode, loaded, cache, path, reason, u, w, d, p, t');
    RootIn(t);
    RemovalPath(t, path, u, w, p);
    RmdirStaysCurrent(t, t[ROOT_UUID], cache, path, user);
    var keys := Key(path) + Key(DirectoryPath(path));
    if path !in loaded {
      assert loaded - keys == loaded - Key(DirectoryPath(path)) && cache - keys == cache - Key(DirectoryPath(path));
    }
  }
}
