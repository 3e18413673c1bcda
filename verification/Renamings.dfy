/** `rename`, on the host and in memory. */
module Renamings {
  import opened ByteStrings
  import opened Errno
  import opened Options
  import opened Orders
  import opened SealedMetadata
  import opened NodeRecords
  import opened NodeRoundTrip
  import opened Paths
  import opened AuditLogs
  import opened FileStates
  import opened Trees
  import opened TreeChanges
  import opened TreeFiles
  import opened NodeCaches
  import opened FileSystemStates

  lemma RenameCases(t: Tree, cached: set<Bytes>, was: Bytes, now: Bytes)
    requires IsTree(t) && IsPath(was) && IsPath(now)
    ensures var u := Resolve(t, Init(Components(was)));
            var (code, t') := RenameIn(t, Components(was), Components(now));
            var cached', dir := RenameCached(t, cached, was, now), DirectoryPath(was);
      && (code != 0 ==> t' == t)
      && (dir != DirectoryPath(now) ==> code == -EPROTO && cached' == cached)
      && (dir == DirectoryPath(now) && u.None? ==> code == -ENOENT && cached' == cached)
      && (u.Some? ==> u.value in t)
      && (dir == DirectoryPath(now) && u.Some? ==>
            && (Resolve(t, Components(now)).Some? ==> code == -EEXIST && cached' == cached + Key(dir) + Key(now))
            && (Resolve(t, Components(now)).None? ==> cached' == cached - Key(dir))
            && (Resolve(t, Components(now)).None? ==>
                  code == if Last(Components(was)) !in t[u.value].entries
                             || Load(t, t[u.value].entries[Last(Components(was))]).None? then -ENOENT else 0))
  {
    RootAlone(t, Components(was));
    hide IsTree, Resolve, Components, IsPath, DirectoryPath, Insert, Save;
    DirectoryNames(was);
    DirectoryNames(now);
    SamePath(DirectoryPath(was), DirectoryPath(now));
  }

  /** The parent with the entry under its new name, and the child with that name. */
  ghost predicate Renaming(t: Tree, was: Bytes, now: Bytes, u: Bytes, w: Bytes, p: Node, c: Node) {
    && IsPath(was) && IsPath(now) && RenameIn(t, Components(was), Components(now)).0 == 0
    && Resolve(t, Init(Components(was))) == Some(u) && Edge(t, u, Last(Components(was)), w) && w in t
    && p == t[u].(entries := Insert(t[u].entries - {Last(Components(was))}, Last(Components(now)), w))
    && c == t[w].(name := Last(Components(now)))
  }

  lemma RenamingBegins(t: Tree, was: Bytes, now: Bytes, u: Bytes)
    requires IsTree(t) && IsPath(was) && IsPath(now) && RenameIn(t, Components(was), Components(now)).0 == 0
    requires Resolve(t, Init(Components(was))) == Some(u)
    ensures u in t && Last(Components(was)) in t[u].entries
    ensures var w := t[u].entries[Last(Components(was))];
      && w in t
      && Renaming(t, was, now, u, w,
                  t[u].(entries := Insert(t[u].entries - {Last(Components(was))}, Last(Components(now)), w)),
                  t[w].(name := Last(Components(now))))
  {
    hide IsTree, Resolve, Components, IsPath, RenameIn, Relabel;
    RenameRelabels(t, Components(was), Components(now));
  }

  lemma RenamingTree(t: Tree, was: Bytes, now: Bytes, u: Bytes, w: Bytes, p: Node, c: Node)
    requires IsTree(t) && Renaming(t, was, now, u, w, p, c)
    ensures u in t && w in t && u != w && w != ROOT_UUID && t[u].kind != FileKind && p.kind == t[u].kind
    ensures RenameIn(t, Components(was), Components(now)).1 == t[u := p][w := c]
    ensures (u == ROOT_UUID <==> DirectoryPath(was) == ROOT_PATH) && Resolve(t, Components(was)) == Some(w)
    ensures c == t[w].(name := c.name) && p == t[u].(entries := p.entries)
  {
    hide IsTree, Resolve, Components, IsPath, RenameIn, DirectoryPath;
    var a, b := Components(was), Components(now);
    RenameRelabels(t, a, b);
    EntryFacts(t, u, Last(a), u, Last(a));
    NoLoop(t, u, Last(a));
    ParentIsRoot(t, was, u);
  }

  lemma RenameElsewhere(t: Tree, logs: Logs, u: Bytes, w: Bytes, p: Node, c: Node)
    requires u in t && w in t && u != w && logs.Keys == t.Keys
    ensures Elsewhere(t, t[u := p][w := c], logs, logs, {u, w})
  {
  }

  /** A renamed node can be written: its body is as it was. */
  lemma ChildRenamed(h: Host, users: map<Bytes, User>, w: Bytes, d: NodeData, d': NodeData, node: Node, node': Node)
    requires h.bs > 0 && NodeShown(h, w, d, node) && node.kind != RootKind
    requires d' == d.(path := d'.path) && node' == node.(name := d'.path)
    requires SectionSize(users, h.bs, node') < SECTION_LIMIT
    ensures WellFormed(ClassOf(node'.kind), d') && Matches(w, d', node') && BodyShown(h, d', node') && d'.uuid == w
  {
    hide InSync, SectionSize, Stored;
    ShownFacts(h, w, d, node);
    BodySame(h, d, d', node, node');
    WellFormedParts(ClassOf(node.kind), d);
    hide NodeShown, BodyShown, WellFormed;
    ChangedWellFormed(h, users, w, d, d', node');
  }

  lemma ShownUuids(h: Host, u: Bytes, d: NodeData, node: Node)
    requires NodeShown(h, u, d, node)
    ensures d.entries == node.entries && forall k :: k in node.entries ==> |node.entries[k]| == UUID_SIZE
  {
    ShownFacts(h, u, d, node);
    WellFormedParts(ClassOf(node.kind), d);
  }

  /** The entry of a renamed node keeps its UUID. */
  lemma RenamingEntries(t: Tree, was: Bytes, now: Bytes, u: Bytes, w: Bytes, p: Node, c: Node)
    requires IsTree(t) && Renaming(t, was, now, u, w, p, c)
    ensures u in t && Last(Components(was)) in t[u].entries && t[u].entries[Last(Components(was))] == w
    ensures forall k :: k in p.entries ==> p.entries[k] == if k in t[u].entries then t[u].entries[k] else w
  {
    hide IsTree, Resolve, Components, IsPath, RenameIn;
    RenameRelabels(t, Components(was), Components(now));
  }

  lemma RenamingReady(h: Host, users: map<Bytes, User>, t: Tree, logs: Logs, supernode: NodeData, was: Bytes,
                      now: Bytes, u: Bytes, w: Bytes, d: NodeData, d': NodeData, cd: NodeData, cd': NodeData, p: Node,
                      c: Node)
    requires OnHost(h, t, logs, supernode) && Renaming(t, was, now, u, w, p, c)
    requires u in t && w in t && NodeShown(h, u, d, t[u]) && NodeShown(h, w, cd, t[w])
    requires d' == d.(entries := p.entries) && cd' == cd.(path := c.name) && (u == ROOT_UUID ==> d.users == users)
    requires AllFit(users, h.bs, RenameIn(t, Components(was), Components(now)).1)
    ensures WellFormed(ClassOf(p.kind), d') && Matches(u, d', p) && BodyShown(h, d', p) && u in logs
    ensures Audited(h, u, logs[u])
    ensures WellFormed(ClassOf(c.kind), cd') && Matches(w, cd', c) && BodyShown(h, cd', c) && w in logs
    ensures Audited(h, w, logs[w])
    ensures d'.uuid == u && cd'.uuid == w && u != w
    ensures supernode.path == ROOT_PATH && (DirectoryPath(was) == ROOT_PATH <==> u == ROOT_UUID)
    ensures u == ROOT_UUID ==> d'.path == ROOT_PATH
  {
    hide IsTree, Resolve, Components, IsPath, RenameIn, NodeShown, Logged, SectionSize, WellFormed, BodyShown,
         DirectoryPath, Edge, Renaming;
    RenamingTree(t, was, now, u, w, p, c);
    RenamingEntries(t, was, now, u, w, p, c);
    RootNamed(h, t, logs, supernode);
    RootIn(t);
    ShownFacts(h, u, d, t[u]);
    assert Shows(h, u, t[u], logs[u]) && Shows(h, w, t[w], logs[w]);
    var t' := RenameIn(t, Components(was), Components(now)).1;
    assert u in t' && t'[u] == p && w in t' && t'[w] == c;
    ShownUuids(h, u, d, t[u]);
    ParentReady(h, users, u, d, d', t[u], p);
    ChildRenamed(h, users, w, cd, cd', t[w], c);
  }

  lemma RenamedRoot(t: Tree, was: Bytes, now: Bytes, u: Bytes, w: Bytes, p: Node, c: Node)
    requires IsTree(t) && Renaming(t, was, now, u, w, p, c) && t[ROOT_UUID].name == ROOT_PATH
    ensures var t' := RenameIn(t, Components(was), Components(now)).1;
      IsTree(t') && t'[ROOT_UUID].name == ROOT_PATH
  {
    hide IsTree, Resolve, Components, IsPath, RenameIn, DirectoryPath;
    PathIsItsNames(now);
    RenameKeepsTree(t, Components(was), Components(now));
    RenamingTree(t, was, now, u, w, p, c);
    RootIn(t);
    RootIn(RenameIn(t, Components(was), Components(now)).1);
  }

  lemma RenamingHosted(h: Host, h': Host, t: Tree, logs: Logs, supernode: NodeData, was: Bytes, now: Bytes, u: Bytes,
                       w: Bytes, d: NodeData, cd: NodeData, p: Node, c: Node)
    requires OnHost(h, t, logs, supernode) && Renaming(t, was, now, u, w, p, c) && u in logs && w in logs
    requires Touches(h, h', {u, w}) && NodeShown(h', u, d, p) && Audited(h', u, logs[u])
    requires NodeShown(h', w, cd, c) && Audited(h', w, logs[w])
    ensures OnHost(h', RenameIn(t, Components(was), Components(now)).1, logs, if u == ROOT_UUID then d else supernode)
  {
    hide IsTree, Resolve, Components, IsPath, RenameIn, NodeShown, Logged, Touches, Renaming;
    RenamingTree(t, was, now, u, w, p, c);
    LogKeys(h, t, logs, supernode);
    RenameElsewhere(t, logs, u, w, p, c);
    RenamedRoot(t, was, now, u, w, p, c);
    HostAfter(h, h', t, t[u := p][w := c], logs, logs, supernode, if u == ROOT_UUID then d else supernode, {u, w});
  }

  lemma BelowItself(cached: set<Bytes>, path: Bytes)
    requires NotCachedBelow(cached, path)
    ensures path !in cached
  {
  }

  /** Memory is in step exactly when nothing at or below the old path was loaded. */
  lemma RenamingLoaded(h: Host, h': Host, t: Tree, loaded: map<Bytes, NodeData>, cache: map<Bytes, Handle>, was: Bytes,
                       now: Bytes, u: Bytes, w: Bytes, p: Node, c: Node)
    requires IsTree(t) && t[ROOT_UUID].name == ROOT_PATH && InMemory(h, t, loaded, cache)
    requires Renaming(t, was, now, u, w, p, c) && Touches(h, h', {u, w})
    ensures var t', key := RenameIn(t, Components(was), Components(now)).1, Key(DirectoryPath(was));
      InMemory(h', t', loaded - key, cache - key) <==> NotCachedBelow(loaded.Keys, was)
  {
    hide IsTree, Resolve, Components, IsPath, RenameIn, NodeShown, Touches, DirectoryPath, AllCurrent, NotCachedBelow;
    RootIn(t);
    RenameStaysCurrent(t, t[ROOT_UUID], cache, was, now);
    if NotCachedBelow(loaded.Keys, was) {
      var dir := DirectoryPath(was);
      RenamingTree(t, was, now, u, w, p, c);
      DirectoryNames(was);
      forall q | q in cache && q !in Key(dir)
        ensures cache[q].uuid != w
      {
        BelowItself(cache.Keys, was);
        OnlyCachedThere(t, cache, was, w, q);
      }
      OthersStillLoaded(h, h', t, loaded, cache, dir, u, w, Key(dir));
    }
  }

  lemma RenamingDone(h: Host, h': Host, t: Tree, logs: Logs, supernode: NodeData, loaded: map<Bytes, NodeData>,
                     cache: map<Bytes, Handle>, was: Bytes, now: Bytes, u: Bytes, w: Bytes, d: NodeData, cd: NodeData,
                     p: Node, c: Node)
    requires OnHost(h, t, logs, supernode) && InMemory(h, t, loaded, cache)
    requires Renaming(t, was, now, u, w, p, c) && u in logs && w in logs && Touches(h, h', {u, w})
    requires NodeShown(h', u, d, p) && Audited(h', u, logs[u]) && NodeShown(h', w, cd, c) && Audited(h', w, logs[w])
    ensures var t', key := RenameIn(t, Components(was), Components(now)).1, Key(DirectoryPath(was));
      && OnHost(h', t', logs, if u == ROOT_UUID then d else supernode)
      && (InMemory(h', t', loaded - key, cache - key) <==> NotCachedBelow(loaded.Keys, was))
  {
    hide IsTree, Resolve, Components, IsPath, RenameIn, NodeShown, Touches, DirectoryPath, InMemory, Logged, Renaming;
    RenamingLoaded(h, h', t, loaded, cache, was, now, u, w, p, c);
    RenamingHosted(h, h', t, logs, supernode, was, now, u, w, d, cd, p, c);
  }

  /** The parent is not below the path, so loading it makes no difference. */
  lemma ParentNotBelow(cached: set<Bytes>, path: Bytes)
    requires IsPath(path)
    ensures NotCachedBelow(cached + Key(DirectoryPath(path)), path) <==> NotCachedBelow(cached, path)
  {
    hide IsPath, Components, DirectoryPath;
    DirectoryNames(path);
    if Components(path) == [] {
      assert cached + Key(DirectoryPath(path)) == cached;
    }
  }
}
