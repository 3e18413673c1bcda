/** What entitlements are for: what users without a right can neither change nor learn, over whole runs. */
module Protection {
  import opened ByteStrings
  import opened Options
  import opened Orders
  import opened Blocks
  import opened Codec
  import opened SealedMetadata
  import opened Paths
  import opened NodeRecords
  import opened AccessRights
  import opened Answers
  import opened FlatFiles
  import opened Trees
  import opened TreeFiles
  import opened NodeCaches
  import opened FileSystemRuns
  import opened Users
  import opened Sessions

  // ----- rights -----

  /** Whoever may not read, or may not write, is no owner. */
  lemma OwnersMayAll(node: Node, access: Access, user: Bytes)
    requires May(node, Owning, user)
    ensures May(node, access, user)
  {
  }

  /** So a user who is given the three rights, but not ownership, may take it. */
  lemma OwnsWithoutBit(t: Tree, cs: seq<Bytes>, u: Bytes, user: Bytes)
    requires Resolve(t, cs) == Some(u) && u in t && t[u].kind != RootKind
    requires CString(user) in t[u].rights && t[u].rights[CString(user)] == Rights(false, true, true, true)
    ensures var (code, t') := EditIn(t, cs, OWNER_RIGHT, user, true, user);
      code == 0 && u in t' && t'[u].rights[CString(user)].owner
  {
    hide Resolve, CString;
  }

  // ----- one operation -----

  /** Removing a node and changing its rights takes its owner, changing its bytes someone who may write. */
  predicate Rightful(t: Tree, t': Tree, u: Bytes, user: Bytes)
    requires u in t
  {
    if u !in t' then May(t[u], Owning, user) else
    && t'[u].kind == t[u].kind
    && (t'[u].rights != t[u].rights ==> May(t[u], Owning, user))
    && (t'[u].bytes != t[u].bytes ==> May(t[u], Writing, user))
  }

  lemma NoChange(t: Tree, u: Bytes, user: Bytes)
    requires u in t
    ensures Rightful(t, t, u, user)
  {
  }

  lemma CreateRightful(t: Tree, cs: seq<Bytes>, kind: Kind, uuid: Bytes, user: Bytes, u: Bytes)
    requires u in t && uuid != u
    ensures Rightful(t, CreateIn(t, cs, kind, uuid, user).1, u, user)
  {
    hide Resolve, May, NewNode;
  }

  lemma RemovalRightful(t: Tree, cs: seq<Bytes>, user: Bytes, u: Bytes)
    requires u in t
    ensures Rightful(t, UnlinkIn(t, cs, user).1, u, user) && Rightful(t, RmdirIn(t, cs, user).1, u, user)
  {
    AllowedBits(t[u], user);
    hide Resolve, May, Allows;
  }

  lemma RenameRightful(t: Tree, was: seq<Bytes>, now: seq<Bytes>, user: Bytes, u: Bytes)
    requires u in t
    ensures Rightful(t, RenameIn(t, was, now).1, u, user)
  {
    hide Resolve, May;
  }

  lemma EditRightful(t: Tree, cs: seq<Bytes>, rights: Rights, target: Bytes, known: bool, user: Bytes, u: Bytes)
    requires u in t
    ensures Rightful(t, EditIn(t, cs, rights, target, known, user).1, u, user)
  {
    AllowedBits(t[u], user);
    hide Resolve, May, Allows, CString;
  }

  lemma ContentRightful(t: Tree, bs: nat, cs: seq<Bytes>, offset: nat, data: Bytes, newSize: nat, user: Bytes, u: Bytes)
    requires u in t && bs > 0
    ensures Rightful(t, WriteIn(t, bs, cs, offset, data, user).1, u, user)
    ensures Rightful(t, TruncateIn(t, cs, newSize, user).1, u, user)
  {
    AllowedBits(t[u], user);
    hide FileAt, May, Allows, WriteFlat;
  }

  predicate FreshIn(t: Tree, op: Op) {
    op.Create? || op.Mkdir? ==> op.uuid !in t
  }

  lemma LegalIsFresh(w: Setting, t: Tree, cached: set<Bytes>, op: Op)
    requires w.bs > 0 && Legal(w, t, cached, op)
    ensures FreshIn(t, op)
  {
    hide IsPath, AllFit, ApplyTree, InDirectory;
  }

  lemma ChangesAreRightful(w: Setting, t: Tree, op: Op, u: Bytes)
    requires w.bs > 0 && u in t && FreshIn(t, op)
    ensures Rightful(t, ApplyTree(w, t, op).0, u, w.user)
  {
    hide Rightful, Components, CString, CreateIn, UnlinkIn, RmdirIn, RenameIn, EditIn, WriteIn, TruncateIn;
    var cs := Components(op.path);
    match op
    case Create(_, uuid, _) => CreateRightful(t, cs, FileKind, uuid, w.user, u);
    case Mkdir(_, uuid, _) => CreateRightful(t, cs, DirKind, uuid, w.user, u);
    case Unlink(_, _) => RemovalRightful(t, cs, w.user, u);
    case Rmdir(_, _) => RemovalRightful(t, cs, w.user, u);
    case Rename(_, now) => RenameRightful(t, cs, Components(now), w.user, u);
    case Edit(_, rights, target) => EditRightful(t, cs, rights, target, CString(target) in w.users, w.user, u);
    case Write(_, _, offset, data) => ContentRightful(t, w.bs, cs, offset, data, 0, w.user, u);
    case Truncate(_, newSize) => ContentRightful(t, w.bs, cs, 0, [], newSize, w.user, u);
    case _ => NoChange(t, u, w.user);
  }

  /** Whoever may not, does not. */
  lemma StrangerLeaves(t: Tree, t': Tree, u: Bytes, user: Bytes, access: Access)
    requires u in t && Rightful(t, t', u, user) && !May(t[u], access, user)
    ensures u in t' && t'[u].kind == t[u].kind && t'[u].rights == t[u].rights
    ensures access == Writing ==> t'[u].bytes == t[u].bytes
  {
    if May(t[u], Owning, user) {
      OwnersMayAll(t[u], access, user);
    }
    hide May;
  }

  // ----- accountability -----

  /** Whose audit log an operation is noted in: of the nodes before it, those that it may touch and does. */
  predicate Concerns(w: Setting, t: Tree, op: Op, u: Bytes) {
    var cs := Components(op.path);
    match op
    case Create(_, uuid, _) => Resolve(t, cs).None? && Resolve(t, Init(cs)) == Some(u)
    case Mkdir(_, uuid, _) => Resolve(t, cs).None? && Resolve(t, Init(cs)) == Some(u)
    case Unlink(_, _) => UnlinkIn(t, cs, w.user).0 == 0 && Resolve(t, Init(cs)) == Some(u)
    case Rmdir(_, _) => RmdirIn(t, cs, w.user).0 == 0 && Resolve(t, Init(cs)) == Some(u)
    case Read(_, _, _, _) => FileAt(t, cs) == Some(u) && May(t[u], Reading, w.user)
    case Write(_, _, _, _) => FileAt(t, cs) == Some(u) && May(t[u], Writing, w.user)
    case _ => false
  }

  /** What it adds there. */
  function Noting(w: Setting, t: Tree, op: Op, u: Bytes): seq<Bytes> {
    if Concerns(w, t, op, u) then [op.reason] else []
  }

  /** The entry that a successful removal strikes is what the path leads to. */
  lemma RemovedIsResolved(t: Tree, cs: seq<Bytes>)
    requires IsTree(t) && Resolve(t, Init(cs)).Some? && Resolve(t, Init(cs)).value in t
    requires Last(cs) in t[Resolve(t, Init(cs)).value].entries
    ensures cs != [] && Resolve(t, cs) == Some(t[Resolve(t, Init(cs)).value].entries[Last(cs)])
  {
    hide IsTree, Resolve;
    EntryIsResolved(t, cs);
  }

  lemma RemovalNotes(t: Tree, logs: Logs, cs: seq<Bytes>, code: int, reason: Bytes, u: Bytes)
    requires u in logs && (code == 0 ==> Resolve(t, cs).Some? && Resolve(t, cs) != Some(u))
    requires code == 0 ==> Resolve(t, Init(cs)).Some?
    ensures var logs' := RemoveLogs(t, logs, cs, code, reason);
      u in logs' && logs'[u] == logs[u] + if code == 0 && Resolve(t, Init(cs)) == Some(u) then [reason] else []
  {
    hide Resolve;
  }

  lemma CreationNotes(t: Tree, logs: Logs, cs: seq<Bytes>, uuid: Bytes, reason: Bytes, u: Bytes)
    requires u in logs && u != uuid
    ensures var logs' := CreateLogs(t, logs, cs, uuid, reason);
      && u in logs'
      && logs'[u] == logs[u] + if Resolve(t, cs).None? && Resolve(t, Init(cs)) == Some(u) then [reason] else []
  {
    hide Resolve;
  }

  /** A new node begins its log with the reason of its creation. */
  lemma NewLog(t: Tree, logs: Logs, cs: seq<Bytes>, uuid: Bytes, reason: Bytes)
    requires uuid !in logs && Resolve(t, cs).None? && Resolve(t, Init(cs)).Some? && Resolve(t, Init(cs)) != Some(uuid)
    ensures var logs' := CreateLogs(t, logs, cs, uuid, reason); uuid in logs' && logs'[uuid] == [reason]
  {
    hide Resolve;
  }

  lemma AccessNotes(t: Tree, logs: Logs, cs: seq<Bytes>, access: Access, user: Bytes, reason: Bytes, u: Bytes)
    requires u in logs
    ensures var logs' := AccessLogs(t, logs, cs, RightFor(access), user, reason);
      u in logs' && logs'[u] == logs[u] + if FileAt(t, cs) == Some(u) && May(t[u], access, user) then [reason] else []
  {
    if FileAt(t, cs).Some? {
      AllowedExactly(t[FileAt(t, cs).value], access, user);
    }
    hide FileAt, Allows, May;
  }

  /** The log of a node that stays gets exactly the reasons of what concerns it. */
  lemma NotedExactly(w: Setting, t: Tree, logs: Logs, op: Op, u: Bytes)
    requires w.bs > 0 && IsTree(t) && u in t && u in logs && u in ApplyTree(w, t, op).0
    requires FreshIn(t, op)
    ensures u in ApplyLogs(w, t, logs, op) && ApplyLogs(w, t, logs, op)[u] == logs[u] + Noting(w, t, op, u)
  {
    hide IsTree, Resolve, Components, Allows, May, Save, FileAt, CreateLogs, RemoveLogs, AccessLogs;
    var cs := Components(op.path);
    match op
    case Create(_, uuid, reason) => CreationNotes(t, logs, cs, uuid, reason, u);
    case Mkdir(_, uuid, reason) => CreationNotes(t, logs, cs, uuid, reason, u);
    case Unlink(_, reason) =>
      if UnlinkIn(t, cs, w.user).0 == 0 {
        RemovedIsResolved(t, cs);
      }
      RemovalNotes(t, logs, cs, UnlinkIn(t, cs, w.user).0, reason, u);
    case Rmdir(_, reason) =>
      if RmdirIn(t, cs, w.user).0 == 0 {
        RemovedIsResolved(t, cs);
      }
      RemovalNotes(t, logs, cs, RmdirIn(t, cs, w.user).0, reason, u);
    case Read(_, reason, _, _) => AccessNotes(t, logs, cs, Reading, w.user, reason, u);
    case Write(_, reason, _, _) => AccessNotes(t, logs, cs, Writing, w.user, reason, u);
    case _ =>
  }

  // ----- runs of strangers -----

  function NextDb(s: Signatures, db: Database, c: Call): Database {
    if c.Manage? then Next(s, db, c.event).0 else db
  }

  /** Whoever is logged in when an operation by path is called may not read, write or own the node. */
  ghost predicate Strangers(s: Signatures, db: Database, cs: seq<Call>, node: Node, access: Access)
    decreases |cs|
  {
    cs == [] || ((cs[0].Access? && db.current.Some? ==> !May(node, access, db.current.value.uuid))
                 && Strangers(s, NextDb(s, db, cs[0]), cs[1..], node, access))
  }

  lemma {:induction false} StillStrangers(s: Signatures, db: Database, cs: seq<Call>, node: Node, node': Node,
                                          access: Access)
    requires Strangers(s, db, cs, node, access) && node'.kind == node.kind && node'.rights == node.rights
    ensures Strangers(s, db, cs, node', access)
    decreases |cs|
  {
    hide Next, CString;
    if cs != [] {
      StillStrangers(s, NextDb(s, db, cs[0]), cs[1..], node, node', access);
    }
  }

  /** What a call by someone without a right leaves of a node. */
  predicate Spared(w: World, w': World, u: Bytes, access: Access) {
    && u in w.files.tree && u in w'.files.tree
    && u in w.files.logs && u in w'.files.logs && w.files.logs[u] <= w'.files.logs[u]
    && w'.files.tree[u].kind == w.files.tree[u].kind && w'.files.tree[u].rights == w.files.tree[u].rights
    && (access == Writing ==> w'.files.tree[u].bytes == w.files.tree[u].bytes)
  }

  lemma CallSpares(s: Signatures, bs: nat, w: World, cached: set<Bytes>, c: Call, u: Bytes, access: Access)
    requires bs > 0 && Consistent(w.db) && IsTree(w.files.tree) && LegalCall(s, bs, w, cached, c)
    requires u in w.files.tree && u in w.files.logs
    requires c.Access? && w.db.current.Some? ==> !May(w.files.tree[u], access, w.db.current.value.uuid)
    ensures var w' := Respond(s, bs, w, c).0;
      Spared(w, w', u, access) && w'.db == NextDb(s, w.db, c) && Consistent(w'.db) && IsTree(w'.files.tree)
  {
    hide Consistent, IsTree, Next, ApplyTree, ApplyLogs, Drawn, Legal, May, Noting, Rightful, FreshIn;
    CallKeeps(s, bs, w, cached, c);
    if c.Access? && w.db.current.Some? {
      var asker := SettingIn(w.db, bs);
      LegalIsFresh(asker, w.files.tree, cached, c.op);
      ChangesAreRightful(asker, w.files.tree, c.op, u);
      StrangerLeaves(w.files.tree, ApplyTree(asker, w.files.tree, c.op).0, u, asker.user, access);
      NotedExactly(asker, w.files.tree, w.files.logs, c.op, u);
    }
  }

  lemma SparedNode(w: World, w': World, u: Bytes, access: Access)
    requires Spared(w, w', u, access)
    ensures u in w.files.tree && u in w'.files.tree && u in w'.files.logs
    ensures w'.files.tree[u].kind == w.files.tree[u].kind && w'.files.tree[u].rights == w.files.tree[u].rights
  {
  }

  lemma NothingDone(w: World, u: Bytes, access: Access)
    requires u in w.files.tree && u in w.files.logs
    ensures Spared(w, w, u, access)
  {
  }

  lemma SparedTwice(w: World, w1: World, w2: World, u: Bytes, access: Access)
    requires Spared(w, w1, u, access) && Spared(w1, w2, u, access)
    ensures Spared(w, w2, u, access)
  {
  }

  /**
   While nobody who has some right on a node asks for anything, the node stays with its rights, and its audit log only
   grows; if nobody may write, its bytes stay as well.
   */
  lemma {:induction false} StrangersSpare(s: Signatures, bs: nat, w: World, cached: set<Bytes>, cs: seq<Call>, u: Bytes,
                                          access: Access)
    requires bs > 0 && Consistent(w.db) && IsTree(w.files.tree) && LegalCalls(s, bs, w, cached, cs)
    requires u in w.files.tree && u in w.files.logs && Strangers(s, w.db, cs, w.files.tree[u], access)
    ensures Spared(w, RespondAll(s, bs, w, cs).0, u, access)
    decreases |cs|
  {
    hide Consistent, IsTree, Respond, Loaded, LegalCall, NextDb, May, Spared;
    if cs == [] {
      NothingDone(w, u, access);
    } else {
      var w1, cached1 := Respond(s, bs, w, cs[0]).0, Loaded(bs, w, cached, cs[0]);
      CallSpares(s, bs, w, cached, cs[0], u, access);
      SparedNode(w, w1, u, access);
      StillStrangers(s, w1.db, cs[1..], w.files.tree[u], w1.files.tree[u], access);
      StrangersSpare(s, bs, w1, cached1, cs[1..], u, access);
      SparedTwice(w, w1, RespondAll(s, bs, w1, cs[1..]).0, u, access);
    }
  }

  // ----- the audit trail of a run -----

  /** The node is there all along the run. */
  ghost predicate Stays(s: Signatures, bs: nat, w: World, cs: seq<Call>, u: Bytes)
    requires bs > 0
    decreases |cs|
  {
    u in w.files.tree && (cs == [] || Stays(s, bs, Respond(s, bs, w, cs[0]).0, cs[1..], u))
  }

  function CallNoting(bs: nat, w: World, c: Call, u: Bytes): seq<Bytes> {
    if c.Access? && w.db.current.Some? then Noting(SettingIn(w.db, bs), w.files.tree, c.op, u) else []
  }

  /** The reasons, in order, of all that concerns a node in a run: who may not read or write a file leaves none. */
  function Trail(s: Signatures, bs: nat, w: World, cs: seq<Call>, u: Bytes): seq<Bytes>
    requires bs > 0
    decreases |cs|
  {
    if cs == [] then [] else CallNoting(bs, w, cs[0], u) + Trail(s, bs, Respond(s, bs, w, cs[0]).0, cs[1..], u)
  }

  lemma CallNotes(s: Signatures, bs: nat, w: World, cached: set<Bytes>, c: Call, u: Bytes)
    requires bs > 0 && IsTree(w.files.tree) && LegalCall(s, bs, w, cached, c)
    requires u in w.files.tree && u in w.files.logs && u in Respond(s, bs, w, c).0.files.tree
    ensures var logs' := Respond(s, bs, w, c).0.files.logs;
      u in logs' && logs'[u] == w.files.logs[u] + CallNoting(bs, w, c, u)
  {
    hide IsTree, Next, ApplyTree, ApplyLogs, Drawn, Noting, AllFit, Legal, FreshIn;
    if c.Access? && w.db.current.Some? {
      LegalIsFresh(SettingIn(w.db, bs), w.files.tree, cached, c.op);
      NotedExactly(SettingIn(w.db, bs), w.files.tree, w.files.logs, c.op, u);
    }
  }

  /** Over any run, the audit log of a node that stays gets exactly the reasons of what concerned it, in order. */
  lemma {:induction false} RunNotes(s: Signatures, bs: nat, w: World, cached: set<Bytes>, cs: seq<Call>, u: Bytes)
    requires bs > 0 && Consistent(w.db) && IsTree(w.files.tree) && LegalCalls(s, bs, w, cached, cs)
    requires u in w.files.logs && Stays(s, bs, w, cs, u)
    ensures var logs' := RespondAll(s, bs, w, cs).0.files.logs;
      u in logs' && logs'[u] == w.files.logs[u] + Trail(s, bs, w, cs, u)
    decreases |cs|
  {
    hide Consistent, IsTree, Respond, Loaded, LegalCall, CallNoting;
    if cs != [] {
      CallKeeps(s, bs, w, cached, cs[0]);
      CallNotes(s, bs, w, cached, cs[0], u);
      RunNotes(s, bs, Respond(s, bs, w, cs[0]).0, Loaded(bs, w, cached, cs[0]), cs[1..], u);
    }
  }

  // ----- what strangers learn -----

  /** The same node, but for its bytes, if it is the one that strangers ask about; even they are as many. */
  predicate SameFace(node: Node, node': Node, itself: bool) {
    if itself then node' == node.(bytes := node'.bytes) && |node'.bytes| == |node.bytes| else node' == node
  }

  /** The same tree, but for the bytes of one node. */
  predicate Alike(t: Tree, t': Tree, u: Bytes) {
    t.Keys == t'.Keys && forall v :: v in t ==> SameFace(t[v], t'[v], v == u)
  }

  lemma NodeAlike(t: Tree, t': Tree, u: Bytes, v: Bytes, min: Rights, user: Bytes)
    requires Alike(t, t', u)
    ensures v in t <==> v in t'
    ensures v in t ==> SameFace(t[v], t'[v], v == u) && (Allows(t'[v], min, user) <==> Allows(t[v], min, user))
    ensures v in t ==> t'[v].kind == t[v].kind && t'[v].entries == t[v].entries
  {
    hide Permits;
  }

  lemma SaveAlike(t: Tree, t': Tree, u: Bytes, v: Bytes, node: Node, node': Node)
    requires Alike(t, t', u) && SameFace(node, node', v == u)
    ensures Alike(Save(t, v, node), Save(t', v, node'), u)
  {
  }

  lemma DropAlike(t: Tree, t': Tree, u: Bytes, v: Bytes)
    requires Alike(t, t', u)
    ensures Alike(t - {v}, t' - {v}, u)
  {
    hide SameFace;
  }

  lemma LookupAlike(t: Tree, t': Tree, u: Bytes, v: Bytes, n: Bytes)
    requires Alike(t, t', u)
    ensures Lookup(t', v, n) == Lookup(t, v, n)
  {
    if v in t && n in t[v].entries {
      var w := t[v].entries[n];
      assert w in t ==> t'[w].kind == t[w].kind;
    }
  }

  lemma {:induction false} WalkAlike(t: Tree, t': Tree, u: Bytes, v: Bytes, cs: seq<Bytes>)
    requires Alike(t, t', u)
    ensures Walk(t', v, cs) == Walk(t, v, cs)
    decreases |cs|
  {
    hide Lookup, Alike;
    if cs != [] {
      LookupAlike(t, t', u, v, cs[0]);
      if Lookup(t, v, cs[0]).Some? {
        WalkAlike(t, t', u, Lookup(t, v, cs[0]).value, cs[1..]);
      }
    }
  }

  /** Every path leads to the same node. */
  lemma ResolveAlike(t: Tree, t': Tree, u: Bytes, cs: seq<Bytes>)
    requires Alike(t, t', u)
    ensures Resolve(t', cs) == Resolve(t, cs) && Resolve(t', Init(cs)) == Resolve(t, Init(cs))
    ensures FileAt(t', cs) == FileAt(t, cs)
  {
    WalkAlike(t, t', u, ROOT_UUID, cs);
    WalkAlike(t, t', u, ROOT_UUID, Init(cs));
    hide Walk;
  }

  lemma {:induction false} VisibleAlike(t: Tree, t': Tree, u: Bytes, entries: map<Bytes, Bytes>, ks: seq<Bytes>,
                                        user: Bytes)
    requires Alike(t, t', u) && forall k :: k in ks ==> k in entries && entries[k] in t
    ensures Visible(t', entries, ks, user) == Visible(t, entries, ks, user)
  {
    hide Permits;
    if ks != [] {
      VisibleAlike(t, t', u, entries, ks[..|ks| - 1], user);
      var v := entries[ks[|ks| - 1]];
      assert v != u ==> t'[v] == t[v];
    }
  }

  lemma ListingAlike(t: Tree, t': Tree, u: Bytes, cs: seq<Bytes>, user: Bytes)
    requires Alike(t, t', u)
    ensures Listing(t', cs, user) == Listing(t, cs, user)
  {
    hide Resolve, KeyList, Visible;
    ResolveAlike(t, t', u, cs);
    var v := Resolve(t, cs);
    if v.Some? && v.value in t {
      var entries := t[v.value].entries;
      assert t'[v.value].entries == entries;
      if forall k | k in KeyList(entries) :: k in entries && entries[k] in t {
        VisibleAlike(t, t', u, entries, KeyList(entries), user);
      }
    }
  }

  /** A write depends on the old bytes only in the bytes it leaves. */
  lemma WriteAlike(node: Node, node': Node, bs: nat, offset: nat, data: Bytes, user: Bytes)
    requires bs > 0 && node' == node.(bytes := node'.bytes) && |node'.bytes| == |node.bytes|
    ensures var (r, n) := WriteTo(node, bs, offset, data, user);
            var (r', n') := WriteTo(node', bs, offset, data, user);
      r' == r && n' == n.(bytes := n'.bytes) && |n'.bytes| == |n.bytes|
  {
    hide Permits, BlockStart;
  }

  /** The parent of a creation or renaming gets other entries. */
  lemma EntriesAlike(t: Tree, t': Tree, u: Bytes, v: Bytes, entries: map<Bytes, Bytes>)
    requires Alike(t, t', u) && v in t
    ensures v in t' && t'[v].entries == t[v].entries
    ensures Alike(Save(t, v, t[v].(entries := entries)), Save(t', v, t'[v].(entries := entries)), u)
  {
    hide Alike, Save;
    NodeAlike(t, t', u, v, READ_RIGHT, ROOT_UUID);
    SaveAlike(t, t', u, v, t[v].(entries := entries), t'[v].(entries := entries));
  }

  lemma CreateAlike(t: Tree, t': Tree, u: Bytes, cs: seq<Bytes>, kind: Kind, uuid: Bytes, user: Bytes)
    requires Alike(t, t', u)
    ensures CreateIn(t', cs, kind, uuid, user).0 == CreateIn(t, cs, kind, uuid, user).0
    ensures Alike(CreateIn(t, cs, kind, uuid, user).1, CreateIn(t', cs, kind, uuid, user).1, u)
  {
    hide Resolve, NewNode, Alike, Save;
    ResolveAlike(t, t', u, cs);
    var v := Resolve(t, Init(cs));
    if Resolve(t, cs).None? && v.Some? {
      NodeAlike(t, t', u, v.value, READ_RIGHT, user);
      if v.value in t {
        var node, entries := NewNode(kind, Last(cs), user), Insert(t[v.value].entries, Last(cs), uuid);
        EntriesAlike(t, t', u, v.value, entries);
        SaveAlike(Save(t, v.value, t[v.value].(entries := entries)),
                  Save(t', v.value, t'[v.value].(entries := entries)), u, uuid, node, node);
      }
    }
  }

  lemma RemoveAlike(t: Tree, t': Tree, u: Bytes, v: Bytes, name: Bytes, child: Bytes)
    requires Alike(t, t', u) && v in t
    ensures v in t' && Alike(Trees.Remove(t, v, name, child), Trees.Remove(t', v, name, child), u)
  {
    hide Alike, Save;
    var entries := t[v].entries - {name};
    EntriesAlike(t, t', u, v, entries);
    DropAlike(Save(t, v, t[v].(entries := entries)), Save(t', v, t'[v].(entries := entries)), u, child);
  }

  lemma UnlinkAlike(t: Tree, t': Tree, u: Bytes, cs: seq<Bytes>, user: Bytes)
    requires Alike(t, t', u)
    ensures UnlinkIn(t', cs, user).0 == UnlinkIn(t, cs, user).0
    ensures Alike(UnlinkIn(t, cs, user).1, UnlinkIn(t', cs, user).1, u)
  {
    hide Resolve, Trees.Remove, Allows, Alike;
    ResolveAlike(t, t', u, cs);
    var v := Resolve(t, Init(cs));
    if v.Some? {
      NodeAlike(t, t', u, v.value, OWNER_RIGHT, user);
      if v.value in t && Last(cs) in t[v.value].entries {
        var child := t[v.value].entries[Last(cs)];
        NodeAlike(t, t', u, child, OWNER_RIGHT, user);
        if child in t {
          RemoveAlike(t, t', u, v.value, t[child].name, child);
        }
      }
    }
  }

  lemma RmdirAlike(t: Tree, t': Tree, u: Bytes, cs: seq<Bytes>, user: Bytes)
    requires Alike(t, t', u)
    ensures RmdirIn(t', cs, user).0 == RmdirIn(t, cs, user).0
    ensures Alike(RmdirIn(t, cs, user).1, RmdirIn(t', cs, user).1, u)
  {
    hide Resolve, Trees.Remove, Allows, Alike;
    ResolveAlike(t, t', u, cs);
    var v := Resolve(t, Init(cs));
    if v.Some? {
      NodeAlike(t, t', u, v.value, OWNER_RIGHT, user);
      if v.value in t && Last(cs) in t[v.value].entries {
        NodeAlike(t, t', u, t[v.value].entries[Last(cs)], OWNER_RIGHT, user);
        RemoveAlike(t, t', u, v.value, Last(cs), t[v.value].entries[Last(cs)]);
      }
    }
  }

  lemma RenameAlike(t: Tree, t': Tree, u: Bytes, was: seq<Bytes>, now: seq<Bytes>)
    requires Alike(t, t', u)
    ensures RenameIn(t', was, now).0 == RenameIn(t, was, now).0
    ensures Alike(RenameIn(t, was, now).1, RenameIn(t', was, now).1, u)
  {
    hide Resolve, Alike, Save;
    ResolveAlike(t, t', u, was);
    ResolveAlike(t, t', u, now);
    var v := Resolve(t, Init(was));
    if v.Some? {
      NodeAlike(t, t', u, v.value, READ_RIGHT, ROOT_UUID);
      if v.value in t && Last(was) in t[v.value].entries {
        var child := t[v.value].entries[Last(was)];
        NodeAlike(t, t', u, child, READ_RIGHT, ROOT_UUID);
        if child in t {
          var entries := Insert(t[v.value].entries - {Last(was)}, Last(now), child);
          EntriesAlike(t, t', u, v.value, entries);
          SaveAlike(Save(t, v.value, t[v.value].(entries := entries)),
                    Save(t', v.value, t'[v.value].(entries := entries)), u, child,
                    t[child].(name := Last(now)), t'[child].(name := Last(now)));
        }
      }
    }
  }

  lemma EditAlike(t: Tree, t': Tree, u: Bytes, cs: seq<Bytes>, rights: Rights, target: Bytes, known: bool, user: Bytes)
    requires Alike(t, t', u)
    ensures EditIn(t', cs, rights, target, known, user).0 == EditIn(t, cs, rights, target, known, user).0
    ensures Alike(EditIn(t, cs, rights, target, known, user).1, EditIn(t', cs, rights, target, known, user).1, u)
  {
    hide Resolve, Allows, Alike, Save, CString;
    ResolveAlike(t, t', u, cs);
    var v := Resolve(t, cs);
    if v.Some? {
      NodeAlike(t, t', u, v.value, OWNER_RIGHT, user);
      if v.value in t {
        var given := t[v.value].rights[CString(target) := rights];
        SaveAlike(t, t', u, v.value, t[v.value].(rights := given), t'[v.value].(rights := given));
      }
    }
  }

  /** What an operation does and answers is the same, unless its user may read the bytes. */
  lemma ChangeAlike(w: Setting, t: Tree, t': Tree, op: Op, u: Bytes)
    requires w.bs > 0 && Alike(t, t', u) && Changes(op)
    ensures ApplyTree(w, t', op).1 == ApplyTree(w, t, op).1
    ensures Alike(ApplyTree(w, t, op).0, ApplyTree(w, t', op).0, u)
  {
    hide Components, CString, Alike, CreateIn, UnlinkIn, RmdirIn, RenameIn, EditIn;
    var cs := Components(op.path);
    match op
    case Create(_, uuid, _) => CreateAlike(t, t', u, cs, FileKind, uuid, w.user);
    case Mkdir(_, uuid, _) => CreateAlike(t, t', u, cs, DirKind, uuid, w.user);
    case Unlink(_, _) => UnlinkAlike(t, t', u, cs, w.user);
    case Rmdir(_, _) => RmdirAlike(t, t', u, cs, w.user);
    case Rename(_, now) => RenameAlike(t, t', u, cs, Components(now));
    case Edit(_, rights, target) => EditAlike(t, t', u, cs, rights, target, CString(target) in w.users, w.user);
  }

  lemma AllowedEach(t: Tree, user: Bytes)
    ensures forall u :: u in t ==> (Allows(t[u], READ_RIGHT, user) <==> May(t[u], Reading, user))
  {
    forall u | u in t
      ensures Allows(t[u], READ_RIGHT, user) <==> May(t[u], Reading, user)
    {
      AllowedBits(t[u], user);
    }
  }

  lemma AccessAlike(w: Setting, t: Tree, t': Tree, op: Op, u: Bytes)
    requires w.bs > 0 && Alike(t, t', u) && Accesses(op)
    requires op.Read? && u in t ==> !May(t[u], Reading, w.user)
    ensures ApplyTree(w, t', op).1 == ApplyTree(w, t, op).1
    ensures Alike(ApplyTree(w, t, op).0, ApplyTree(w, t', op).0, u)
  {
    AllowedEach(t, w.user);
    hide Resolve, Components, Permits, CString, WriteTo, FileAt, May;
    ResolveAlike(t, t', u, Components(op.path));
    var v := FileAt(t, Components(op.path));
    if op.Write? && v.Some? {
      WriteAlike(t[v.value], t'[v.value], w.bs, op.offset, op.data, w.user);
    }
  }

  lemma LookAlike(w: Setting, t: Tree, t': Tree, op: Op, u: Bytes)
    requires w.bs > 0 && Alike(t, t', u) && !Changes(op) && !Accesses(op)
    ensures ApplyTree(w, t', op).1 == ApplyTree(w, t, op).1
    ensures Alike(ApplyTree(w, t, op).0, ApplyTree(w, t', op).0, u)
  {
    hide Resolve, Components, Permits, Listing;
    ResolveAlike(t, t', u, Components(op.path));
    ListingAlike(t, t', u, Components(op.path), w.user);
  }

  lemma PlacesAlike(t: Tree, t': Tree, u: Bytes, logs: Logs, cs: seq<Bytes>, uuid: Bytes, code: int, reason: Bytes,
                    min: Rights, user: Bytes)
    requires Alike(t, t', u)
    ensures CreateLogs(t', logs, cs, uuid, reason) == CreateLogs(t, logs, cs, uuid, reason)
    ensures RemoveLogs(t', logs, cs, code, reason) == RemoveLogs(t, logs, cs, code, reason)
    ensures AccessLogs(t', logs, cs, min, user, reason) == AccessLogs(t, logs, cs, min, user, reason)
  {
    hide Resolve, Permits, FileAt, Noted;
    ResolveAlike(t, t', u, cs);
    var v := FileAt(t, cs);
    assert v.Some? ==> t'[v.value].kind == t[v.value].kind && t'[v.value].rights == t[v.value].rights;
  }

  lemma LogsAlike(w: Setting, t: Tree, t': Tree, logs: Logs, op: Op, u: Bytes)
    requires w.bs > 0 && Alike(t, t', u)
    ensures ApplyLogs(w, t', logs, op) == ApplyLogs(w, t, logs, op)
  {
    hide Components, Alike, UnlinkIn, RmdirIn, CreateLogs, RemoveLogs, AccessLogs;
    var cs := Components(op.path);
    match op
    case Create(_, uuid, reason) => PlacesAlike(t, t', u, logs, cs, uuid, 0, reason, READ_RIGHT, w.user);
    case Mkdir(_, uuid, reason) => PlacesAlike(t, t', u, logs, cs, uuid, 0, reason, READ_RIGHT, w.user);
    case Unlink(_, reason) =>
      UnlinkAlike(t, t', u, cs, w.user);
      PlacesAlike(t, t', u, logs, cs, [], UnlinkIn(t, cs, w.user).0, reason, READ_RIGHT, w.user);
    case Rmdir(_, reason) =>
      RmdirAlike(t, t', u, cs, w.user);
      PlacesAlike(t, t', u, logs, cs, [], RmdirIn(t, cs, w.user).0, reason, READ_RIGHT, w.user);
    case Read(_, reason, _, _) => PlacesAlike(t, t', u, logs, cs, [], 0, reason, READ_RIGHT, w.user);
    case Write(_, reason, _, _) => PlacesAlike(t, t', u, logs, cs, [], 0, reason, WRITE_RIGHT, w.user);
    case _ =>
  }

  // ----- the same calls are legal, and load the same paths -----

  lemma FitAlike(users: map<Bytes, User>, bs: nat, t: Tree, t': Tree, u: Bytes)
    requires bs > 0 && Alike(t, t', u) && AllFit(users, bs, t)
    ensures AllFit(users, bs, t')
  {
    hide NodeSection, FileSection, Values;
    forall v | v in t'
      ensures SectionSize(users, bs, t'[v]) < SECTION_LIMIT
    {
      assert SameFace(t[v], t'[v], v == u);
    }
  }

  lemma PlaceAlike(t: Tree, t': Tree, u: Bytes, path: Bytes)
    requires Alike(t, t', u)
    ensures InDirectory(t', path) <==> InDirectory(t, path)
  {
    hide Resolve, Components, SameFace, Alike;
    ResolveAlike(t, t', u, Components(path));
    var v := Resolve(t, Init(Components(path)));
    if v.Some? {
      NodeAlike(t, t', u, v.value, READ_RIGHT, ROOT_UUID);
    }
  }

  lemma CachedAlike(w: Setting, t: Tree, t': Tree, cached: set<Bytes>, op: Op, u: Bytes)
    requires w.bs > 0 && Alike(t, t', u)
    ensures Cached(w, t', cached, op) == Cached(w, t, cached, op)
  {
    hide Resolve, Components, DirectoryPath, Key, FileAt, Alike, UnlinkIn, CString;
    ResolveAlike(t, t', u, Components(op.path));
    match op
    case Rename(_, now) => ResolveAlike(t, t', u, Components(now));
    case Unlink(path, _) =>
      UnlinkAlike(t, t', u, Components(path), w.user);
      var v := Resolve(t, Init(Components(path)));
      if v.Some? {
        NodeAlike(t, t', u, v.value, READ_RIGHT, ROOT_UUID);
      }
    case _ =>
  }

  lemma FileLegalAlike(w: Setting, node: Node, node': Node, op: Op, itself: bool)
    requires w.bs > 0 && SameFace(node, node', itself)
    ensures op.Read? ==> (CanRead(node, w.bs, op.offset, w.user, op.reason)
                          ==> CanRead(node', w.bs, op.offset, w.user, op.reason))
    ensures op.Write? ==> (CanWriteTo(node, w.users, w.bs, op.offset, op.data, w.user, op.reason)
                           ==> CanWriteTo(node', w.users, w.bs, op.offset, op.data, w.user, op.reason))
    ensures op.Truncate? ==> (CanTruncate(node, op.newSize, w.user) ==> CanTruncate(node', op.newSize, w.user))
                             && (Grows(node', op.newSize, w.user) ==> Grows(node, op.newSize, w.user))
  {
    hide Permits, WriteTo, NodeSection, FileSection, Values, Text;
    if op.Write? && itself {
      WriteAlike(node, node', w.bs, op.offset, op.data, w.user);
    }
  }

  lemma LegalAlike(w: Setting, t: Tree, t': Tree, cached: set<Bytes>, op: Op, u: Bytes)
    requires w.bs > 0 && Alike(t, t', u) && Legal(w, t, cached, op)
    requires Alike(ApplyTree(w, t, op).0, ApplyTree(w, t', op).0, u)
    ensures Legal(w, t', cached, op)
  {
    hide Resolve, Components, DirectoryPath, IsPath, FileAt, Alike, AllFit, ApplyTree, CanRead, CanWriteTo,
         CanTruncate, Grows, Text, ValidUuid, InDirectory, NotCachedBelow, RmdirIn, RenameIn, SameFace;
    var cs := Components(op.path);
    FitAlike(w.users, w.bs, ApplyTree(w, t, op).0, ApplyTree(w, t', op).0, u);
    ResolveAlike(t, t', u, cs);
    PlaceAlike(t, t', u, op.path);
    RmdirAlike(t, t', u, cs, w.user);
    if op.Create? || op.Mkdir? {
      NodeAlike(t, t', u, op.uuid, READ_RIGHT, ROOT_UUID);
    }
    if op.Rename? {
      RenameAlike(t, t', u, cs, Components(op.now));
    }
    if FileAt(t, cs).Some? {
      NodeAlike(t, t', u, FileAt(t, cs).value, READ_RIGHT, ROOT_UUID);
      FileLegalAlike(w, t[FileAt(t, cs).value], t'[FileAt(t, cs).value], op, FileAt(t, cs).value == u);
    }
  }

  // ----- two runs -----

  /** Two worlds that differ in the bytes of one node only. */
  predicate SameBut(w: World, w': World, u: Bytes) {
    w'.db == w.db && w'.files.logs == w.files.logs && Alike(w.files.tree, w'.files.tree, u)
  }

  lemma CallAlike(s: Signatures, bs: nat, w: World, w': World, cached: set<Bytes>, c: Call, u: Bytes)
    requires bs > 0 && SameBut(w, w', u) && u in w.files.tree && LegalCall(s, bs, w, cached, c)
    requires c.Access? && w.db.current.Some? ==> !May(w.files.tree[u], Reading, w.db.current.value.uuid)
    ensures Respond(s, bs, w', c).1 == Respond(s, bs, w, c).1
    ensures SameBut(Respond(s, bs, w, c).0, Respond(s, bs, w', c).0, u)
    ensures LegalCall(s, bs, w', cached, c) && Loaded(bs, w', cached, c) == Loaded(bs, w, cached, c)
  {
    hide Next, ApplyTree, ApplyLogs, May, Alike, Legal, Cached, AllFit, Drawn;
    if c.Access? && w.db.current.Some? {
      var asker, t, t' := SettingIn(w.db, bs), w.files.tree, w'.files.tree;
      LogsAlike(asker, t, t', w.files.logs, c.op, u);
      if Changes(c.op) {
        ChangeAlike(asker, t, t', c.op, u);
      } else if Accesses(c.op) {
        AccessAlike(asker, t, t', c.op, u);
      } else {
        LookAlike(asker, t, t', c.op, u);
      }
      LegalAlike(asker, t, t', cached, c.op, u);
      CachedAlike(asker, t, t', cached, c.op, u);
    } else if c.Manage? {
      FitAlike(Next(s, w.db, c.event).0.users, bs, w.files.tree, w'.files.tree, u);
    }
  }

  /**
   While nobody who may read a file asks for anything, no reply of a run depends on its bytes: had it held as many
   others, the run would be legal as well, every reply would be the same, and at the end everything but those bytes.
   */
  lemma {:induction false} StrangersLearnNothing(s: Signatures, bs: nat, w: World, w': World, cached: set<Bytes>,
                                                 cs: seq<Call>, u: Bytes)
    requires bs > 0 && Consistent(w.db) && IsTree(w.files.tree) && LegalCalls(s, bs, w, cached, cs)
    requires u in w.files.tree && u in w.files.logs && Strangers(s, w.db, cs, w.files.tree[u], Reading)
    requires SameBut(w, w', u)
    ensures LegalCalls(s, bs, w', cached, cs)
    ensures RespondAll(s, bs, w', cs).1 == RespondAll(s, bs, w, cs).1
    ensures SameBut(RespondAll(s, bs, w, cs).0, RespondAll(s, bs, w', cs).0, u)
    decreases |cs|
  {
    hide Consistent, IsTree, Respond, Loaded, LegalCall, NextDb, May, Spared, SameBut;
    if cs != [] {
      var w1, w1', cached1 := Respond(s, bs, w, cs[0]).0, Respond(s, bs, w', cs[0]).0, Loaded(bs, w, cached, cs[0]);
      CallAlike(s, bs, w, w', cached, cs[0], u);
      CallSpares(s, bs, w, cached, cs[0], u, Reading);
      SparedNode(w, w1, u, Reading);
      StillStrangers(s, w1.db, cs[1..], w.files.tree[u], w1.files.tree[u], Reading);
      StrangersLearnNothing(s, bs, w1, w1', cached1, cs[1..], u);
    }
  }
}
