/** The namespace as a value: nodes by UUID, and what each operation of `FileSystem` makes of them. */
module Trees {
  import opened ByteStrings
  import opened Errno
  import opened Options
  import opened Orders
  import opened Paths
  import opened NodeRecords
  import opened AccessRights
  import opened FlatFiles

  datatype Kind = RootKind | DirKind | FileKind

  /**
   A node without its times: a file has its bytes, and whether one of its blocks ever had a key, instead of keys and
   ciphertext.
   */
  datatype Node = Node(kind: Kind, name: Bytes, entries: map<Bytes, Bytes>, rights: map<Bytes, Rights>,
                       bytes: Bytes, keyed: bool)

  /** The nodes on disk, by UUID; the supernode is under `ROOT_UUID`. */
  type Tree = map<Bytes, Node>

  // ----- resolution -----

  /** `load_metadata`: a supernode blob is not loaded. */
  function Load(t: Tree, u: Bytes): Option<Node> {
    if u in t && t[u].kind != RootKind then Some(t[u]) else None
  }

  function Lookup(t: Tree, u: Bytes, n: Bytes): (r: Option<Bytes>)
    ensures r.Some? ==> r.value in t
  {
    if u in t && n in t[u].entries && Load(t, t[u].entries[n]).Some? then Some(t[u].entries[n]) else None
  }

  /** Folding entry lookup over the names of a path. */
  function Walk(t: Tree, u: Bytes, cs: seq<Bytes>): (r: Option<Bytes>)
    ensures r.Some? && u in t ==> r.value in t
    decreases |cs|
  {
    if cs == [] then Some(u) else
    var v := Lookup(t, u, cs[0]);
    if v.None? then None else Walk(t, v.value, cs[1..])
  }

  function Resolve(t: Tree, cs: seq<Bytes>): Option<Bytes> {
    Walk(t, ROOT_UUID, cs)
  }

  function Init(cs: seq<Bytes>): seq<Bytes> {
    if cs == [] then [] else cs[..|cs| - 1]
  }

  /** The last name; that of the root path is empty. */
  function Last(cs: seq<Bytes>): Bytes {
    if cs == [] then [] else cs[|cs| - 1]
  }

  lemma {:induction false} WalkSnoc(t: Tree, u: Bytes, cs: seq<Bytes>, n: Bytes)
    ensures Walk(t, u, cs + [n]) == if Walk(t, u, cs).None? then None else Lookup(t, Walk(t, u, cs).value, n)
    decreases |cs|
  {
    if cs == [] {
      assert (cs + [n])[1..] == [];
    } else {
      assert (cs + [n])[1..] == cs[1..] + [n];
      var v := Lookup(t, u, cs[0]);
      if v.Some? {
        WalkSnoc(t, v.value, cs[1..], n);
      }
    }
  }

  lemma ResolveSnoc(t: Tree, cs: seq<Bytes>, n: Bytes)
    ensures Resolve(t, cs + [n]) == if Resolve(t, cs).None? then None else Lookup(t, Resolve(t, cs).value, n)
  {
    WalkSnoc(t, ROOT_UUID, cs, n);
  }

  /** Resolving a path other than the root is looking up its last name in the node resolved from the rest. */
  lemma ResolveLast(t: Tree, cs: seq<Bytes>)
    requires cs != []
    ensures Resolve(t, cs)
      == if Resolve(t, Init(cs)).None? then None else Lookup(t, Resolve(t, Init(cs)).value, Last(cs))
  {
    assert Init(cs) + [Last(cs)] == cs;
    WalkSnoc(t, ROOT_UUID, Init(cs), Last(cs));
  }

  lemma {:induction false} NothingBelow(t: Tree, cs: seq<Bytes>, path: seq<Bytes>)
    requires Resolve(t, cs).None? && cs <= path
    ensures Resolve(t, path).None?
    decreases |path|
  {
    if |cs| < |path| {
      NothingBelow(t, cs, Init(path));
      ResolveLast(t, path);
    } else {
      assert cs == path;
    }
  }

  // ----- the invariant -----

  predicate Edge(t: Tree, u: Bytes, n: Bytes, v: Bytes) {
    u in t && n in t[u].entries && t[u].entries[n] == v
  }

  predicate GoodEdge(t: Tree, u: Bytes, n: Bytes, v: Bytes) {
    IsName(n) && v in t && v != ROOT_UUID && t[v].name == n && u in t && t[u].kind != FileKind
  }

  ghost predicate Reachable(t: Tree, u: Bytes) {
    exists cs :: Resolve(t, cs) == Some(u)
  }

  /**
   Every entry has a blob, whose relative path is the entry's name; no blob has two parents; file nodes have no entries;
   the blobs are exactly the nodes that some path resolves to.
   */
  ghost predicate IsTree(t: Tree) {
    && ROOT_UUID in t && t[ROOT_UUID].kind == RootKind
    && (forall u :: u in t && u != ROOT_UUID ==> t[u].kind != RootKind)
    && (forall u, n, v :: Edge(t, u, n, v) ==> GoodEdge(t, u, n, v))
    && (forall u, n, v, m, w :: Edge(t, u, n, w) && Edge(t, v, m, w) ==> u == v && n == m)
    && (forall u :: u in t ==> Reachable(t, u))
  }

  /** The edges of a tree, apart from who is reachable. */
  ghost predicate GoodEdges(t: Tree) {
    && (forall u, n, v :: Edge(t, u, n, v) ==> GoodEdge(t, u, n, v))
    && (forall u, n, v, m, w :: Edge(t, u, n, w) && Edge(t, v, m, w) ==> u == v && n == m)
  }

  lemma TreeEdges(t: Tree)
    requires IsTree(t)
    ensures GoodEdges(t)
  {
  }

  lemma LastEdge(t: Tree, cs: seq<Bytes>)
    requires IsTree(t) && cs != [] && Resolve(t, cs).Some?
    ensures Resolve(t, Init(cs)).Some? && Edge(t, Resolve(t, Init(cs)).value, Last(cs), Resolve(t, cs).value)
    ensures Resolve(t, cs).value != ROOT_UUID
  {
    ResolveLast(t, cs);
  }

  lemma RootResolves(t: Tree)
    ensures Resolve(t, []) == Some(ROOT_UUID)
  {
  }

  /** No node of a tree is an entry twice. */
  lemma OneParent(t: Tree, u: Bytes, n: Bytes, v: Bytes, m: Bytes, w: Bytes)
    requires IsTree(t) && Edge(t, u, n, w) && Edge(t, v, m, w)
    ensures u == v && n == m
  {
  }

  /** In a tree, no two paths resolve to the same node. */
  lemma {:induction false} PathsAreUnique(t: Tree, a: seq<Bytes>, b: seq<Bytes>)
    requires IsTree(t) && Resolve(t, a).Some? && Resolve(t, a) == Resolve(t, b)
    ensures a == b
  {
    RootResolves(t);
    hide IsTree, Resolve, Edge;
    if a == [] || b == [] {
      if a != [] {
        LastEdge(t, a);
      }
      if b != [] {
        LastEdge(t, b);
      }
    } else {
      LastEdge(t, a);
      LastEdge(t, b);
      OneParent(t, Resolve(t, Init(a)).value, Last(a), Resolve(t, Init(b)).value, Last(b), Resolve(t, a).value);
      PathsAreUnique(t, Init(a), Init(b));
      assert a == Init(a) + [Last(a)] && b == Init(b) + [Last(b)];
    }
  }

  /** In a tree, an entry is a lookup that succeeds. */
  lemma EntryLooksUp(t: Tree, u: Bytes, n: Bytes)
    requires IsTree(t) && u in t
    ensures Lookup(t, u, n) == if n in t[u].entries then Some(t[u].entries[n]) else None
  {
    if n in t[u].entries {
      assert Edge(t, u, n, t[u].entries[n]);
    }
  }

  /** An entry of a tree names a node with a blob of its own, and no other entry names it. */
  lemma EntryFacts(t: Tree, u: Bytes, n: Bytes, v: Bytes, m: Bytes)
    requires IsTree(t) && u in t && n in t[u].entries && v in t && m in t[v].entries
    ensures GoodEdge(t, u, n, t[u].entries[n]) && GoodEdge(t, v, m, t[v].entries[m])
    ensures t[u].entries[n] == t[v].entries[m] <==> u == v && n == m
    ensures t[t[u].entries[n]].kind != RootKind
  {
    assert Edge(t, u, n, t[u].entries[n]) && Edge(t, v, m, t[v].entries[m]);
  }

  /** No node of a tree is its own entry. */
  lemma NoLoop(t: Tree, u: Bytes, a: Bytes)
    requires IsTree(t) && u in t && a in t[u].entries
    ensures t[u].entries[a] != u
  {
    assert Reachable(t, u);
    var path :| Resolve(t, path) == Some(u);
    ResolveSnoc(t, path, a);
    EntryLooksUp(t, u, a);
    if t[u].entries[a] == u {
      PathsAreUnique(t, path, path + [a]);
    }
  }

  lemma FilesAreLeaves(t: Tree, w: Bytes)
    requires IsTree(t) && w in t && t[w].kind == FileKind
    ensures t[w].entries == map[]
  {
    if t[w].entries != map[] {
      var n :| n in t[w].entries;
      assert Edge(t, w, n, t[w].entries[n]);
    }
  }

  // ----- the operations -----

  /** `has_user_rights`: everyone may read the supernode. */
  predicate Permits(supernode: bool, rights: map<Bytes, Rights>, min: Rights, user: Bytes) {
    if user == ROOT_UUID then true
    else if supernode then HasRights(min, READ_RIGHT)
    else HasUserRights(rights, min, user)
  }

  predicate Allows(node: Node, min: Rights, user: Bytes) {
    Permits(node.kind == RootKind, node.rights, min, user)
  }

  /** `e_write_meta_to_disk`: a file node does not store entries. */
  function Save(t: Tree, u: Bytes, node: Node): Tree {
    t[u := if node.kind == FileKind then node.(entries := map[]) else node]
  }

  function NewNode(kind: Kind, name: Bytes, user: Bytes): Node {
    Node(kind, name, map[], map[CString(user) := OWNER_RIGHT], [], false)
  }

  /** `create_file` and `create_directory`, the new node under `uuid`. */
  function CreateIn(t: Tree, cs: seq<Bytes>, kind: Kind, uuid: Bytes, user: Bytes): (int, Tree) {
    if Resolve(t, cs).Some? then (-EEXIST, t) else
    match Resolve(t, Init(cs))
    case None => (-ENOENT, t)
    case Some(u) =>
      if u !in t then (-ENOENT, t) else
      var parent := t[u].(entries := Insert(t[u].entries, Last(cs), uuid));
      (0, Save(Save(t, u, parent), uuid, NewNode(kind, Last(cs), user)))
  }

  /** What `unlink` and `rm_directory` do: `child`, the entry `name` of `u`, goes. */
  function Remove(t: Tree, u: Bytes, name: Bytes, child: Bytes): Tree
    requires u in t
  {
    Save(t, u, t[u].(entries := t[u].entries - {name})) - {child}
  }

  function UnlinkIn(t: Tree, cs: seq<Bytes>, user: Bytes): (int, Tree) {
    match Resolve(t, Init(cs))
    case None => (-ENOENT, t)
    case Some(u) =>
      if u !in t || Last(cs) !in t[u].entries then (-ENOENT, t) else
      var child := t[u].entries[Last(cs)];
      if Load(t, child).None? || t[child].kind != FileKind then (-ENOENT, t)
      else if !Allows(t[child], OWNER_RIGHT, user) then (-EACCES, t)
      else (0, Remove(t, u, t[child].name, child))
  }

  function RmdirIn(t: Tree, cs: seq<Bytes>, user: Bytes): (int, Tree) {
    match Resolve(t, Init(cs))
    case None => (-ENOENT, t)
    case Some(u) =>
      if u !in t || Last(cs) !in t[u].entries then (-ENOENT, t) else
      var child := t[u].entries[Last(cs)];
      if Load(t, child).None? || t[child].kind != DirKind then (-ENOENT, t)
      else if !Allows(t[child], OWNER_RIGHT, user) then (-EACCES, t)
      else if t[child].entries != map[] then (-ENOTEMPTY, t)
      else (0, Remove(t, u, Last(cs), child))
  }

  /** One entry of the parent and the relative path of the child change, whatever lies below. */
  function RenameIn(t: Tree, old_: seq<Bytes>, new_: seq<Bytes>): (int, Tree) {
    if Init(old_) != Init(new_) then (-EPROTO, t) else
    match Resolve(t, Init(old_))
    case None => (-ENOENT, t)
    case Some(u) =>
      if Resolve(t, new_).Some? then (-EEXIST, t)
      else if u !in t || Last(old_) !in t[u].entries then (-ENOENT, t) else
      var child := t[u].entries[Last(old_)];
      if Load(t, child).None? then (-ENOENT, t) else
      var entries := Insert(t[u].entries - {Last(old_)}, Last(new_), child);
      (0, Save(Save(t, u, t[u].(entries := entries)), child, t[child].(name := Last(new_))))
  }

  /** `edit_user_entitlement` for a user that is known or not; the supernode has no entitlements. */
  function EditIn(t: Tree, cs: seq<Bytes>, rights: Rights, target: Bytes, known: bool, user: Bytes): (int, Tree) {
    match Resolve(t, cs)
    case None => (-ENOENT, t)
    case Some(u) =>
      if u !in t || !known then (-ENOENT, t)
      else if !Allows(t[u], OWNER_RIGHT, user) then (-EACCES, t)
      else if t[u].kind == RootKind then (-EPROTO, t)
      else (0, Save(t, u, t[u].(rights := t[u].rights[CString(target) := rights])))
  }

  /** The file node that a path leads to: a `dynamic_cast` to `Filenode` gives null for other nodes. */
  function FileAt(t: Tree, cs: seq<Bytes>): (u: Option<Bytes>)
    ensures u.Some? ==> u.value in t && t[u.value].kind == FileKind && Resolve(t, cs) == u
  {
    match Resolve(t, cs)
    case None => None
    case Some(u) => if u in t && t[u].kind == FileKind then Some(u) else None
  }

  /** What a write makes of a file node. */
  function WriteTo(node: Node, bs: nat, offset: nat, data: Bytes, user: Bytes): (int, Node)
    requires bs > 0
  {
    if !Allows(node, WRITE_RIGHT, user) then (-EACCES, node) else
    var (code, bytes) := WriteFlat(bs, node.bytes, offset, data);
    (code, node.(bytes := bytes, keyed := node.keyed || bytes != []))
  }

  function WriteIn(t: Tree, bs: nat, cs: seq<Bytes>, offset: nat, data: Bytes, user: Bytes): (int, Tree)
    requires bs > 0
  {
    match FileAt(t, cs)
    case None => (-ENOENT, t)
    case Some(u) => (WriteTo(t[u], bs, offset, data, user).0, t[u := WriteTo(t[u], bs, offset, data, user).1])
  }

  function ReadOf(node: Node, bs: nat, offset: nat, length: nat, user: Bytes): (int, Bytes)
    requires bs > 0
  {
    if !Allows(node, READ_RIGHT, user) then (-EACCES, []) else ReadFlat(bs, node.bytes, offset, length)
  }

  function ReadIn(t: Tree, bs: nat, cs: seq<Bytes>, offset: nat, length: nat, user: Bytes): (int, Bytes)
    requires bs > 0
  {
    match FileAt(t, cs)
    case None => (-ENOENT, [])
    case Some(u) => ReadOf(t[u], bs, offset, length, user)
  }

  /** A truncation to a size that is not larger: only to 0, and then the key of the first block stays. */
  function TruncateTo(node: Node, newSize: nat, user: Bytes): (int, Node) {
    if !Allows(node, WRITE_RIGHT, user) then (-EACCES, node)
    else if newSize > 0 then (-EPROTO, node)
    else (0, node.(bytes := []))
  }

  function TruncateIn(t: Tree, cs: seq<Bytes>, newSize: nat, user: Bytes): (int, Tree) {
    match FileAt(t, cs)
    case None => (-ENOENT, t)
    case Some(u) => (TruncateTo(t[u], newSize, user).0, t[u := TruncateTo(t[u], newSize, user).1])
  }

  function SizeIn(t: Tree, cs: seq<Bytes>): int {
    if FileAt(t, cs).None? then -ENOENT else |t[FileAt(t, cs).value].bytes|
  }

  /** Who sees a node in a listing. */
  predicate Sees(node: Node, user: Bytes) {
    Allows(node, OWNER_RIGHT, user) || Allows(node, READ_RIGHT, user) || Allows(node, WRITE_RIGHT, user)
  }

  function Visible(t: Tree, entries: map<Bytes, Bytes>, ks: seq<Bytes>, user: Bytes): seq<Bytes>
    requires forall k :: k in ks ==> k in entries && entries[k] in t
  {
    if ks == [] then [] else
    var init, last := Visible(t, entries, ks[..|ks| - 1], user), ks[|ks| - 1];
    if Sees(t[entries[last]], user) then init + [t[entries[last]].name] else init
  }

  // ----- audit logs -----

  /** The reasons of the audited actions on each node, in order. */
  type Logs = map<Bytes, seq<Bytes>>

  function Noted(logs: Logs, u: Bytes, reason: Bytes): Logs {
    logs[u := (if u in logs then logs[u] else []) + [reason]]
  }

  /** A creation is noted on the parent and on the new node. */
  function CreateLogs(t: Tree, logs: Logs, cs: seq<Bytes>, uuid: Bytes, reason: Bytes): Logs {
    if Resolve(t, cs).Some? || Resolve(t, Init(cs)).None? then logs
    else Noted(Noted(logs, Resolve(t, Init(cs)).value, reason), uuid, reason)
  }

  /** A removal that succeeds is noted on the parent, and the log of the removed node goes with it. */
  function RemoveLogs(t: Tree, logs: Logs, cs: seq<Bytes>, code: int, reason: Bytes): Logs {
    if code != 0 || Resolve(t, cs).None? || Resolve(t, Init(cs)).None? then logs
    else Noted(logs - {Resolve(t, cs).value}, Resolve(t, Init(cs)).value, reason)
  }

  /** Access to a file is noted on it, whatever becomes of it, if the user has the right. */
  function AccessLog(node: Node, log: seq<Bytes>, min: Rights, user: Bytes, reason: Bytes): seq<Bytes> {
    if Allows(node, min, user) then log + [reason] else log
  }

  function AccessLogs(t: Tree, logs: Logs, cs: seq<Bytes>, min: Rights, user: Bytes, reason: Bytes): Logs {
    var u := FileAt(t, cs);
    if u.Some? && u.value in logs
    then logs[u.value := AccessLog(t[u.value], logs[u.value], min, user, reason)]
    else logs
  }
}
