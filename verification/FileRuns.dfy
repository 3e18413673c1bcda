/** Whole runs of file operations on one file against one flat byte sequence and one list of audited reasons. */
module FileRuns {
  import opened ByteStrings
  import opened Errno
  import opened Codec
  import opened SealedMetadata
  import opened Blocks
  import opened NodeRecords
  import opened AccessRights
  import opened NodeRoundTrip
  import opened Nodes
  import opened FlatFiles
  import opened FileStates
  import opened FileStores

  datatype Op =
    | Write(reason: Bytes, offset: nat, data: Bytes)
    | Read(reason: Bytes, offset: nat, length: nat)
    | Empty
    | Reopen

  /** The returned code, and the bytes stored in the caller's buffer. */
  datatype Reply = Reply(code: int, data: Bytes)

  /** What the current user may do with the file. */
  datatype May = May(read: bool, write: bool)

  /** The simple thing: bytes, whether a block ever had a key, and the reasons of the audited actions. */
  datatype FlatFile = FlatFile(bytes: Bytes, keyed: bool, log: seq<Bytes>)

  function Apply(bs: nat, may: May, s: FlatFile, op: Op): (FlatFile, Reply)
    requires bs > 0
  {
    match op
    case Write(reason, offset, data) =>
      if !may.write then (s, Reply(-EACCES, [])) else
      var (code, bytes) := WriteFlat(bs, s.bytes, offset, data);
      (FlatFile(bytes, s.keyed || bytes != [], s.log + [reason]), Reply(code, []))
    case Read(reason, offset, length) =>
      if !may.read then (s, Reply(-EACCES, [])) else
      var (code, bytes) := ReadFlat(bs, s.bytes, offset, length);
      (s.(log := s.log + [reason]), Reply(code, bytes))
    case Empty =>
      if !may.write then (s, Reply(-EACCES, [])) else (s.(bytes := []), Reply(0, []))
    case Reopen => (s, Reply(0, []))
  }

  /** What the operations need of their callers; `section` is the size of the node part of the metadata. */
  predicate Legal(bs: nat, section: nat, may: May, s: FlatFile, op: Op)
    requires bs > 0
  {
    match op
    case Write(reason, offset, data) =>
      may.write ==>
        var after := WriteFlat(bs, s.bytes, offset, data).1;
        && |Text(reason)| < SECTION_LIMIT && offset + |data| < INT_LIMIT && WritableAt(bs, |s.bytes|, offset, |data|)
        && FileSection(section, bs, |after|, s.keyed || after != []) < SECTION_LIMIT
    case Read(reason, offset, length) =>
      may.read ==> |Text(reason)| < SECTION_LIMIT && ReadableAt(bs, |s.bytes|, offset)
    case Empty => may.write ==> s.keyed
    case Reopen => true
  }

  predicate LegalRun(bs: nat, section: nat, may: May, s: FlatFile, ops: seq<Op>)
    requires bs > 0
    decreases |ops|
  {
    ops == [] || (Legal(bs, section, may, s, ops[0])
                  && LegalRun(bs, section, may, Apply(bs, may, s, ops[0]).0, ops[1..]))
  }

  function RunFlat(bs: nat, may: May, s: FlatFile, ops: seq<Op>): (FlatFile, seq<Reply>)
    requires bs > 0
    decreases |ops|
  {
    if ops == [] then (s, []) else
    var (s1, reply) := Apply(bs, may, s, ops[0]);
    var (s2, replies) := RunFlat(bs, may, s1, ops[1..]);
    (s2, [reply] + replies)
  }

  ghost predicate Simulates(store: FileStore, node: Node, section: nat, may: May, s: FlatFile)
    reads store, store.disk, store.rootKey, store.auditRootKey
    reads node, node.keys, node.content, node.meta, node.meta.rootKey, node.meta.ctx
  {
    && store.Serves(node, s.bytes, s.log) && (s.keyed <==> node.keys.entries != map[])
    && section == |NodeSection(node.Data())|
    && may == May(store.Allowed(node, READ_RIGHT), store.Allowed(node, WRITE_RIGHT))
  }

  lemma BufferHolds(prior: Bytes, data: Bytes)
    requires |data| <= |prior|
    ensures Overlay(prior, 0, data)[..|data|] == data
  {
  }

  method DoWrite(store: FileStore, node: Node, op: Op, ghost section: nat, ghost may: May, ghost s: FlatFile)
      returns (reply: Reply)
    requires store.blockSize > 0 && Simulates(store, node, section, may, s)
    requires Legal(store.blockSize, section, may, s, op) && op.Write?
    modifies store.disk, store.rootKey, store.auditRootKey, node`mtime, node.content, node.keys, node.meta.ctx
    ensures var (s', reply') := Apply(store.blockSize, may, s, op);
      Simulates(store, node, section, may, s') && reply == reply'
    ensures OnlyNode(old(store.disk.files), store.disk.files, node.uuid)
    ensures KeysKept(old(store.rootKey.state), store.rootKey.state)
  {
    hide FileStore.Serves, WriteFlat, Text, HasUserRights;
    store.Keyed(node, s.bytes, s.log);
    var r := store.WriteFile(node, op.reason, op.offset, op.data, s.bytes, s.log);
    reply := Reply(r, []);
  }

  method DoRead(store: FileStore, node: Node, op: Op, ghost section: nat, ghost may: May, ghost s: FlatFile)
      returns (reply: Reply)
    requires store.blockSize > 0 && Simulates(store, node, section, may, s)
    requires Legal(store.blockSize, section, may, s, op) && op.Read?
    modifies store.disk, store.rootKey, store.auditRootKey
    modifies node`atime, node.content`plain, node.content`cipher, node.meta.ctx
    ensures var (s', reply') := Apply(store.blockSize, may, s, op);
      Simulates(store, node, section, may, s') && reply == reply'
    ensures OnlyNode(old(store.disk.files), store.disk.files, node.uuid)
    ensures KeysKept(old(store.rootKey.state), store.rootKey.state)
  {
    hide FileStore.Serves, Text, HasUserRights, BlockStart, ReadableAt;
    var buffer := new Byte[op.length];
    ghost var prior := buffer[..];
    var r := store.ReadFile(node, op.reason, op.offset, op.length, buffer, s.bytes, s.log);
    ghost var data := ReadFlat(store.blockSize, s.bytes, op.offset, op.length).1;
    BufferHolds(prior, data);
    reply := Reply(r, if r < 0 then [] else buffer[..r]);
  }

  method DoEmpty(store: FileStore, node: Node, ghost section: nat, ghost may: May, ghost s: FlatFile)
      returns (reply: Reply)
    requires store.blockSize > 0 && Simulates(store, node, section, may, s) && (may.write ==> s.keyed)
    modifies store.disk, store.rootKey, node`mtime, node`ctime, node.content, node.keys, node.meta.ctx
    ensures var (s', reply') := Apply(store.blockSize, may, s, Empty);
      Simulates(store, node, section, may, s') && reply == reply'
    ensures OnlyNode(old(store.disk.files), store.disk.files, node.uuid)
    ensures KeysKept(old(store.rootKey.state), store.rootKey.state)
  {
    hide FileStore.Serves, HasUserRights;
    var r := store.TruncateFile(node, 0, s.bytes, s.log);
    assert r == 0 ==> 0 in node.keys.entries;
    reply := Reply(r, []);
  }

  method Reload(store: FileStore, node: Node, ghost section: nat, ghost may: May, ghost s: FlatFile)
      returns (reloaded: Node)
    requires store.blockSize > 0 && Simulates(store, node, section, may, s)
    modifies store.rootKey
    ensures fresh(reloaded) && fresh(reloaded.keys) && fresh(reloaded.content)
    ensures fresh(reloaded.meta) && fresh(reloaded.meta.ctx)
    ensures Simulates(store, reloaded, section, may, s) && reloaded.uuid == node.uuid
    ensures KeysKept(old(store.rootKey.state), store.rootKey.state)
  {
    hide FileStore.Serves, HasUserRights;
    reloaded := store.Reopen(node, s.bytes, s.log);
  }

  /** One operation on the file. */
  method Step(store: FileStore, node: Node, op: Op, ghost section: nat, ghost may: May, ghost s: FlatFile)
      returns (reply: Reply, next: Node)
    requires store.blockSize > 0 && Simulates(store, node, section, may, s)
    requires Legal(store.blockSize, section, may, s, op)
    modifies store.disk, store.rootKey, store.auditRootKey, node, node.content, node.keys, node.meta.ctx
    ensures next == node
            || (fresh(next) && fresh(next.keys) && fresh(next.content) && fresh(next.meta) && fresh(next.meta.ctx))
    ensures var (s', reply') := Apply(store.blockSize, may, s, op);
      Simulates(store, next, section, may, s') && reply == reply'
    ensures OnlyNode(old(store.disk.files), store.disk.files, old(node.uuid)) && next.uuid == old(node.uuid)
    ensures KeysKept(old(store.rootKey.state), store.rootKey.state)
  {
    hide Simulates;
    next := node;
    match op
    case Write(_, _, _) => reply := DoWrite(store, node, op, section, may, s);
    case Read(_, _, _) => reply := DoRead(store, node, op, section, may, s);
    case Empty => reply := DoEmpty(store, node, section, may, s);
    case Reopen =>
      next := Reload(store, node, section, may, s);
      reply := Reply(0, []);
  }

  /**
   Any run of writes, reads, truncations to 0 and reopenings gives the replies that the flat file gives, ends where the
   flat file ends, and touches no file of another node.
   */
  method Run(store: FileStore, node: Node, ops: seq<Op>, ghost section: nat, ghost may: May, ghost s: FlatFile)
      returns (replies: seq<Reply>, last: Node)
    requires store.blockSize > 0 && Simulates(store, node, section, may, s)
    requires LegalRun(store.blockSize, section, may, s, ops)
    modifies store.disk, store.rootKey, store.auditRootKey, node, node.content, node.keys, node.meta.ctx
    ensures var (s', replies') := RunFlat(store.blockSize, may, s, ops);
      Simulates(store, last, section, may, s') && replies == replies'
    ensures OnlyNode(old(store.disk.files), store.disk.files, old(node.uuid)) && last.uuid == old(node.uuid)
    ensures KeysKept(old(store.rootKey.state), store.rootKey.state)
    decreases |ops|
  {
    hide Simulates, Apply, Legal;
    if ops == [] {
      return [], node;
    }
    ghost var (s1, reply1) := Apply(store.blockSize, may, s, ops[0]);
    var reply, next := Step(store, node, ops[0], section, may, s);
    var rest;
    rest, last := Run(store, next, ops[1..], section, may, s1);
    replies := [reply] + rest;
  }

  /** The life of a file from its creation: its creator may do everything. */
  method CreateAndRun(store: FileStore, path: Bytes, uuid: Bytes, reason: Bytes, ops: seq<Op>)
      returns (replies: seq<Reply>, last: Node)
    requires store.Valid() && UuidText(CString(store.currentUser.uuid))
    requires |path| < PATH_LIMIT && |Text(reason)| < SECTION_LIMIT
    requires |uuid| == UUID_SIZE && forall dir :: (dir, uuid) !in store.disk.files
    requires LegalRun(store.blockSize, |path| + OWNED_SECTION, May(true, true), FlatFile([], false, [reason]), ops)
    modifies store.disk, store.rootKey, store.auditRootKey
    ensures var (s, replies') := RunFlat(store.blockSize, May(true, true), FlatFile([], false, [reason]), ops);
      Simulates(store, last, |path| + OWNED_SECTION, May(true, true), s) && replies == replies'
  {
    hide FileStore.Serves, HasUserRights, LegalRun, RunFlat, CString, UuidText;
    var node := store.CreateFile(path, uuid, reason);
    replies, last := Run(store, node, ops, |path| + OWNED_SECTION, May(true, true), FlatFile([], false, [reason]));
  }
}
