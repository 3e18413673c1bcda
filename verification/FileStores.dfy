/** The file operations of `FileSystem`: blocks, keys and metadata on disk against one flat byte sequence per file. */
module FileStores {
  import opened ByteStrings
  import opened Errno
  import opened Crypto
  import opened Codec
  import opened SealedMetadata
  import opened Blocks
  import opened SealedFiles
  import opened NodeRecords
  import opened AccessRights
  import opened NodeRoundTrip
  import opened FilenodeContents
  import opened Nodes
  import opened Disks
  import opened MetadataFiles
  import opened FlatFiles
  import opened FileParts
  import opened AuditLogs
  import opened FileStates
  import opened Audits

  /** `ocall_get_current_time`: any time. */
  method CurrentTime() returns (t: nat)
    ensures t < SIZE_T_LIMIT
  {
    t :| 0 <= t < SIZE_T_LIMIT;
  }

  predicate KeysKept(root: GcmState, root': GcmState) {
    root' == root.(mac := root'.mac)
  }

  class FileStore {
    const suite: CipherSuite
    const rootKey: GcmContext
    const auditRootKey: GcmContext
    const blockSize: nat
    const disk: Disk
    var currentUser: User

    constructor (suite: CipherSuite, rootKey: GcmContext, auditRootKey: GcmContext, blockSize: nat, disk: Disk,
                 currentUser: User)
      requires rootKey != auditRootKey && rootKey.state.Valid() && auditRootKey.state.Valid() && blockSize > 0
      ensures Valid() && this.suite == suite && this.rootKey == rootKey && this.auditRootKey == auditRootKey
      ensures this.blockSize == blockSize && this.disk == disk && this.currentUser == currentUser
    {
      this.suite, this.rootKey, this.auditRootKey, this.blockSize := suite, rootKey, auditRootKey, blockSize;
      this.disk, this.currentUser := disk, currentUser;
    }

    ghost predicate Valid()
      reads rootKey, auditRootKey
    {
      rootKey != auditRootKey && rootKey.state.Valid() && auditRootKey.state.Valid() && blockSize > 0
    }

    /** A file node of this filesystem. */
    ghost predicate Mine(node: Node)
      reads node, node.keys, node.content, node.meta, node.meta.rootKey, node.meta.ctx
    {
      && node.Valid() && node.cls == FilenodeClass && node.meta.ctx != auditRootKey
      && node.meta.suite == suite && node.meta.rootKey == rootKey && node.content.blockSize == blockSize
    }

    /** `node`, with nothing loaded, and the disk stand for the file `f`. */
    ghost predicate Represents(node: Node, f: Bytes)
      reads disk, rootKey, node, node.keys, node.content, node.meta, node.meta.rootKey, node.meta.ctx
    {
      && Mine(node) && node.content.plain == map[] && node.content.cipher == map[]
      && Stands(suite, rootKey.state, blockSize, disk.files, node.Data(), f)
    }

    predicate Allowed(node: Node, min: Rights)
      reads this, node
    {
      HasUserRights(node.entitlements, min, currentUser.uuid)
    }

    method LoadFileBlocks(uuid: Bytes, start: nat, end: nat) returns (r: int, buffer: Bytes)
      requires blockSize > 0 && start <= end + 1
      ensures var file := FileOf(disk.files, ContentDir, uuid);
        if |file| < BlockStart(blockSize, start) then r == -EPROTO
        else r == |buffer|
             && buffer == BytesFrom(file, BlockStart(blockSize, end + 1 - start), BlockStart(blockSize, start))
    {
      var fileSize := disk.FileSize(ContentDir, uuid);
      var offset, length := BlockStart(blockSize, start), BlockStart(blockSize, end + 1 - start);
      hide BlockStart;
      if offset > fileSize {
        return -EPROTO, [];
      }
      if offset + length > fileSize {
        length := fileSize - offset;
      }
      if length == 0 {
        return 0, [];
      }
      r, buffer := disk.Load(ContentDir, uuid, offset, length);
      if r < 0 {
        r := -EPROTO;
      }
    }

    /** The content file of `uuid` is the ciphertext of `f` under the keys of `content`, and nothing is loaded. */
    ghost predicate ContentOf(content: FilenodeContent, uuid: Bytes, f: Bytes)
      reads disk, content, content.keys
    {
      && content.Valid() && content.suite == suite && content.blockSize == blockSize
      && content.plain == map[] && content.cipher == map[]
      && HasKeys(content.keys.entries, blockSize, 0, f)
      && FileOf(disk.files, ContentDir, uuid) == SealFlat(suite, content.keys.entries, blockSize, 0, f)
    }

    /** Loads the block range of a byte range; fails when it starts past the end of the file. */
    method LoadContent(content: FilenodeContent, uuid: Bytes, offset: nat, length: nat, ghost f: Bytes) returns (r: int)
      requires ContentOf(content, uuid, f)
      modifies content`plain, content`cipher
      ensures content.Valid()
      ensures var range := BlockRequired(blockSize, offset, length);
        && range.start <= range.end + 1
        && if |f| < BlockStart(blockSize, range.start)
           then r == -1 && content.Snap() == old(content.Snap())
           else r == 0 && PartLoaded(suite, blockSize, range.start, LoadedPart(blockSize, f, range), content.Snap())
    {
      var range := BlockRequired(blockSize, offset, length);
      RangeIsForward(blockSize, offset, length);
      PartOfCipher(suite, blockSize, f, range, content.Snap());
      PartLoads(suite, blockSize, f, range, content.Snap());
      hide HasKeys, Loadable, LoadedFrom, PartLoaded, LoadedPart, BlockStart, SealFlat, BytesFrom, BlockRequired;
      var size, buffer := LoadFileBlocks(uuid, range.start, range.end);
      if size < 0 {
        return -1;
      }
      var read := content.ELoad(offset, length, buffer);
      r := 0;
    }

    /** Draws a new IV and dumps the node into a buffer of exactly its size. */
    method DumpNode(node: Node) returns (blob: Bytes, ghost ctx: GcmState)
      requires node.Valid() && node.meta.rootKey == rootKey && node.meta.suite == suite
      requires WellFormed(node.cls, node.Data())
      modifies rootKey, node.meta.ctx
      ensures node.Valid() && ctx.Valid() && rootKey.state == old(rootKey.state).(mac := rootKey.state.mac)
      ensures blob == SealNode(suite, old(rootKey.state), ctx, node.cls, node.Data())
    {
      hide SealNode, Preamble, Sensitive, WellFormed;
      node.meta.UpdateCryptoCtx();
      ctx := node.meta.ctx.state;
      blob := node.EDumpExact();
    }

    /**
     `e_write_meta_to_disk`: the blob overwrites the start of the metadata file, which is not truncated unless asked;
     the file then loads as the node, under the root key with any tag in it.
     */
    method WriteMeta(node: Node, trunc: bool) returns (r: int)
      requires node.Valid() && node.meta.rootKey == rootKey && node.meta.suite == suite
      requires WellFormed(node.cls, node.Data())
      modifies disk, rootKey, node.meta.ctx
      ensures r >= 0 && node.Valid() && rootKey.state == old(rootKey.state).(mac := rootKey.state.mac)
      ensures disk.files == old(disk.files)[(MetaDir, node.uuid) := FileOf(disk.files, MetaDir, node.uuid)]
      ensures LoadsAs(suite, rootKey.state, node.cls, FileOf(disk.files, MetaDir, node.uuid), node.Data())
    {
      hide Overlay, SealNode, WellFormed, LoadsAs;
      ghost var root, older := rootKey.state, FileOf(disk.files, MetaDir, node.uuid);
      var blob, ctx := DumpNode(node);
      PrefixOfOverlay(older, blob);
      if trunc {
        r := disk.DumpTrunc(MetaDir, node.uuid, blob);
      } else {
        r := disk.DumpWithOffset(MetaDir, node.uuid, 0, blob);
      }
      SealedLoadsAs(suite, root, rootKey.state, ctx, node.cls, node.Data(), FileOf(disk.files, MetaDir, node.uuid));
    }

    /** `e_append_audit_to_disk`: the audit file grows by one record. */
    method AppendAudit(uuid: Bytes, reason: Bytes) returns (r: int, ghost e: AuditEntry)
      requires auditRootKey.state.Valid() && |Text(reason)| < SECTION_LIMIT
      modifies disk, auditRootKey
      ensures r >= 0 && auditRootKey.state == old(auditRootKey.state).(mac := auditRootKey.state.mac)
      ensures auditRootKey.state.Valid()
      ensures e.reason == reason && ValidEntry(suite, e)
      ensures disk.files == old(disk.files)[(AuditDir, uuid) :=
                FileOf(old(disk.files), AuditDir, uuid) + AuditRecord(suite, old(auditRootKey.state), e)]
    {
      var audit := new NodeAudit(reason, suite, auditRootKey);
      var record;
      record, e := audit.EDump();
      OverlayAtEnd(FileOf(disk.files, AuditDir, uuid), record);
      var size := disk.FileSize(AuditDir, uuid);
      r := disk.DumpWithOffset(AuditDir, uuid, size, record);
    }

    /** One turn of the loop of `read_file`: loads a block range, copies from it and drops it. */
    method ReadStep(content: FilenodeContent, uuid: Bytes, offset: nat, length: nat, buffer: array<Byte>, at: nat,
                    ghost f: Bytes)
        returns (step: int)
      requires ContentOf(content, uuid, f) && at + length <= buffer.Length
      requires ReadableAt(blockSize, |f|, offset)
      modifies content`plain, content`cipher, buffer
      ensures ContentOf(content, uuid, f)
      ensures if |f| < BlockStart(blockSize, offset / blockSize)
        then step == -1 && buffer[..] == old(buffer[..])
        else step == |BytesFrom(f, length, offset)|
             && buffer[..] == Overlay(old(buffer[..]), at, BytesFrom(f, length, offset))
    {
      PartAnswers(blockSize, f, offset, length);
      ghost var range := BlockRequired(blockSize, offset, length);
      ghost var w := LoadedPart(blockSize, f, range);
      var loaded := LoadContent(content, uuid, offset, length, f);
      if loaded < 0 {
        return -1;
      }
      OffsetInPart(blockSize, f, offset, length, content.plain);
      hide LoadedPart, BytesFrom, Overlay, BlockStart, SealFlat, HasKeys, Window;
      step := content.Read(offset, length, buffer, at, range.start, w);
      content.FreeLoaded();
    }

    /**
     The loop of `read_file`, one block size at a time: it gives what one read of the whole range would, and only a
     first block past the end of the file makes it fail.
     */
    method ReadBlocks(content: FilenodeContent, uuid: Bytes, offset: nat, length: nat, buffer: array<Byte>,
                      ghost f: Bytes)
        returns (loaded: int)
      requires blockSize > 0 && ContentOf(content, uuid, f) && length <= buffer.Length
      requires ReadableAt(blockSize, |f|, offset)
      modifies content`plain, content`cipher, buffer
      ensures ContentOf(content, uuid, f)
      ensures if length > 0 && |f| < BlockStart(blockSize, offset / blockSize)
        then loaded == -1 && buffer[..] == old(buffer[..])
        else loaded == |BytesFrom(f, length, offset)|
             && buffer[..] == Overlay(old(buffer[..]), 0, BytesFrom(f, length, offset))
    {
      hide Overlay, BytesFrom, BlockStart, ContentOf;
      ghost var before := buffer[..];
      var done: nat, more := 0, true;
      OverlayNothing(before, 0);
      NoBytes(f, offset);
      while done < length && more
        invariant done <= length && (done > 0 ==> offset + done <= |f|)
        invariant ContentOf(content, uuid, f)
        invariant buffer[..] == Overlay(before, 0, BytesFrom(f, done, offset))
        invariant !more ==> BytesFrom(f, done, offset) == BytesFrom(f, length, offset)
        invariant done > 0 || !more ==> BlockStart(blockSize, offset / blockSize) <= |f|
        decreases more, length - done
      {
        var toLoad := if done + blockSize > length then length - done else blockSize;
        ReadTurn(f, offset, length, done, toLoad);
        OverlayAppend(before, 0, BytesFrom(f, done, offset), BytesFrom(f, toLoad, offset + done));
        BlockBefore(blockSize, offset, done);
        var step := ReadStep(content, uuid, offset + done, toLoad, buffer, done, f);
        if step < 0 {
          return -1;
        }
        done := done + step;
        more := step >= blockSize;
      }
      loaded := done;
    }

    /** The middle of `write_file`: loads the touched blocks and splices `data` into them. */
    method LoadAndWrite(content: FilenodeContent, uuid: Bytes, offset: nat, data: Bytes, ghost f: Bytes)
        returns (r: int)
      requires blockSize > 0 && ContentOf(content, uuid, f) && content.size == |f|
      modifies content, content.keys
      ensures content.Valid()
      ensures if Accepts(blockSize, |f|, offset)
        then r == |data| && AfterLoadAndWrite(suite, blockSize, f, offset, data, old(content.Snap()), content.Snap())
        else r == (if |f| < BlockStart(blockSize, offset / blockSize) then -EPROTO else -1)
             && content.Snap() == old(content.Snap())
    {
      hide PartLoaded, LoadedPart, BlockStart, Splice, BlockRequired, Written, Job.Finished, HasKeys, SealFlat;
      ghost var s := content.Snap();
      ghost var range := BlockRequired(blockSize, offset, |data|);
      RangeParts(blockSize, offset, |data|, |f|);
      var loaded := LoadContent(content, uuid, offset, |data|, f);
      if loaded < 0 {
        return -EPROTO;
      }
      ghost var s1 := content.Snap();
      ghost var boundary := data == [] && offset > 0 && offset % blockSize == 0;
      if boundary {
        EmptyPart(suite, blockSize, f, offset, s1);
        BoundaryAccepted(blockSize, |f|, offset);
      } else {
        BeforeWrite(suite, blockSize, f, offset, |data|, s1);
      }
      r := content.Write(offset, data, range.start, LoadedPart(blockSize, f, range));
      if boundary {
        EmptyRangeKept(suite, blockSize, offset, s1, content.Snap());
      } else if data == [] && offset == 0 {
        NothingWritten(suite, blockSize, f, s, s1);
      } else if r >= 0 {
        AfterWrite(suite, blockSize, f, offset, data, s, s1, content.Snap());
      } else {
        NothingLoaded(suite, blockSize, range.start, LoadedPart(blockSize, f, range), s1);
      }
    }

    /** `e_write_file_to_disk`: overwrites the touched range of the content file with its new ciphertext. */
    method WriteBlocks(content: FilenodeContent, uuid: Bytes, offset: nat, ghost data: Bytes, length: nat,
                       ghost f: Bytes, ghost s: Snapshot)
        returns (r: int)
      requires blockSize > 0 && length == |data| && content.suite == suite && content.blockSize == blockSize
      requires BlockStart(blockSize, offset / blockSize) <= |f| == |FileOf(disk.files, ContentDir, uuid)|
      requires |Splice(f, offset, data)| < INT_LIMIT && (data == [] && offset > 0 ==> offset % blockSize > 0)
      requires Written(suite, blockSize, f, offset, data, s, content.Snap())
      modifies content`cipher, disk
      ensures var range := BlockRequired(blockSize, offset, |data|);
              var w' := Splice(LoadedPart(blockSize, f, range), range.offsetInBlock, data);
        && r >= 0 && HasKeys(content.keys.entries, blockSize, range.start, w')
        && disk.files == old(disk.files)[(ContentDir, uuid) :=
             Overlay(FileOf(old(disk.files), ContentDir, uuid), BlockStart(blockSize, range.start),
                     SealFlat(suite, content.keys.entries, blockSize, range.start, w'))]
    {
      hide Splice, Written, BlockStart, RangeReady, SealFlat, BlockRequired, LoadedPart, EncodedSize, RangeOf, Overlay;
      ghost var range := BlockRequired(blockSize, offset, |data|);
      ghost var s' := content.Snap();
      TouchedReady(suite, blockSize, f, offset, data, s, s',
                   if range.end in s'.cipher then s'.cipher else s'.cipher[range.end := []]);
      ghost var w' := Splice(LoadedPart(blockSize, f, range), range.offsetInBlock, data);
      ghost var c := SealFlat(suite, content.keys.entries, blockSize, range.start, w');
      RangeParts(blockSize, offset, |data|, |f|);
      var size := content.ESize(offset, length);
      var buffer := new Byte[size];
      OverlayAll(buffer[..], c);
      var position := content.EDump(offset, length, buffer, 0, range.start, c);
      r := disk.DumpWithOffset(ContentDir, uuid, position, buffer[..]);
    }

    /** The end of `write_file`: metadata first, then the touched blocks, which are dropped. */
    method SaveWrite(node: Node, offset: nat, data: Bytes, ghost f: Bytes, ghost d: NodeData, ghost s: Snapshot)
      requires Mine(node) && blockSize > 0
      requires Stored(suite, blockSize, disk.files, d, f) && WellFormed(FilenodeClass, d)
      requires node.Data() == d.(keys := node.keys.entries, fileSize := node.content.size, mtime := node.mtime)
      requires node.mtime < SIZE_T_LIMIT && s.keys == d.keys
      requires Written(suite, blockSize, f, offset, data, s, node.content.Snap())
      requires BlockStart(blockSize, offset / blockSize) <= |f| && |Splice(f, offset, data)| < INT_LIMIT
      requires data == [] && offset > 0 ==> offset % blockSize > 0
      requires FileSection(|NodeSection(d)|, blockSize, |Splice(f, offset, data)|, node.keys.entries != map[])
               < SECTION_LIMIT
      modifies disk, rootKey, node.content`plain, node.content`cipher, node.meta.ctx
      ensures Represents(node, Splice(f, offset, data)) && node.Data() == old(node.Data())
      ensures rootKey.state == old(rootKey.state).(mac := rootKey.state.mac)
      ensures OnlyNode(old(disk.files), disk.files, d.uuid) && AuditsKept(old(disk.files), disk.files)
    {
      hide Stored, WellFormed, NodeSection, Written, BlockStart, Splice, KeysFit, LoadsAs, SealFlat, HasKeys, Overlay,
           LoadedPart, BlockRequired, FileOf, Stands;
      ghost var before, s' := disk.files, node.content.Snap();
      ghost var f', d' := Splice(f, offset, data), node.Data();
      WrittenWellFormed(suite, blockSize, before, f, offset, data, d, d', s, s');
      var written := WriteMeta(node, false);
      ghost var meta := disk.files;
      StoredAfterMeta(suite, blockSize, before, meta, d, f);
      written := WriteBlocks(node.content, node.uuid, offset, data, |data|, f, s);
      FileOfUpdate(meta, ContentDir, node.uuid, disk.files[(ContentDir, node.uuid)]);
      node.content.FreeLoaded();
      WrittenStored(suite, blockSize, meta, disk.files, d, d', f, offset, data, s, s');
      MetaAfterContent(suite, rootKey.state, FilenodeClass, meta, disk.files, d');
      StandsFrom(suite, rootKey.state, blockSize, disk.files, d', f');
    }

    /** The node and the disk stand for `f`, and the audit file of the node is that of `log`. */
    ghost predicate Serves(node: Node, f: Bytes, log: seq<Bytes>)
      reads disk, rootKey, auditRootKey, node, node.keys, node.content, node.meta, node.meta.rootKey, node.meta.ctx
    {
      Valid() && Represents(node, f) && Logged(suite, auditRootKey.state, disk.files, node.uuid, log)
    }

    lemma Keyed(node: Node, f: Bytes, log: seq<Bytes>)
      requires Serves(node, f, log)
      ensures f != [] ==> node.keys.entries != map[]
    {
      hide Stands, Logged;
      if f != [] {
        FileHasKey(suite, rootKey.state, blockSize, disk.files, node.Data(), f);
      }
    }

    /** With `f` as its file, the metadata blob of the node has a size that fits an `int`. */
    ghost predicate Fits(node: Node, f: Bytes)
      requires blockSize > 0
      reads node, node.keys, node.content
    {
      FileSection(|NodeSection(node.Data())|, blockSize, |f|, node.keys.entries != map[] || f != []) < SECTION_LIMIT
    }

    /** The action is audited in the log of `uuid`, and no other file changes. */
    method AuditNode(uuid: Bytes, reason: Bytes, ghost log: seq<Bytes>)
      requires auditRootKey.state.Valid() && |Text(reason)| < SECTION_LIMIT
      requires Logged(suite, auditRootKey.state, disk.files, uuid, log)
      modifies disk, auditRootKey
      ensures KeysKept(old(auditRootKey.state), auditRootKey.state) && auditRootKey.state.Valid()
      ensures disk.files == old(disk.files)[(AuditDir, uuid) := FileOf(disk.files, AuditDir, uuid)]
      ensures Logged(suite, auditRootKey.state, disk.files, uuid, log + [reason])
      ensures SameFiles(old(disk.files), disk.files, uuid)
    {
      hide Text, AuditRecord, ValidEntry, Logged;
      ghost var before, root := disk.files, auditRootKey.state;
      var audited, e := AppendAudit(uuid, reason);
      OneMoreRecord(suite, root, auditRootKey.state, before, disk.files, uuid, log, e);
    }

    /** The first step of a file operation: the action is audited, and the file stands as before. */
    method Audit(node: Node, reason: Bytes, ghost f: Bytes, ghost log: seq<Bytes>)
      requires Serves(node, f, log) && |Text(reason)| < SECTION_LIMIT
      modifies disk, auditRootKey
      ensures KeysKept(old(auditRootKey.state), auditRootKey.state) && OnlyNode(old(disk.files), disk.files, node.uuid)
      ensures Serves(node, f, log + [reason])
    {
      hide Stands, FileOf, Logged, Text, SameFiles;
      ghost var before := disk.files;
      AuditNode(node.uuid, reason, log);
      AuditKeepsFile(suite, rootKey.state, rootKey.state, blockSize, before, disk.files, node.Data(), f);
    }

    /**
     `write_file` on the node of the path: an accepted write is the zero-padded splice, a refused one leaves the file as
     it was. Either way the action is audited, unless the user may not write.
     */
    method WriteFile(node: Node, reason: Bytes, offset: nat, data: Bytes, ghost f: Bytes, ghost log: seq<Bytes>)
        returns (r: int)
      requires blockSize > 0 && Serves(node, f, log)
      requires Allowed(node, WRITE_RIGHT) ==>
        && |Text(reason)| < SECTION_LIMIT && offset + |data| < INT_LIMIT && WritableAt(blockSize, |f|, offset, |data|)
        && Fits(node, WriteFlat(blockSize, f, offset, data).1)
      modifies disk, rootKey, auditRootKey, node`mtime, node.content, node.keys, node.meta.ctx
      ensures KeysKept(old(rootKey.state), rootKey.state) && KeysKept(old(auditRootKey.state), auditRootKey.state)
      ensures OnlyNode(old(disk.files), disk.files, node.uuid)
      ensures if Allowed(node, WRITE_RIGHT)
        then r == WriteFlat(blockSize, f, offset, data).0
             && Serves(node, WriteFlat(blockSize, f, offset, data).1, log + [reason])
             && (node.keys.entries != map[]
                 <==> old(node.keys.entries) != map[] || WriteFlat(blockSize, f, offset, data).1 != [])
        else r == -EACCES && Serves(node, f, log) && disk.files == old(disk.files) && node.Data() == old(node.Data())
    {
      hide Stands, WellFormed, NodeSection, Written, BlockStart, Splice, KeysFit, LoadsAs, SealFlat, HasKeys, Text,
           BlockRequired, FileOf, AuditRecord, ValidEntry, Logged, Stored;
      Keyed(node, f, log);
      if !Allowed(node, WRITE_RIGHT) {
        return -EACCES;
      }
      ghost var d, s := node.Data(), node.content.Snap();
      Audit(node, reason, f, log);
      StandsGives(suite, rootKey.state, blockSize, disk.files, d, f);
      ghost var audit := disk.files;
      r := LoadAndWrite(node.content, node.uuid, offset, data, f);
      if r >= 0 {
        node.mtime := CurrentTime();
        AcceptedFits(blockSize, f, offset, data);
        AcceptedBoundary(blockSize, |f|, offset, |data|);
        StoredKeyed(suite, blockSize, audit, f, offset, data, d, s, node.content.Snap());
        SaveWrite(node, offset, data, f, d, s);
        StillLogged(suite, auditRootKey.state, audit, disk.files, node.uuid, log + [reason]);
      }
    }

    /**
     Writes the metadata of a file node, of which only path, rights and times have changed since it stood for `f`: with
     them on disk it stands for the same bytes.
     */
    method RewriteMeta(node: Node, ghost d: NodeData, ghost f: Bytes, ghost log: seq<Bytes>)
      requires Valid() && Mine(node) && node.content.plain == map[] && node.content.cipher == map[]
      requires Stands(suite, rootKey.state, blockSize, disk.files, d, f)
      requires Logged(suite, auditRootKey.state, disk.files, node.uuid, log)
      requires node.Data() == d.(path := node.path, entitlements := node.entitlements, atime := node.atime,
                                 mtime := node.mtime, ctime := node.ctime)
      requires WellFormed(FilenodeClass, node.Data())
      modifies disk, rootKey, node.meta.ctx
      ensures KeysKept(old(rootKey.state), rootKey.state) && OnlyNode(old(disk.files), disk.files, node.uuid)
      ensures Serves(node, f, log) && node.Data() == old(node.Data())
    {
      hide Stands, WellFormed, LoadsAs, FileOf, Logged;
      ghost var before, root := disk.files, rootKey.state;
      var written := WriteMeta(node, false);
      RewrittenStands(suite, root, rootKey.state, blockSize, before, disk.files, d, node.Data(), f);
      StillLogged(suite, auditRootKey.state, before, disk.files, node.uuid, log);
    }

    /**
     `read_file` on the node of the path, at an offset that `read` can serve: the bytes of the file there, as many as
     asked for and there are; the file is as before.
     */
    method ReadFile(node: Node, reason: Bytes, offset: nat, length: nat, buffer: array<Byte>, ghost f: Bytes,
                    ghost log: seq<Bytes>)
        returns (r: int)
      requires blockSize > 0 && Serves(node, f, log) && length <= buffer.Length
      requires Allowed(node, READ_RIGHT) ==> |Text(reason)| < SECTION_LIMIT && ReadableAt(blockSize, |f|, offset)
      modifies disk, rootKey, auditRootKey, node`atime, node.content`plain, node.content`cipher, node.meta.ctx, buffer
      ensures KeysKept(old(rootKey.state), rootKey.state) && KeysKept(old(auditRootKey.state), auditRootKey.state)
      ensures OnlyNode(old(disk.files), disk.files, node.uuid)
      ensures if Allowed(node, READ_RIGHT)
        then r == ReadFlat(blockSize, f, offset, length).0 && Serves(node, f, log + [reason])
             && buffer[..] == Overlay(old(buffer[..]), 0, ReadFlat(blockSize, f, offset, length).1)
        else r == -EACCES && Serves(node, f, log) && disk.files == old(disk.files) && buffer[..] == old(buffer[..])
    {
      hide Stands, WellFormed, NodeSection, BlockStart, BytesFrom, KeysFit, LoadsAs, SealFlat, HasKeys, Text,
           Overlay, FileOf, Logged, Stored, ReadableAt;
      if !Allowed(node, READ_RIGHT) {
        return -EACCES;
      }
      Audit(node, reason, f, log);
      StandsGives(suite, rootKey.state, blockSize, disk.files, node.Data(), f);
      OverlayNothing(buffer[..], 0);
      r := ReadBlocks(node.content, node.uuid, offset, length, buffer, f);
      if r < 0 {
        return -EPROTO;
      }
      ghost var d := node.Data();
      TimesFit(d);
      node.atime := CurrentTime();
      TimesKeepWellFormed(FilenodeClass, d, node.Data());
      RewriteMeta(node, d, f, log + [reason]);
    }

    /**
     Truncating to 0, once the keys are cut: the metadata file is cut to the new blob, the content file to nothing.
     */
    method Empty(node: Node, ghost f: Bytes, ghost d: NodeData, ghost log: seq<Bytes>) returns (r: int)
      requires Valid() && Mine(node) && Logged(suite, auditRootKey.state, disk.files, node.uuid, log)
      requires Stands(suite, rootKey.state, blockSize, disk.files, d, f) && node.Data() == d.(keys := node.keys.entries)
      requires 0 in d.keys && node.keys.entries == map[0 := d.keys[0]]
      modifies disk, rootKey, node.content, node.meta.ctx
      ensures KeysKept(old(rootKey.state), rootKey.state) && OnlyNode(old(disk.files), disk.files, node.uuid)
      ensures r == 0 && Serves(node, [], log)
    {
      hide Stands, WellFormed, NodeSection, KeysFit, LoadsAs, SealFlat, FileOf, Logged, Stored;
      ghost var before := disk.files;
      StandsGives(suite, rootKey.state, blockSize, before, d, f);
      node.content.size := 0;
      EmptiedWellFormed(suite, blockSize, before, d, node.Data(), f);
      var written := WriteMeta(node, true);
      ghost var meta := disk.files;
      r := disk.TruncateFile(ContentDir, node.uuid, 0);
      node.content.FreeLoaded();
      EmptyStored(suite, blockSize, disk.files, node.Data());
      FileOfUpdate(meta, ContentDir, node.uuid, []);
      MetaAfterContent(suite, rootKey.state, FilenodeClass, meta, disk.files, node.Data());
      StandsFrom(suite, rootKey.state, blockSize, disk.files, node.Data(), []);
      StillLogged(suite, auditRootKey.state, before, disk.files, node.uuid, log);
    }

    method Shrink(node: Node, newSize: nat, ghost f: Bytes, ghost log: seq<Bytes>) returns (r: int)
      requires Serves(node, f, log) && (newSize == 0 ==> node.keys.entries != map[])
      modifies disk, rootKey, node.content, node.keys, node.meta.ctx
      ensures KeysKept(old(rootKey.state), rootKey.state) && OnlyNode(old(disk.files), disk.files, node.uuid)
      ensures if newSize > 0 then r == -EPROTO && Serves(node, f, log) && disk.files == old(disk.files)
                                   && node.keys.entries == old(node.keys.entries)
        else r == 0 && Serves(node, [], log)
             && 0 in old(node.keys.entries) && node.keys.entries == map[0 := old(node.keys.entries)[0]]
    {
      hide Stands, WellFormed, NodeSection, KeysFit, LoadsAs, SealFlat, FileOf, Logged, Stored;
      ghost var d := node.Data();
      StandsGives(suite, rootKey.state, blockSize, disk.files, d, f);
      StoredKeys(suite, blockSize, disk.files, d, f);
      var cut := node.TruncateKeys(newSize);
      if cut < 0 {
        return -EPROTO;
      }
      assert 0 in node.keys.entries;
      r := Empty(node, f, d, log);
    }

    /** Growing: no data is written, so the size is no longer that of the content file. */
    method Grow(node: Node, newSize: nat, ghost f: Bytes, ghost log: seq<Bytes>) returns (r: int)
      requires Serves(node, f, log) && |f| < newSize < INT_LIMIT
      modifies disk, rootKey, node.content, node.meta.ctx
      ensures Valid() && KeysKept(old(rootKey.state), rootKey.state)
      ensures OnlyNode(old(disk.files), disk.files, node.uuid)
      ensures r == 0 && (forall g, l :: !Serves(node, g, l)) && node.content.size == newSize
      ensures Outgrown(suite, rootKey.state, disk.files, node.Data())
    {
      hide Stands, WellFormed, NodeSection, KeysFit, LoadsAs, SealFlat, FileOf, Logged, Stored;
      ghost var before, d := disk.files, node.Data();
      StandsGives(suite, rootKey.state, blockSize, before, d, f);
      GrownWellFormed(d, newSize);
      node.content.size := newSize;
      var written := WriteMeta(node, false);
      node.content.FreeLoaded();
      forall g
        ensures !Stands(suite, rootKey.state, blockSize, disk.files, node.Data(), g)
      {
        GrownStandsForNothing(suite, rootKey.state, blockSize, before, disk.files, d, node.Data(), f, g);
      }
      GrownIsOutgrown(suite, rootKey.state, blockSize, before, disk.files, d, node.Data(), f);
      r := 0;
    }

    /**
     `truncate_file` on the node of the path. To 0, where the file needs a block key, it empties the file; to a smaller
     or equal positive size it is refused; to a larger size only the size in the metadata changes, and the node then
     stands for no file.
     */
    method TruncateFile(node: Node, newSize: nat, ghost f: Bytes, ghost log: seq<Bytes>) returns (r: int)
      requires blockSize > 0 && Serves(node, f, log)
      requires Allowed(node, WRITE_RIGHT) ==> newSize < INT_LIMIT && (newSize == 0 ==> node.keys.entries != map[])
      modifies disk, rootKey, node`mtime, node`ctime, node.content, node.keys, node.meta.ctx
      ensures KeysKept(old(rootKey.state), rootKey.state) && OnlyNode(old(disk.files), disk.files, node.uuid)
      ensures if !Allowed(node, WRITE_RIGHT)
        then r == -EACCES && Serves(node, f, log) && disk.files == old(disk.files) && node.Data() == old(node.Data())
        else if newSize > |f| then Valid() && r == 0 && (forall g, l :: !Serves(node, g, l))
                                   && Outgrown(suite, rootKey.state, disk.files, node.Data())
                                   && node.content.size == newSize
        else if newSize > 0 then r == -EPROTO && Serves(node, f, log) && disk.files == old(disk.files)
                                   && node.keys.entries == old(node.keys.entries)
        else r == 0 && Serves(node, [], log)
             && 0 in old(node.keys.entries) && node.keys.entries == map[0 := old(node.keys.entries)[0]]
    {
      hide Stands, WellFormed, NodeSection, KeysFit, LoadsAs, SealFlat, FileOf, Logged, Stored, Outgrown;
      if !Allowed(node, WRITE_RIGHT) {
        return -EACCES;
      }
      ghost var d := node.Data();
      StandsGives(suite, rootKey.state, blockSize, disk.files, d, f);
      TimesFit(d);
      node.mtime := CurrentTime();
      node.ctime := CurrentTime();
      TimesMayDiffer(suite, rootKey.state, blockSize, disk.files, d, node.Data(), f);
      if newSize > node.content.size {
        r := Grow(node, newSize, f, log);
      } else {
        r := Shrink(node, newSize, f, log);
      }
    }

    /** A node object that only the caller knows, with the state `d` and nothing loaded. */
    ghost predicate Opened(node: Node, cls: Class, d: NodeData)
      reads node, node.keys, node.content, node.meta, node.meta.rootKey, node.meta.ctx
    {
      && node.Valid() && node.cls == cls && node.meta.ctx != auditRootKey && node.Data() == d
      && node.meta.suite == suite && node.meta.rootKey == rootKey && node.content.blockSize == blockSize
      && node.content.plain == map[] && node.content.cipher == map[]
    }

    /** A node object with the state `d`. */
    method Materialise(cls: Class, d: NodeData) returns (node: Node)
      requires Valid() && ValidKeys(d.keys)
      ensures fresh(node) && fresh(node.keys) && fresh(node.content) && fresh(node.meta) && fresh(node.meta.ctx)
      ensures Opened(node, cls, d)
    {
      node := new Node(cls, suite, rootKey, blockSize);
      node.typ, node.uuid, node.path := d.typ, d.uuid, d.path;
      node.atime, node.mtime, node.ctime := d.atime, d.mtime, d.ctime;
      node.entries, node.entitlements, node.users := d.entries, d.entitlements, d.users;
      node.keys.entries, node.content.size := d.keys, d.fileSize;
    }

    /** A new object of a file node serves the file. */
    lemma Serving(node: Node, d: NodeData, f: Bytes, log: seq<Bytes>)
      requires Valid() && Opened(node, FilenodeClass, d)
      requires Stands(suite, rootKey.state, blockSize, disk.files, d, f)
      requires Logged(suite, auditRootKey.state, disk.files, d.uuid, log)
      ensures Serves(node, f, log) && node.Data() == d
      ensures forall min :: Allowed(node, min) <==> HasUserRights(d.entitlements, min, currentUser.uuid)
    {
      hide Stands, Logged, HasUserRights;
    }

    lemma Served(node: Node, f: Bytes, log: seq<Bytes>)
      requires Serves(node, f, log)
      ensures Valid() && Stands(suite, rootKey.state, blockSize, disk.files, node.Data(), f)
      ensures Logged(suite, auditRootKey.state, disk.files, node.uuid, log)
    {
      hide Stands, Logged;
    }

    /** `truncate_file` on an object of a file node, seen from its state before and after. */
    method TruncateNode(d: NodeData, newSize: nat, ghost f: Bytes, ghost log: seq<Bytes>) returns (r: int, d': NodeData)
      requires Valid() && ValidKeys(d.keys) && Stands(suite, rootKey.state, blockSize, disk.files, d, f)
      requires Logged(suite, auditRootKey.state, disk.files, d.uuid, log)
      requires HasUserRights(d.entitlements, WRITE_RIGHT, currentUser.uuid) ==>
        newSize < INT_LIMIT && (newSize == 0 ==> d.keys != map[])
      modifies disk, rootKey
      ensures Valid() && KeysKept(old(rootKey.state), rootKey.state)
      ensures OnlyNode(old(disk.files), disk.files, d.uuid)
      ensures d' == d.(mtime := d'.mtime, ctime := d'.ctime, keys := d'.keys, fileSize := d'.fileSize)
      ensures var allowed := HasUserRights(d.entitlements, WRITE_RIGHT, currentUser.uuid);
        if allowed && newSize > |f|
        then r == 0 && d'.fileSize == newSize && Outgrown(suite, rootKey.state, disk.files, d')
        else && r == (if !allowed then -EACCES else if newSize > 0 then -EPROTO else 0)
             && Stands(suite, rootKey.state, blockSize, disk.files, d', if r == 0 then [] else f)
             && Logged(suite, auditRootKey.state, disk.files, d.uuid, log)
             && (if r == 0 then d'.keys != map[] else d'.keys == d.keys)
    {
      hide Stands, Logged, OnlyNode, HasUserRights, Serves, Opened, Outgrown;
      var node := Materialise(FilenodeClass, d);
      Serving(node, d, f, log);
      r := TruncateFile(node, newSize, f, log);
      d' := node.Data();
      if !(Allowed(node, WRITE_RIGHT) && newSize > |f|) {
        assert r == 0 ==> 0 in d'.keys;
        Served(node, if r == 0 then [] else f, log);
      }
    }

    method OpenBlob(cls: Class, blob: Bytes) returns (r: Parsed<Node>)
      requires Valid()
      modifies rootKey
      ensures Valid() && KeysKept(old(rootKey.state), rootKey.state)
      ensures r.Done? ==> fresh(r.value) && fresh(r.value.keys) && fresh(r.value.content) && fresh(r.value.meta)
                          && fresh(r.value.meta.ctx)
      ensures var p := OpenNode(suite, old(rootKey.state), cls, Blank(cls), blob);
        if p.Done? then r.Done? && r.value.cls == cls && r.value.Data() == p.value.0
                        && (ValidKeys(p.value.0.keys) ==> Opened(r.value, cls, p.value.0))
        else (r.Rejected? <==> p.Rejected?) && (r.Fault? <==> p.Fault?)
    {
      hide OpenNode;
      var node := new Node(cls, suite, rootKey, blockSize);
      var load := node.ELoad(blob);
      r := if load.Done? then Done(node, []) else load.PropagateFailure();
    }

    /**
     `load_metadata`: a new node of the class that the blob announces, or nothing for another blob or a missing
     file.
     */
    method LoadMetadata(uuid: Bytes) returns (r: Parsed<Node>)
      requires Valid()
      modifies rootKey
      ensures Valid() && KeysKept(old(rootKey.state), rootKey.state)
      ensures r.Done? ==> fresh(r.value) && fresh(r.value.keys) && fresh(r.value.content) && fresh(r.value.meta)
                          && fresh(r.value.meta.ctx)
      ensures var p := LoadFile(suite, old(rootKey.state), FileOf(disk.files, MetaDir, uuid));
        if p.Done? then r.Done? && r.value.cls == p.value.0 && r.value.Data() == p.value.1
                        && (ValidKeys(p.value.1.keys) ==> Opened(r.value, p.value.0, p.value.1))
        else (r.Rejected? <==> p.Rejected?) && (r.Fault? <==> p.Fault?)
    {
      hide OpenNode, FromLittleEndian;
      var size := disk.FileSize(MetaDir, uuid);
      var loaded, blob := disk.Load(MetaDir, uuid, 0, size);
      if loaded < 0 {
        return Rejected;
      }
      assert blob == FileOf(disk.files, MetaDir, uuid);
      if |blob| < 4 {
        return Fault;
      }
      var cls := Announced(blob);
      if cls.None? {
        return Rejected;
      }
      r := OpenBlob(cls.value, blob);
    }

    /** `e_write_meta_to_disk` of a node whose state is `d`. */
    method WriteNode(cls: Class, d: NodeData)
      requires Valid() && WellFormed(cls, d)
      modifies disk, rootKey
      ensures Valid() && KeysKept(old(rootKey.state), rootKey.state)
      ensures disk.files == old(disk.files)[(MetaDir, d.uuid) := FileOf(disk.files, MetaDir, d.uuid)]
      ensures LoadsAs(suite, rootKey.state, cls, FileOf(disk.files, MetaDir, d.uuid), d)
    {
      hide WellFormed, LoadsAs;
      KeysAreValid(cls, d);
      var node := Materialise(cls, d);
      var written := WriteMeta(node, false);
    }

    /** Closing a file drops its node; opening it again loads it from its metadata file. */
    method Reopen(node: Node, ghost f: Bytes, ghost log: seq<Bytes>) returns (reopened: Node)
      requires Serves(node, f, log)
      modifies rootKey
      ensures KeysKept(old(rootKey.state), rootKey.state)
      ensures fresh(reopened) && fresh(reopened.keys) && fresh(reopened.content)
      ensures fresh(reopened.meta) && fresh(reopened.meta.ctx)
      ensures Serves(reopened, f, log) && SameButTimes(reopened.Data(), node.Data())
    {
      hide Stands, LoadsAs, LoadFile, Logged, WellFormed;
      StandsLoads(suite, rootKey.state, blockSize, disk.files, node.Data(), f);
      ghost var d1 :| LoadsAs(suite, rootKey.state, FilenodeClass, FileOf(disk.files, MetaDir, node.uuid), d1)
        && d1.typ == FILENODE_TYPE && ValidKeys(d1.keys) && SameButTimes(d1, node.Data())
        && Stands(suite, rootKey.state, blockSize, disk.files, d1, f);
      ghost var root := rootKey.state;
      LoadsAsLoaded(suite, root, FilenodeClass, FileOf(disk.files, MetaDir, node.uuid), d1);
      var r := LoadMetadata(node.uuid);
      assert r.Done? && Opened(r.value, FilenodeClass, d1);
      reopened := r.value;
      StandsUnderAnyTag(suite, root, rootKey.state, blockSize, disk.files, d1, f);
    }

    method NewFile(path: Bytes, uuid: Bytes) returns (node: Node)
      requires Valid() && UuidText(CString(currentUser.uuid)) && |path| < PATH_LIMIT && |uuid| == UUID_SIZE
      ensures fresh(node) && fresh(node.keys) && fresh(node.content) && fresh(node.meta) && fresh(node.meta.ctx)
      ensures Mine(node) && node.content.plain == map[] && node.content.cipher == map[] && node.uuid == uuid
      ensures node.keys.entries == map[] && node.content.size == 0
      ensures WellFormed(FilenodeClass, node.Data()) && |NodeSection(node.Data())| == |path| + OWNED_SECTION
      ensures Allowed(node, READ_RIGHT) && Allowed(node, WRITE_RIGHT)
    {
      hide WellFormed, NodeSection, CString, UuidText;
      node := new Node(FilenodeClass, suite, rootKey, blockSize);
      node.uuid, node.path, node.entitlements := uuid, path, map[CString(currentUser.uuid) := OWNER_RIGHT];
      node.atime := CurrentTime();
      node.mtime := CurrentTime();
      node.ctime := CurrentTime();
      NewFileWellFormed(node.Data(), CString(currentUser.uuid));
    }

    /** The file part of `create_file`: a node under a UUID that no file has, owned by the current user. */
    method CreateFile(path: Bytes, uuid: Bytes, reason: Bytes) returns (node: Node)
      requires Valid() && UuidText(CString(currentUser.uuid)) && |path| < PATH_LIMIT && |Text(reason)| < SECTION_LIMIT
      requires |uuid| == UUID_SIZE && forall dir :: (dir, uuid) !in disk.files
      modifies disk, rootKey, auditRootKey
      ensures fresh(node) && fresh(node.keys) && fresh(node.content) && fresh(node.meta) && fresh(node.meta.ctx)
      ensures Serves(node, [], [reason]) && node.uuid == uuid && node.keys.entries == map[]
      ensures |NodeSection(node.Data())| == |path| + OWNED_SECTION
      ensures Allowed(node, READ_RIGHT) && Allowed(node, WRITE_RIGHT)
      ensures OnlyNode(old(disk.files), disk.files, uuid)
    {
      hide Stands, WellFormed, NodeSection, LoadsAs, SealFlat, FileOf, Logged, Stored, Text, AuditRecord, ValidEntry,
           HasUserRights, CString;
      node := NewFile(path, uuid);
      ghost var before, root := disk.files, auditRootKey.state;
      NothingLogged(suite, root, before, uuid);
      var audited, e := AppendAudit(uuid, reason);
      ghost var audit := disk.files;
      OneMoreRecord(suite, root, auditRootKey.state, before, audit, uuid, [], e);
      var written := WriteMeta(node, false);
      NewFileStored(suite, blockSize, disk.files, node.Data());
      StandsFrom(suite, rootKey.state, blockSize, disk.files, node.Data(), []);
      StillLogged(suite, auditRootKey.state, audit, disk.files, uuid, [] + [reason]);
      assert [] + [reason] == [reason];
    }
  }
}
