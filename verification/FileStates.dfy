/** What a file node and its files on disk stand for, and what the operations leave of it. */
module FileStates {
  import opened ByteStrings
  import opened Crypto
  import opened Blocks
  import opened Codec
  import opened SealedMetadata
  import opened SealedFiles
  import opened NodeRecords
  import opened NodeRoundTrip
  import opened FilenodeContents
  import opened Disks
  import opened AuditLogs
  import opened MetadataFiles
  import opened FlatFiles
  import opened FileParts

  /** The keys of the file node and its content file stand for `f`. */
  ghost predicate Stored(suite: CipherSuite, bs: nat, files: Files, d: NodeData, f: Bytes) {
    && bs > 0 && |f| < INT_LIMIT && d.fileSize == |f| && KeysFit(d.keys, bs, f)
    && FileOf(files, ContentDir, d.uuid) == SealFlat(suite, d.keys, bs, 0, f)
    && (d.keys != map[] ==> (ContentDir, d.uuid) in files)
  }

  predicate SameButTimes(d: NodeData, e: NodeData) {
    d.(atime := e.atime, mtime := e.mtime, ctime := e.ctime) == e
  }

  /** The metadata file on disk loads as the node, but for the times, which may be older. */
  ghost predicate InSync(suite: CipherSuite, root: GcmState, cls: Class, files: Files, d: NodeData) {
    WellFormed(cls, d)
    && exists d1 :: LoadsAs(suite, root, cls, FileOf(files, MetaDir, d.uuid), d1) && SameButTimes(d1, d)
  }

  /** Everything the file node and its two files on disk must satisfy to stand for `f`. */
  ghost predicate Stands(suite: CipherSuite, root: GcmState, bs: nat, files: Files, d: NodeData, f: Bytes) {
    Stored(suite, bs, files, d, f) && InSync(suite, root, FilenodeClass, files, d)
  }

  lemma BlockDecrypts(suite: CipherSuite, keys: map<nat, CtrContext>, bs: nat, f: Bytes, i: nat)
    requires bs > 0 && HasKeys(keys, bs, 0, f) && BlockStart(bs, i) < |f|
    ensures i in keys && Ctr(suite, keys[i], Chunk(SealFlat(suite, keys, bs, 0, f), bs, i)) == Chunk(f, bs, i)
  {
    hide HasKeys, SealFlat, Chunk, Ctr, BlockStart;
    SealedChunk(suite, keys, bs, 0, f, i);
    CtrTwice(suite, keys[i], Chunk(f, bs, i));
  }

  /** Decrypting a block of the content file with the key and counter that the metadata file holds gives that block. */
  lemma EveryBlockDecrypts(suite: CipherSuite, root: GcmState, bs: nat, files: Files, d: NodeData, f: Bytes,
                           d0: NodeData, i: nat)
    requires Stands(suite, root, bs, files, d, f) && Fresh(FilenodeClass, d0) && BlockStart(bs, i) < |f|
    ensures var p := OpenNode(suite, root, FilenodeClass, d0, FileOf(files, MetaDir, d.uuid));
      && p.Done? && i in p.value.0.keys
      && Ctr(suite, p.value.0.keys[i], Chunk(FileOf(files, ContentDir, d.uuid), bs, i)) == Chunk(f, bs, i)
  {
    hide LoadsAs, OpenNode, WellFormed, NodeSection, SealFlat, HasKeys, ContiguousKeys, FileOf, Chunk, Ctr, BlockStart;
    var d1 :| LoadsAs(suite, root, FilenodeClass, FileOf(files, MetaDir, d.uuid), d1) && SameButTimes(d1, d);
    LoadGives(suite, root, FilenodeClass, FileOf(files, MetaDir, d.uuid), d0);
    BlockDecrypts(suite, d.keys, bs, f, i);
  }

  lemma SameCipherSameByte(suite: CipherSuite, keys: map<nat, CtrContext>, bs: nat, f: Bytes, g: Bytes, k: nat)
    requires bs > 0 && HasKeys(keys, bs, 0, f) && HasKeys(keys, bs, 0, g) && k < |f| == |g|
    requires SealFlat(suite, keys, bs, 0, f)[k] == SealFlat(suite, keys, bs, 0, g)[k]
    ensures f[k] == g[k]
  {
    BlockOf(bs, k);
    SealByteAt(suite, keys, bs, 0, f, k / bs, k % bs);
    SealByteAt(suite, keys, bs, 0, g, k / bs, k % bs);
    var ctx := keys[k / bs];
    XorByteTwice(f[k], suite.ctrStream(ctx.key, ctx.ctr, k % bs));
    XorByteTwice(g[k], suite.ctrStream(ctx.key, ctx.ctr, k % bs));
    hide HasKeys, BlockStart;
  }

  /** One metadata blob and one content file determine the file. */
  lemma FileIsDetermined(suite: CipherSuite, root: GcmState, bs: nat, files: Files, d: NodeData, f: Bytes, g: Bytes)
    requires Stands(suite, root, bs, files, d, f) && Stands(suite, root, bs, files, d, g)
    ensures f == g
  {
    hide LoadsAs, WellFormed, NodeSection, FileOf, HasKeys, ContiguousKeys;
    forall k: nat | k < |f|
      ensures f[k] == g[k]
    {
      SameCipherSameByte(suite, d.keys, bs, f, g, k);
    }
  }

  lemma StandsGives(suite: CipherSuite, root: GcmState, bs: nat, files: Files, d: NodeData, f: Bytes)
    requires Stands(suite, root, bs, files, d, f)
    ensures Stored(suite, bs, files, d, f) && WellFormed(FilenodeClass, d)
    ensures d.fileSize == |f| < INT_LIMIT && HasKeys(d.keys, bs, 0, f)
    ensures FileOf(files, ContentDir, d.uuid) == SealFlat(suite, d.keys, bs, 0, f)
  {
    hide LoadsAs, SealFlat, NodeSection, FileOf;
  }

  lemma SyncFrom(suite: CipherSuite, root: GcmState, cls: Class, files: Files, d: NodeData)
    requires WellFormed(cls, d) && LoadsAs(suite, root, cls, FileOf(files, MetaDir, d.uuid), d)
    ensures InSync(suite, root, cls, files, d)
  {
    hide LoadsAs, WellFormed;
    assert SameButTimes(d, d);
  }

  lemma StandsFrom(suite: CipherSuite, root: GcmState, bs: nat, files: Files, d: NodeData, f: Bytes)
    requires Stored(suite, bs, files, d, f) && WellFormed(FilenodeClass, d)
    requires LoadsAs(suite, root, FilenodeClass, FileOf(files, MetaDir, d.uuid), d)
    ensures Stands(suite, root, bs, files, d, f)
  {
    SyncFrom(suite, root, FilenodeClass, files, d);
    hide InSync, WellFormed, KeysFit, SealFlat, NodeSection;
  }

  lemma FileHasKey(suite: CipherSuite, root: GcmState, bs: nat, files: Files, d: NodeData, f: Bytes)
    requires Stands(suite, root, bs, files, d, f) && f != []
    ensures d.keys != map[]
  {
    hide LoadsAs, WellFormed, SealFlat;
  }

  /** Only files of `uuid` may differ. */
  ghost predicate OnlyNode(files: Files, files': Files, uuid: Bytes) {
    forall k: (Directory, Bytes) ::
      k.1 != uuid ==> (k in files' <==> k in files) && (k in files ==> files'[k] == files[k])
  }

  lemma SyncKept(suite: CipherSuite, root: GcmState, root': GcmState, cls: Class, files: Files, files': Files,
                 d: NodeData)
    requires InSync(suite, root, cls, files, d) && root' == root.(mac := root'.mac)
    requires FileOf(files', MetaDir, d.uuid) == FileOf(files, MetaDir, d.uuid)
    ensures InSync(suite, root', cls, files', d)
  {
    var d1 :| LoadsAs(suite, root, cls, FileOf(files, MetaDir, d.uuid), d1) && SameButTimes(d1, d);
    LoadsUnderAnyTag(suite, root, root', cls, FileOf(files, MetaDir, d.uuid), d1);
    hide LoadsAs, WellFormed, FileOf;
  }

  lemma AuditKeepsFile(suite: CipherSuite, root: GcmState, root': GcmState, bs: nat, files: Files, files': Files,
                       d: NodeData, f: Bytes)
    requires Stands(suite, root, bs, files, d, f) && SameFiles(files, files', d.uuid)
    requires root' == root.(mac := root'.mac)
    ensures Stands(suite, root', bs, files', d, f)
  {
    SyncKept(suite, root, root', FilenodeClass, files, files', d);
    hide InSync, KeysFit, SealFlat, FileOf;
  }

  /** What is done to one node leaves every other node standing for its file, although they share the root key. */
  lemma OthersStand(suite: CipherSuite, root: GcmState, root': GcmState, bs: nat, files: Files, files': Files,
                    uuid: Bytes, d: NodeData, f: Bytes)
    requires OnlyNode(files, files', uuid) && d.uuid != uuid && root' == root.(mac := root'.mac)
    requires Stands(suite, root, bs, files, d, f)
    ensures Stands(suite, root', bs, files', d, f)
  {
    hide Stands;
    AuditKeepsFile(suite, root, root', bs, files, files', d, f);
  }

  lemma StandsUnderAnyTag(suite: CipherSuite, root: GcmState, root': GcmState, bs: nat, files: Files, d: NodeData,
                          f: Bytes)
    requires Stands(suite, root, bs, files, d, f) && root' == root.(mac := root'.mac)
    ensures Stands(suite, root', bs, files, d, f)
  {
    AuditKeepsFile(suite, root, root', bs, files, files, d, f);
  }

  lemma FileOfUpdate(files: Files, dir: Directory, uuid: Bytes, data: Bytes)
    ensures FileOf(files[(dir, uuid) := data], dir, uuid) == data
  {
  }

  // ----- well-formed nodes -----

  lemma TimesFit(d: NodeData)
    requires WellFormed(FilenodeClass, d)
    ensures d.atime < SIZE_T_LIMIT && d.mtime < SIZE_T_LIMIT && d.ctime < SIZE_T_LIMIT
  {
  }

  lemma KeysAreValid(cls: Class, d: NodeData)
    requires WellFormed(cls, d)
    ensures ValidKeys(d.keys)
  {
  }

  lemma {:induction false} ByteInEachBlock(bs: nat, n: nat)
    requires bs > 0
    ensures n <= BlockStart(bs, n)
  {
    if n > 0 {
      ByteInEachBlock(bs, n - 1);
      MulStep(bs, n - 1);
    }
  }

  lemma KeysAreFew(keys: map<nat, CtrContext>, bs: nat, f: Bytes)
    requires bs > 0 && KeysFit(keys, bs, f)
    ensures |keys| <= |f| + 1
  {
    if |keys| > 1 {
      var n: nat := |keys| - 1;
      ByteInEachBlock(bs, n);
    }
  }

  lemma SameSection(d: NodeData, d': NodeData)
    requires d' == d.(keys := d'.keys, fileSize := d'.fileSize, atime := d'.atime, mtime := d'.mtime, ctime := d'.ctime)
    ensures NodeSection(d') == NodeSection(d)
  {
    hide List, Text;
  }

  lemma SectionParts(d: NodeData)
    ensures |Sensitive(FilenodeClass, d)| == |NodeSection(d)| + 8 + |EncodeAll(BlockKeys(d.keys), KeyRecord)|
  {
  }

  lemma KeysListed(keys: map<nat, CtrContext>)
    requires ContiguousKeys(keys)
    ensures |EncodeAll(BlockKeys(keys), KeyRecord)| == |keys| * CTR_CONTEXT_SIZE
  {
    BlockKeysAt(keys);
    var ks := BlockKeys(keys);
    hide BlockKeys, EncodeAll;
    forall k | k in ks
      ensures |KeyRecord(k)| == CTR_CONTEXT_SIZE
    {
      assert exists i: nat :: i < |keys| && keys[i] == k;
    }
    FixedSizeExact(ks, KeyRecord, CTR_CONTEXT_SIZE);
  }

  /** The sensitive section of a file node has the size that its file makes it have. */
  lemma FileSectionExact(bs: nat, d: NodeData, f: Bytes)
    requires bs > 0 && KeysFit(d.keys, bs, f)
    ensures |Sensitive(FilenodeClass, d)| == FileSection(|NodeSection(d)|, bs, |f|, d.keys != map[])
  {
    KeysCounted(d.keys, bs, f);
    SectionParts(d);
    BlockKeysAt(d.keys);
    KeysListed(d.keys);
    hide BlockKeys, EncodeAll, HasKeys, BlockStart, NodeSection, Sensitive;
  }

  /** Other keys, size and times keep a file node well-formed, as long as its section fits. */
  lemma StaysWellFormed(bs: nat, d: NodeData, d': NodeData, f': Bytes)
    requires bs > 0 && WellFormed(FilenodeClass, d)
    requires d' == d.(keys := d'.keys, fileSize := d'.fileSize, atime := d'.atime, mtime := d'.mtime, ctime := d'.ctime)
    requires d'.atime < SIZE_T_LIMIT && d'.mtime < SIZE_T_LIMIT && d'.ctime < SIZE_T_LIMIT
    requires KeysFit(d'.keys, bs, f') && d'.fileSize == |f'| < INT_LIMIT
    requires FileSection(|NodeSection(d)|, bs, |f'|, d'.keys != map[]) < SECTION_LIMIT
    ensures WellFormed(FilenodeClass, d') && NodeSection(d') == NodeSection(d)
  {
    SameSection(d, d');
    FileSectionExact(bs, d', f');
    hide NodeSection, Sensitive, KeysFit, FileSection;
  }

  lemma TimesKeepSection(cls: Class, d: NodeData, d': NodeData)
    requires d' == d.(atime := d'.atime, mtime := d'.mtime, ctime := d'.ctime)
    ensures Sensitive(cls, d') == Sensitive(cls, d)
  {
    SameSection(d, d');
    hide NodeSection, List, Values, BlockKeys;
  }

  lemma TimesKeepWellFormed(cls: Class, d: NodeData, d': NodeData)
    requires WellFormed(cls, d) && d' == d.(atime := d'.atime, mtime := d'.mtime, ctime := d'.ctime)
    requires d'.atime < SIZE_T_LIMIT && d'.mtime < SIZE_T_LIMIT && d'.ctime < SIZE_T_LIMIT
    ensures WellFormed(cls, d')
  {
    TimesKeepSection(cls, d, d');
    hide Sensitive;
  }

  lemma TimesKeepSync(suite: CipherSuite, root: GcmState, cls: Class, files: Files, d: NodeData, d': NodeData)
    requires InSync(suite, root, cls, files, d)
    requires d' == d.(atime := d'.atime, mtime := d'.mtime, ctime := d'.ctime)
    requires d'.atime < SIZE_T_LIMIT && d'.mtime < SIZE_T_LIMIT && d'.ctime < SIZE_T_LIMIT
    ensures InSync(suite, root, cls, files, d')
  {
    hide LoadsAs, FileOf, WellFormed;
    var d1 :| LoadsAs(suite, root, cls, FileOf(files, MetaDir, d.uuid), d1) && SameButTimes(d1, d);
    TimesKeepWellFormed(cls, d, d');
    assert SameButTimes(d1, d');
  }

  lemma TimesMayDiffer(suite: CipherSuite, root: GcmState, bs: nat, files: Files, d: NodeData, d': NodeData, f: Bytes)
    requires Stands(suite, root, bs, files, d, f)
    requires d' == d.(atime := d'.atime, mtime := d'.mtime, ctime := d'.ctime)
    requires d'.atime < SIZE_T_LIMIT && d'.mtime < SIZE_T_LIMIT && d'.ctime < SIZE_T_LIMIT
    ensures Stands(suite, root, bs, files, d', f) && NodeSection(d') == NodeSection(d)
  {
    hide InSync, KeysFit, SealFlat, NodeSection, FileOf;
    SameSection(d, d');
    TimesKeepSync(suite, root, FilenodeClass, files, d, d');
  }

  lemma StoredSame(suite: CipherSuite, bs: nat, files: Files, d: NodeData, d': NodeData, f: Bytes)
    requires Stored(suite, bs, files, d, f) && d'.uuid == d.uuid && d'.keys == d.keys && d'.fileSize == d.fileSize
    ensures Stored(suite, bs, files, d', f)
  {
    hide KeysFit, SealFlat;
  }

  lemma StoredAfterMeta(suite: CipherSuite, bs: nat, files: Files, files': Files, d: NodeData, f: Bytes)
    requires Stored(suite, bs, files, d, f)
    requires files' == files[(MetaDir, d.uuid) := FileOf(files', MetaDir, d.uuid)]
    ensures Stored(suite, bs, files', d, f) && |FileOf(files', ContentDir, d.uuid)| == |f|
  {
    hide KeysFit, SealFlat;
  }

  /** Writing a file node under another path or with other rights leaves it standing for the same bytes. */
  lemma RewrittenStands(suite: CipherSuite, root: GcmState, root': GcmState, bs: nat, files: Files, files': Files,
                        d: NodeData, d': NodeData, f: Bytes)
    requires Stands(suite, root, bs, files, d, f) && WellFormed(FilenodeClass, d')
    requires d' == d.(path := d'.path, entitlements := d'.entitlements, atime := d'.atime, mtime := d'.mtime,
                      ctime := d'.ctime)
    requires files' == files[(MetaDir, d.uuid) := FileOf(files', MetaDir, d.uuid)]
    requires LoadsAs(suite, root', FilenodeClass, FileOf(files', MetaDir, d.uuid), d')
    ensures Stands(suite, root', bs, files', d', f)
  {
    hide InSync, KeysFit, SealFlat, NodeSection, LoadsAs, WellFormed, Stored;
    StoredAfterMeta(suite, bs, files, files', d, f);
    StoredSame(suite, bs, files', d, d', f);
    SyncFrom(suite, root', FilenodeClass, files', d');
  }

  // ----- writing -----

  lemma MetaAfterContent(suite: CipherSuite, root: GcmState, cls: Class, files: Files, files': Files, d: NodeData)
    requires LoadsAs(suite, root, cls, FileOf(files, MetaDir, d.uuid), d)
    requires files' == files[(ContentDir, d.uuid) := FileOf(files', ContentDir, d.uuid)]
    ensures LoadsAs(suite, root, cls, FileOf(files', MetaDir, d.uuid), d)
  {
    hide LoadsAs;
  }

  lemma WrittenWellFormed(suite: CipherSuite, bs: nat, files: Files, f: Bytes, offset: nat, data: Bytes,
                          d: NodeData, d': NodeData, s: Snapshot, s': Snapshot)
    requires Stored(suite, bs, files, d, f) && WellFormed(FilenodeClass, d)
    requires s.keys == d.keys && Written(suite, bs, f, offset, data, s, s') && |Splice(f, offset, data)| < INT_LIMIT
    requires BlockStart(bs, offset / bs) <= |f| && (data == [] && offset > 0 ==> offset % bs > 0)
    requires d' == d.(keys := s'.keys, fileSize := s'.size, mtime := d'.mtime) && d'.mtime < SIZE_T_LIMIT
    requires FileSection(|NodeSection(d)|, bs, |Splice(f, offset, data)|, s'.keys != map[]) < SECTION_LIMIT
    ensures WellFormed(FilenodeClass, d') && NodeSection(d') == NodeSection(d)
    ensures |f| == |FileOf(files, ContentDir, d.uuid)|
  {
    hide BlockStart, NodeSection, KeysFit, Splice, PartLoaded, FileSection;
    WrittenKeysFit(suite, bs, f, offset, data, s, s');
    TimesFit(d);
    StaysWellFormed(bs, d, d', Splice(f, offset, data));
  }

  /** The content part of a file after an accepted write. */
  lemma WrittenStored(suite: CipherSuite, bs: nat, files: Files, files': Files, d: NodeData, d': NodeData, f: Bytes,
                      offset: nat, data: Bytes, s: Snapshot, s': Snapshot)
    requires Stored(suite, bs, files, d, f) && s.keys == d.keys && Written(suite, bs, f, offset, data, s, s')
    requires BlockStart(bs, offset / bs) <= |f| && |Splice(f, offset, data)| < INT_LIMIT
    requires data == [] && offset > 0 ==> offset % bs > 0
    requires d'.uuid == d.uuid && d'.keys == s'.keys && d'.fileSize == s'.size
    requires var r := BlockRequired(bs, offset, |data|);
             var w' := Splice(LoadedPart(bs, f, r), r.offsetInBlock, data);
      && HasKeys(s'.keys, bs, r.start, w') && (ContentDir, d.uuid) in files'
      && FileOf(files', ContentDir, d.uuid)
         == Overlay(FileOf(files, ContentDir, d.uuid), BlockStart(bs, r.start),
                    SealFlat(suite, s'.keys, bs, r.start, w'))
    ensures Stored(suite, bs, files', d', Splice(f, offset, data))
  {
    WrittenKeysFit(suite, bs, f, offset, data, s, s');
    WrittenReseals(suite, bs, f, offset, data, s, s');
    hide Written, Splice, KeysFit, SealFlat, LoadedPart, BlockStart, Overlay, HasKeys, BlockRequired;
  }

  lemma StoredKeyed(suite: CipherSuite, bs: nat, files: Files, f: Bytes, offset: nat, data: Bytes, d: NodeData,
                    s: Snapshot, s': Snapshot)
    requires Stored(suite, bs, files, d, f) && s.keys == d.keys && Written(suite, bs, f, offset, data, s, s')
    requires BlockStart(bs, offset / bs) <= |f| && (data == [] && offset > 0 ==> offset % bs > 0)
    ensures s'.keys != map[] <==> s.keys != map[] || Splice(f, offset, data) != []
  {
    hide Written, Splice, KeysFit, SealFlat, BlockStart;
    WrittenKeyed(suite, bs, f, offset, data, s, s');
  }

  // ----- truncating -----

  lemma StoredKeys(suite: CipherSuite, bs: nat, files: Files, d: NodeData, f: Bytes)
    requires Stored(suite, bs, files, d, f)
    ensures bs > 0 && ContiguousKeys(d.keys) && |d.keys| < SIZE_T_LIMIT
    ensures d.keys != map[] ==> (ContentDir, d.uuid) in files
  {
    KeysAreFew(d.keys, bs, f);
  }

  lemma OneKeyFits(keys: map<nat, CtrContext>, bs: nat)
    requires ContiguousKeys(keys) && 0 in keys
    ensures KeysFit(map[0 := keys[0]], bs, []) && ContiguousKeys(map[0 := keys[0]]) && |map[0 := keys[0]]| == 1
  {
    assert map[0 := keys[0]].Keys == {0};
  }

  lemma EmptiedFits(suite: CipherSuite, bs: nat, files: Files, d: NodeData, f: Bytes)
    requires Stored(suite, bs, files, d, f) && WellFormed(FilenodeClass, d) && 0 in d.keys
    ensures FileSection(|NodeSection(d)|, bs, 0, true) < SECTION_LIMIT
  {
    hide NodeSection, Sensitive, KeysFit, SealFlat;
    FileSectionExact(bs, d, f);
  }

  lemma EmptiedWellFormed(suite: CipherSuite, bs: nat, files: Files, d: NodeData, d': NodeData, f: Bytes)
    requires Stored(suite, bs, files, d, f) && WellFormed(FilenodeClass, d)
    requires 0 in d.keys && d' == d.(keys := map[0 := d.keys[0]], fileSize := 0)
    ensures WellFormed(FilenodeClass, d') && NodeSection(d') == NodeSection(d)
    ensures ContiguousKeys(d'.keys) && |d'.keys| == 1 && (ContentDir, d.uuid) in files
  {
    hide Stored, WellFormed, KeysFit, NodeSection, FileSection, ContiguousKeys;
    StoredKeys(suite, bs, files, d, f);
    OneKeyFits(d.keys, bs);
    TimesFit(d);
    EmptiedFits(suite, bs, files, d, f);
    StaysWellFormed(bs, d, d', []);
  }

  /** A file truncated to nothing that keeps the key of block 0. */
  lemma EmptyStored(suite: CipherSuite, bs: nat, files: Files, d: NodeData)
    requires bs > 0 && d.fileSize == 0 && |d.keys| <= 1 && ContiguousKeys(d.keys)
    requires (ContentDir, d.uuid) in files && files[(ContentDir, d.uuid)] == []
    ensures Stored(suite, bs, files, d, [])
  {
    assert HasKeys(d.keys, bs, 0, []);
  }

  lemma GrownWellFormed(d: NodeData, size: nat)
    requires WellFormed(FilenodeClass, d) && size < SIZE_T_LIMIT
    ensures WellFormed(FilenodeClass, d.(fileSize := size))
  {
    SameSection(d, d.(fileSize := size));
    hide NodeSection;
  }

  /** A size that is not that of the content file stands for no file at all. */
  lemma GrownStandsForNothing(suite: CipherSuite, root: GcmState, bs: nat, files: Files, files': Files,
                              d: NodeData, d': NodeData, f: Bytes, g: Bytes)
    requires Stored(suite, bs, files, d, f) && d'.uuid == d.uuid && d'.fileSize > |f|
    requires files' == files[(MetaDir, d.uuid) := FileOf(files', MetaDir, d.uuid)]
    ensures !Stands(suite, root, bs, files', d', g)
  {
    hide LoadsAs, WellFormed, KeysFit;
  }

  /** The metadata file tells of another size than the content file has. */
  ghost predicate Outgrown(suite: CipherSuite, root: GcmState, files: Files, d: NodeData) {
    && d.typ == FILENODE_TYPE && d.fileSize != |FileOf(files, ContentDir, d.uuid)|
    && LoadsAs(suite, root, FilenodeClass, FileOf(files, MetaDir, d.uuid), d)
  }

  lemma GrownIsOutgrown(suite: CipherSuite, root: GcmState, bs: nat, files: Files, files': Files, d: NodeData,
                        d': NodeData, f: Bytes)
    requires Stored(suite, bs, files, d, f) && d'.uuid == d.uuid && d'.fileSize > |f| && WellFormed(FilenodeClass, d')
    requires files' == files[(MetaDir, d.uuid) := FileOf(files', MetaDir, d.uuid)]
    requires LoadsAs(suite, root, FilenodeClass, FileOf(files', MetaDir, d.uuid), d')
    ensures Outgrown(suite, root, files', d')
  {
    hide LoadsAs, KeysFit, NodeSection, Sensitive;
  }

  // ----- opening again -----

  /** The blob on disk loads as the node, but for the times; so loaded, it stands for the same file. */
  lemma StandsLoads(suite: CipherSuite, root: GcmState, bs: nat, files: Files, d: NodeData, f: Bytes)
    requires Stands(suite, root, bs, files, d, f)
    ensures exists d1 :: LoadsAs(suite, root, FilenodeClass, FileOf(files, MetaDir, d.uuid), d1)
                         && d1.typ == FILENODE_TYPE && ValidKeys(d1.keys) && SameButTimes(d1, d)
                         && Stands(suite, root, bs, files, d1, f)
  {
    var d1 :| LoadsAs(suite, root, FilenodeClass, FileOf(files, MetaDir, d.uuid), d1) && SameButTimes(d1, d);
    LoadedTimesFit(suite, root, FilenodeClass, FileOf(files, MetaDir, d.uuid), d1);
    TimesMayDiffer(suite, root, bs, files, d, d1, f);
    hide LoadsAs, KeysFit, SealFlat, NodeSection, FileOf;
  }

  // ----- a new file -----

  const PATH_LIMIT: nat := 0x4000_0000

  /** The node part of a file node's section with one entitlement, its path aside. */
  const OWNED_SECTION: nat := 8 + 1 + 8 + UUID_SIZE + 4

  lemma OwnerSection(d: NodeData, owner: Bytes)
    requires d.typ == FILENODE_TYPE && |d.path| < PATH_LIMIT && d.entitlements.Keys == {owner}
    ensures |NodeSection(d)| == |d.path| + OWNED_SECTION
  {
    ItemsBack(d.entitlements);
    FixedSizeExact(Items(d.entitlements), EntitlementRecord, UUID_SIZE + 4);
    assert |d.entitlements| == |d.entitlements.Keys| == 1;
    hide Items, EncodeAll;
  }

  lemma NewFileWellFormed(d: NodeData, owner: Bytes)
    requires d.typ == FILENODE_TYPE && |d.uuid| == UUID_SIZE && |d.path| < PATH_LIMIT && UuidText(owner)
    requires d.atime < SIZE_T_LIMIT && d.mtime < SIZE_T_LIMIT && d.ctime < SIZE_T_LIMIT && d.fileSize == 0
    requires d.entries == map[] && d.keys == map[] && d.users == map[]
    requires d.entitlements.Keys == {owner}
    ensures WellFormed(FilenodeClass, d) && |NodeSection(d)| == |d.path| + OWNED_SECTION
  {
    hide NodeSection, Sensitive;
    OwnerSection(d, owner);
    SectionParts(d);
    BlockKeysAt(d.keys);
  }

  lemma NewFileStored(suite: CipherSuite, bs: nat, files: Files, d: NodeData)
    requires bs > 0 && d.keys == map[] && d.fileSize == 0 && (ContentDir, d.uuid) !in files
    ensures Stored(suite, bs, files, d, [])
  {
  }
}
