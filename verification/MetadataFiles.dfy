/** A metadata file and the node it loads as. */
module MetadataFiles {
  import opened ByteStrings
  import opened Options
  import opened Crypto
  import opened Codec
  import opened SealedMetadata
  import opened NodeRecords
  import opened NodeRoundTrip

  /** Loading `file` into a fresh node, under the root key with any tag in it, gives `d`. */
  ghost predicate LoadsAs(suite: CipherSuite, root: GcmState, cls: Class, file: Bytes, d: NodeData) {
    forall d0: NodeData, mac: Bytes | Fresh(cls, d0) ::
      var p := OpenNode(suite, root.(mac := mac), cls, d0, file);
      p.Done? && p.value.0 == d
  }

  lemma LoadsUnderAnyTag(suite: CipherSuite, root: GcmState, root': GcmState, cls: Class, file: Bytes, d: NodeData)
    requires LoadsAs(suite, root, cls, file, d) && root' == root.(mac := root'.mac)
    ensures LoadsAs(suite, root', cls, file, d)
  {
    hide OpenNode;
    forall d0: NodeData, mac: Bytes | Fresh(cls, d0)
      ensures OpenNode(suite, root'.(mac := mac), cls, d0, file).Done?
      ensures OpenNode(suite, root'.(mac := mac), cls, d0, file).value.0 == d
    {
      assert root'.(mac := mac) == root.(mac := mac);
    }
  }

  lemma PrefixOfOverlay(older: Bytes, blob: Bytes)
    ensures blob <= Overlay(older, 0, blob)
  {
  }

  lemma SealedLoadsAs(suite: CipherSuite, root: GcmState, root': GcmState, ctx: GcmState, cls: Class, d: NodeData,
                      file: Bytes)
    requires WellFormed(cls, d) && ctx.Valid() && root'.key == root.key && root'.iv == root.iv
    requires SealNode(suite, root, ctx, cls, d) <= file
    ensures LoadsAs(suite, root', cls, file, d)
  {
    forall d0: NodeData, mac: Bytes | Fresh(cls, d0)
      ensures OpenNode(suite, root'.(mac := mac), cls, d0, file).Done?
      ensures OpenNode(suite, root'.(mac := mac), cls, d0, file).value.0 == d
    {
      NodeBack(suite, root, root'.(mac := mac), ctx, cls, d, d0, file);
    }
  }

  lemma LoadGives(suite: CipherSuite, root: GcmState, cls: Class, file: Bytes, d0: NodeData)
    requires Fresh(cls, d0)
    ensures forall d :: LoadsAs(suite, root, cls, file, d) ==>
      OpenNode(suite, root, cls, d0, file).Done? && OpenNode(suite, root, cls, d0, file).value.0 == d
  {
    hide OpenNode;
    assert root == root.(mac := root.mac);
  }

  lemma SensitiveKeepsPreamble(cls: Class, d: NodeData, s: Bytes)
    requires TakeSensitive(cls, d, s).Done?
    ensures var d' := TakeSensitive(cls, d, s).value;
      d'.typ == d.typ && d'.atime == d.atime && d'.mtime == d.mtime && d'.ctime == d.ctime
  {
    hide TakeList, TakeText, InsertAll;
  }

  lemma OpenedType(suite: CipherSuite, root: GcmState, cls: Class, d0: NodeData, file: Bytes)
    requires OpenNode(suite, root, cls, d0, file).Done?
    ensures |file| >= 4 && FromLittleEndian(file[..4]) == OpenNode(suite, root, cls, d0, file).value.0.typ
  {
    hide OpenCrypto, OpenSection, TakeSensitive, Preamble;
    var (d1, s1) := TakePreamble(cls, d0, file).Extract();
    var (ctx, s2) := OpenCrypto(suite, root, s1).Extract();
    SensitiveKeepsPreamble(cls, d1, OpenSection(suite, ctx, Preamble(cls, d1), s2).value);
  }

  /** The class that a blob announces in its first four bytes, if `load_metadata` knows it. */
  function Announced(file: Bytes): Option<Class>
    requires |file| >= 4
  {
    var typ := FromLittleEndian(file[..4]);
    if typ == FILENODE_TYPE then Some(FilenodeClass)
    else if typ == DirnodeClass.Code() then Some(DirnodeClass)
    else None
  }

  /** `load_metadata`: what a file gives, a missing one reading as empty. */
  function LoadFile(suite: CipherSuite, root: GcmState, file: Bytes): Parsed<(Class, NodeData)> {
    if file == [] then Rejected
    else if |file| < 4 then Fault
    else if Announced(file).None? then Rejected
    else
      var cls := Announced(file).value;
      var (node, rest) :- OpenNode(suite, root, cls, Blank(cls), file);
      Done((cls, node.0), rest)
  }

  /** A file that loads announces the type of its node in its first four bytes. */
  lemma LoadedTypes(suite: CipherSuite, root: GcmState, file: Bytes)
    ensures forall cls, d :: LoadsAs(suite, root, cls, file, d) ==> |file| >= 4 && FromLittleEndian(file[..4]) == d.typ
  {
    forall cls, d | LoadsAs(suite, root, cls, file, d)
      ensures |file| >= 4 && FromLittleEndian(file[..4]) == d.typ
    {
      var d0 := Blank(cls);
      LoadGives(suite, root, cls, file, d0);
      OpenedType(suite, root, cls, d0, file);
    }
  }

  /** A file that loads as a file or directory node gives that node. */
  lemma LoadsAsLoaded(suite: CipherSuite, root: GcmState, cls: Class, file: Bytes, d: NodeData)
    requires LoadsAs(suite, root, cls, file, d) && cls != SupernodeClass && d.typ == cls.Code()
    ensures LoadFile(suite, root, file).Done? && LoadFile(suite, root, file).value == (cls, d)
  {
    hide OpenNode;
    LoadedTypes(suite, root, file);
    LoadGives(suite, root, cls, file, Blank(cls));
  }

  /** A file that loads as a supernode is not taken. */
  lemma SupernodeNotLoaded(suite: CipherSuite, root: GcmState, file: Bytes, d: NodeData)
    requires LoadsAs(suite, root, SupernodeClass, file, d) && d.typ == SupernodeClass.Code()
    ensures LoadFile(suite, root, file) == Rejected
  {
    hide OpenNode;
    LoadedTypes(suite, root, file);
  }

  lemma OpenedTimesFit(suite: CipherSuite, root: GcmState, cls: Class, d0: NodeData, file: Bytes)
    requires OpenNode(suite, root, cls, d0, file).Done?
    ensures var d := OpenNode(suite, root, cls, d0, file).value.0;
      d.atime < SIZE_T_LIMIT && d.mtime < SIZE_T_LIMIT && d.ctime < SIZE_T_LIMIT
  {
    hide OpenCrypto, OpenSection, TakeSensitive, Preamble;
    Widths();
    var (d1, s1) := TakePreamble(cls, d0, file).Extract();
    var (ctx, s2) := OpenCrypto(suite, root, s1).Extract();
    SensitiveKeepsPreamble(cls, d1, OpenSection(suite, ctx, Preamble(cls, d1), s2).value);
    var s := file[4..][UUID_SIZE..];
    FromLittleEndianFits(s[..8]);
    FromLittleEndianFits(s[8..][..8]);
    FromLittleEndianFits(s[8..][8..][..8]);
  }

  /** A time that is loaded is eight bytes wide. */
  lemma LoadedTimesFit(suite: CipherSuite, root: GcmState, cls: Class, file: Bytes, d: NodeData)
    requires LoadsAs(suite, root, cls, file, d)
    ensures d.atime < SIZE_T_LIMIT && d.mtime < SIZE_T_LIMIT && d.ctime < SIZE_T_LIMIT
  {
    var d0 := Blank(cls);
    LoadGives(suite, root, cls, file, d0);
    OpenedTimesFit(suite, root, cls, d0, file);
  }
}
