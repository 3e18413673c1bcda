/** `Node` and its subclasses: the objects that dump themselves to, and load themselves from, a metadata blob. */
module Nodes {
  import opened ByteStrings
  import opened Orders
  import opened Crypto
  import opened Codec
  import opened SealedMetadata
  import opened Blocks
  import opened NodeRecords
  import opened NodeRoundTrip
  import opened FilenodeContents

  lemma EncodeNext<T>(xs: seq<T>, i: nat, enc: T -> Bytes)
    requires i < |xs|
    ensures EncodeAll(xs[..i + 1], enc) == EncodeAll(xs[..i], enc) + enc(xs[i])
    ensures |EncodeAll(xs[..i + 1], enc)| <= |EncodeAll(xs, enc)|
    decreases |xs|
  {
    assert xs[..i + 1][..i] == xs[..i];
    if i + 1 < |xs| {
      EncodeNext(xs[..|xs| - 1], i, enc);
      assert xs[..|xs| - 1][..i + 1] == xs[..i + 1];
    } else {
      assert xs[..i + 1] == xs;
    }
  }

  /** Writes a list: its length, then record after record. */
  method DumpList<T>(xs: seq<T>, enc: T -> Bytes, buffer: array<Byte>, base: nat, ghost before: Bytes,
                     ghost done: Bytes, written: nat)
      returns (written': nat)
    requires written == |done| && base + written + |List(xs, enc)| <= buffer.Length == |before|
    requires buffer[..] == Overlay(before, base, done)
    modifies buffer
    ensures written' == |done + List(xs, enc)|
    ensures buffer[..] == Overlay(before, base, done + List(xs, enc))
  {
    written' := Append(buffer, base, before, done, written, Size(|xs|));
    var i := 0;
    assert done + Size(|xs|) == done + (Size(|xs|) + EncodeAll(xs[..0], enc));
    hide Overlay;
    while i < |xs|
      invariant 0 <= i <= |xs| && written' == |done| + 8 + |EncodeAll(xs[..i], enc)|
      invariant buffer[..] == Overlay(before, base, done + (Size(|xs|) + EncodeAll(xs[..i], enc)))
    {
      EncodeNext(xs, i, enc);
      ghost var sofar := done + (Size(|xs|) + EncodeAll(xs[..i], enc));
      assert sofar + enc(xs[i]) == done + (Size(|xs|) + EncodeAll(xs[..i + 1], enc));
      written' := Append(buffer, base, before, sofar, written', enc(xs[i]));
      i := i + 1;
    }
    assert xs[..|xs|] == xs;
  }

  /** Writes a length-prefixed C string at the start of the buffer. */
  method DumpText(t: Bytes, buffer: array<Byte>, ghost before: Bytes) returns (written: nat)
    requires |Text(t)| <= buffer.Length && buffer[..] == before
    modifies buffer
    ensures written == |Text(t)| && buffer[..] == Overlay(before, 0, Text(t))
  {
    OverlayNothing(before, 0);
    hide Overlay;
    written := Append(buffer, 0, before, [], 0, Size(|t| + 1));
    assert [] + Size(|t| + 1) == Size(|t| + 1);
    written := Append(buffer, 0, before, Size(|t| + 1), written, t + [0]);
  }

  lemma {:induction false} DecodeFails<T>(s: Bytes, i: nat, n: nat, dec: Bytes -> Parsed<T>)
    requires i <= n && !DecodeAll(s, i, dec).Done?
    ensures DecodeAll(s, n, dec) == DecodeAll(s, i, dec)
  {
    if i < n {
      DecodeFails(s, i, n - 1, dec);
    }
  }

  /** In a buffer of exactly the announced size the sections are contiguous. */
  lemma ExactBlob(prior: Bytes, pre: Bytes, tail: Bytes)
    requires |prior| == |pre| + |tail|
    ensures Overlay(Overlay(prior, 0, pre), |prior| - |tail|, tail) == pre + tail
  {
  }

  lemma PreambleLayout(cls: Class, d: NodeData)
    ensures var head := [] + LittleEndian(d.typ, 4) + d.uuid + Size(d.atime) + Size(d.mtime) + Size(d.ctime);
      Preamble(cls, d) == if cls == FilenodeClass then head + Size(d.fileSize) else head
  {
    hide LittleEndian;
  }

  lemma PreambleFields(cls: Class, d: NodeData, s: Bytes)
    ensures if |s| < PreambleSize(cls) then TakePreamble(cls, d, s).Fault? else
      var s1 := s[4..][UUID_SIZE..];
      var s2 := s1[8..][8..][8..];
      TakePreamble(cls, d, s) == Done(
        d.(typ := FromLittleEndian(s[..4]), uuid := s[4..][..UUID_SIZE], atime := FromLittleEndian(s1[..8]),
           mtime := FromLittleEndian(s1[8..][..8]), ctime := FromLittleEndian(s1[8..][8..][..8]),
           fileSize := if cls == FilenodeClass then FromLittleEndian(s2[..8]) else d.fileSize),
        if cls == FilenodeClass then s2[8..] else s2)
  {
    hide FromLittleEndian;
  }

  lemma NodeSectionLayout(d: NodeData)
    ensures var rights := List(Items(d.entitlements), EntitlementRecord);
      NodeSection(d) == if d.typ == FILENODE_TYPE then Text(d.path) + rights
                        else Text(d.path) + List(Items(d.entries), EntryRecord) + rights
  {
    hide List, Text;
    assert Text(d.path) + ([] + List(Items(d.entitlements), EntitlementRecord))
        == Text(d.path) + List(Items(d.entitlements), EntitlementRecord);
  }

  /** The first index that `truncate_keys` looks up: a `size_t` subtraction. */
  function LastKeyIndex(keys: nat): nat {
    (keys - 1) % SIZE_T_LIMIT
  }

  /**
   The lookups of `truncate_keys` to size 0, from that index down to 1, all succeed exactly when the file has a
   key.
   */
  lemma TruncationFindsKeys(keys: map<nat, CtrContext>)
    requires ContiguousKeys(keys) && |keys| < SIZE_T_LIMIT
    ensures (forall index: nat :: 0 < index <= LastKeyIndex(|keys|) ==> index in keys) <==> keys != map[]
  {
    if keys == map[] {
      assert LastKeyIndex(|keys|) > 0 && LastKeyIndex(|keys|) !in keys;
    }
  }

  /** A file without keys: the first index is the largest `size_t`, and no key has it. */
  lemma NoKeyFoundExample()
    ensures var keys: map<nat, CtrContext> := map[];
      LastKeyIndex(|keys|) == 0xFFFF_FFFF_FFFF_FFFF && LastKeyIndex(|keys|) !in keys
  {
  }

  class Node {
    const cls: Class
    const meta: Metadata
    const keys: KeyTable
    const content: FilenodeContent
    var typ: nat
    var uuid: Bytes
    var atime: nat
    var mtime: nat
    var ctime: nat
    var path: Bytes
    var entries: map<Bytes, Bytes>
    var entitlements: map<Bytes, Rights>
    var users: map<Bytes, User>

    function Data(): NodeData
      reads this, keys, content
    {
      NodeData(typ, uuid, atime, mtime, ctime, path, entries, entitlements, content.size, keys.entries, users)
    }

    ghost predicate Valid()
      reads this, keys, content, meta, meta.rootKey, meta.ctx
    {
      meta.Valid() && content.keys == keys && content.Valid() && content.suite == meta.suite
    }

    /** A node object before it is loaded; only a file node uses the keys and the content. */
    constructor (cls: Class, suite: CipherSuite, rootKey: GcmContext, blockSize: nat)
      requires rootKey.state.Valid() && blockSize > 0
      ensures Valid() && Data() == Blank(cls) && this.cls == cls
      ensures fresh(keys) && fresh(content) && fresh(meta) && fresh(meta.ctx)
      ensures meta.suite == suite && meta.rootKey == rootKey && content.blockSize == blockSize
      ensures content.plain == map[] && content.cipher == map[]
    {
      this.cls := cls;
      typ, path := cls.Code(), [];
      uuid := Zeros(UUID_SIZE);
      atime, mtime, ctime := 0, 0, 0;
      entries, entitlements, users := map[], map[], map[];
      meta := new Metadata(suite, rootKey);
      var table := new KeyTable();
      keys := table;
      content := new FilenodeContent(suite, blockSize, table);
    }

    /** Only a truncation to size 0 is supported; it keeps the key of block 0, and it needs one. */
    method TruncateKeys(newSize: nat) returns (r: int)
      requires content.blockSize > 0 && ContiguousKeys(keys.entries) && |keys.entries| < SIZE_T_LIMIT
      requires newSize == 0 ==> keys.entries != map[]
      modifies keys
      ensures if newSize > 0 then r == -1 && keys.entries == old(keys.entries)
              else r == 0 && 0 in old(keys.entries) && keys.entries == map[0 := old(keys.entries)[0]]
    {
      if newSize > content.size || newSize != 0 {
        return -1;
      }
      var end, index := BlockRequired(content.blockSize, 0, newSize).end, LastKeyIndex(|keys.entries|);
      assert index in keys.entries && end == 0;
      while index > end
        invariant forall i: nat :: i in keys.entries <==> i <= index
        invariant index in old(keys.entries)
        invariant forall i: nat ::
          i in keys.entries ==> i in old(keys.entries) && keys.entries[i] == old(keys.entries)[i]
      {
        assert index in keys.entries;
        keys.entries := keys.entries - {index};
        index := index - 1;
      }
      r := 0;
    }

    method PDumpPreamble(buffer: array<Byte>) returns (written: nat)
      requires |uuid| == UUID_SIZE && |Preamble(cls, Data())| <= buffer.Length
      modifies buffer
      ensures written == |Preamble(cls, Data())|
      ensures buffer[..] == Overlay(old(buffer[..]), 0, Preamble(cls, Data()))
    {
      hide Overlay, Preamble, LittleEndian;
      ghost var before := buffer[..];
      PreambleLayout(cls, Data());
      OverlayNothing(before, 0);
      written := Append(buffer, 0, before, [], 0, LittleEndian(typ, 4));
      written := Append(buffer, 0, before, [] + LittleEndian(typ, 4), written, uuid);
      ghost var done := [] + LittleEndian(typ, 4) + uuid;
      written := Append(buffer, 0, before, done, written, Size(atime));
      written := Append(buffer, 0, before, done + Size(atime), written, Size(mtime));
      done := done + Size(atime) + Size(mtime);
      written := Append(buffer, 0, before, done, written, Size(ctime));
      if cls == FilenodeClass {
        written := Append(buffer, 0, before, done + Size(ctime), written, Size(content.size));
      }
    }

    /** `Node::p_dump_sensitive`. */
    method DumpNodeSection(buffer: array<Byte>) returns (written: nat)
      requires |NodeSection(Data())| <= buffer.Length
      modifies buffer
      ensures written == |NodeSection(Data())|
      ensures buffer[..] == Overlay(old(buffer[..]), 0, NodeSection(Data()))
    {
      hide Overlay, NodeSection, List, Text;
      ghost var before := buffer[..];
      NodeSectionLayout(Data());
      written := DumpText(path, buffer, before);
      ghost var done := Text(path);
      if typ != FILENODE_TYPE {
        written := DumpList(Items(entries), EntryRecord, buffer, 0, before, done, written);
        done := done + List(Items(entries), EntryRecord);
      }
      written := DumpList(Items(entitlements), EntitlementRecord, buffer, 0, before, done, written);
    }

    /** `p_dump_sensitive` of the class. */
    method PDumpSensitive(buffer: array<Byte>) returns (written: nat)
      requires |Sensitive(cls, Data())| <= buffer.Length
      modifies buffer
      ensures written == |Sensitive(cls, Data())|
      ensures buffer[..] == Overlay(old(buffer[..]), 0, Sensitive(cls, Data()))
    {
      ghost var before, done := buffer[..], NodeSection(Data());
      written := DumpNodeSection(buffer);
      hide Overlay, NodeSection;
      match cls
      case SupernodeClass =>
        written := DumpList(Values(users), UserRecord, buffer, 0, before, done, written);
      case DirnodeClass =>
        assert done + [] == done;
      case FilenodeClass =>
        written := DumpList(BlockKeys(keys.entries), KeyRecord, buffer, 0, before, done, written);
    }

    /** The plain section and the associated data that `e_dump_sensitive` encrypts. */
    method PlainSections() returns (pre: Bytes, sens: Bytes)
      requires |uuid| == UUID_SIZE
      requires |Preamble(cls, Data())| == PreambleSize(cls) && |Sensitive(cls, Data())| == SensitiveSize(cls, Data())
      ensures pre == Preamble(cls, Data()) && sens == Sensitive(cls, Data())
    {
      hide Overlay, Preamble, Sensitive, PreambleSize, SensitiveSize;
      var plain := new Byte[SensitiveSize(cls, Data())];
      var aad := new Byte[PreambleSize(cls)];
      OverlayAll(plain[..], Sensitive(cls, Data()));
      OverlayAll(aad[..], Preamble(cls, Data()));
      var plainSize := PDumpSensitive(plain);
      var aadSize := PDumpPreamble(aad);
      pre, sens := aad[..], plain[..];
    }

    /** `e_dump`: refuses a buffer that is too small; in a larger one everything but the preamble goes to the end. */
    method EDump(buffer: array<Byte>) returns (r: int)
      requires Valid() && WellFormed(cls, Data())
      modifies buffer, meta.rootKey, meta.ctx
      ensures Valid()
      ensures var pre, sens := Preamble(cls, Data()), Sensitive(cls, Data());
        if buffer.Length < SealedSize(pre, sens) then
          r == -1 && buffer[..] == old(buffer[..])
          && meta.ctx.state == old(meta.ctx.state) && meta.rootKey.state == old(meta.rootKey.state)
        else
          var tail := SealedTail(meta.suite, old(meta.rootKey.state), old(meta.ctx.state), pre, sens);
          && r == SealedSize(pre, sens) == |pre| + |tail| < 0x8000_0000
          && meta.ctx.state == old(meta.ctx.state).(mac := SectionMac(meta.suite, old(meta.ctx.state), pre, sens))
          && meta.rootKey.state
             == old(meta.rootKey.state).(mac := RootMac(meta.suite, old(meta.rootKey.state), meta.ctx.state))
          && buffer[..] == Overlay(Overlay(old(buffer[..]), 0, pre), buffer.Length - |tail|, tail)
    {
      hide Overlay, Preamble, Sensitive, SealedTail, SectionMac, RootMac, WellFormed, NodeSize, SealNode;
      SizesExact(meta.suite, meta.rootKey.state, meta.ctx.state, cls, Data());
      if buffer.Length < NodeSize(cls, Data()) {
        return -1;
      }
      UuidFits(cls, Data());
      SizeFitsInt(cls, Data());
      SectionFits(cls, Data());
      var pre, sens := PlainSections();
      TailSize(meta.suite, meta.rootKey.state, meta.ctx.state, pre, sens);
      var written := PDumpPreamble(buffer);
      meta.EDumpTail(pre, sens, buffer);
      r := NodeSize(cls, Data());
    }

    /** `e_dump` into a buffer of exactly `e_size` bytes, where the sections are contiguous. */
    method EDumpExact() returns (blob: Bytes)
      requires Valid() && WellFormed(cls, Data())
      modifies meta.rootKey, meta.ctx
      ensures Valid()
      ensures blob == SealNode(meta.suite, old(meta.rootKey.state), old(meta.ctx.state), cls, Data())
      ensures meta.rootKey.state == old(meta.rootKey.state).(mac := meta.rootKey.state.mac)
      ensures meta.ctx.state == old(meta.ctx.state).(mac := meta.ctx.state.mac)
    {
      hide Overlay, Preamble, Sensitive, SealedTail, SectionMac, RootMac, SealedSize, FilenodeContent.Valid;
      hide WellFormed, NodeSize;
      SizesExact(meta.suite, meta.rootKey.state, meta.ctx.state, cls, Data());
      var size := NodeSize(cls, Data());
      var buffer := new Byte[size];
      ghost var before, pre := buffer[..], Preamble(cls, Data());
      ghost var tail := SealedTail(meta.suite, meta.rootKey.state, meta.ctx.state, pre, Sensitive(cls, Data()));
      var dumped := EDump(buffer);
      ExactBlob(before, pre, tail);
      blob := buffer[..];
    }

    method PLoadPreamble(s: Bytes) returns (r: Parsed<()>)
      modifies this, content`size
      ensures var p := TakePreamble(cls, old(Data()), s);
        if p.Done? then r == Done((), p.rest) && Data() == p.value else p.Fault? && r == Fault && Data() == old(Data())
    {
      hide TakePreamble, FromLittleEndian;
      PreambleFields(cls, Data(), s);
      if |s| < PreambleSize(cls) {
        return Fault;
      }
      typ, uuid := FromLittleEndian(s[..4]), s[4..][..UUID_SIZE];
      var rest := s[4..][UUID_SIZE..];
      atime, mtime := FromLittleEndian(rest[..8]), FromLittleEndian(rest[8..][..8]);
      ctime := FromLittleEndian(rest[8..][8..][..8]);
      rest := rest[8..][8..][8..];
      if cls == FilenodeClass {
        content.size := FromLittleEndian(rest[..8]);
        rest := rest[8..];
      }
      r := Done((), rest);
    }

    method LoadEntries(s: Bytes) returns (r: Parsed<()>)
      modifies this`entries
      ensures var p := TakeList(s, TakeEntry);
        if p.Done? then r == Done((), p.rest) && entries == InsertAll(old(entries), p.value)
        else (r.Rejected? <==> p.Rejected?) && (r.Fault? <==> p.Fault?)
    {
      if |s| < 8 {
        return Fault;
      }
      var n, rest := FromLittleEndian(s[..8]), s[8..];
      ghost var body, xs := rest, [];
      var i: nat := 0;
      while i < n
        invariant i <= n && DecodeAll(body, i, TakeEntry) == Done(xs, rest) && |xs| == i
        invariant entries == InsertAll(old(entries), xs)
      {
        var p := TakeEntry(rest);
        if !p.Done? {
          DecodeFails(body, i + 1, n, TakeEntry);
          return p.PropagateFailure();
        }
        assert (xs + [p.value])[..|xs|] == xs;
        entries := Insert(entries, p.value.0, p.value.1);
        xs, rest, i := xs + [p.value], p.rest, i + 1;
      }
      r := Done((), rest);
    }

    method LoadEntitlements(s: Bytes) returns (r: Parsed<()>)
      modifies this`entitlements
      ensures var p := TakeList(s, TakeEntitlement);
        if p.Done? then r == Done((), p.rest) && entitlements == InsertAll(old(entitlements), p.value)
        else (r.Rejected? <==> p.Rejected?) && (r.Fault? <==> p.Fault?)
    {
      if |s| < 8 {
        return Fault;
      }
      var n, rest := FromLittleEndian(s[..8]), s[8..];
      ghost var body, xs := rest, [];
      var i: nat := 0;
      while i < n
        invariant i <= n && DecodeAll(body, i, TakeEntitlement) == Done(xs, rest) && |xs| == i
        invariant entitlements == InsertAll(old(entitlements), xs)
      {
        var p := TakeEntitlement(rest);
        if !p.Done? {
          DecodeFails(body, i + 1, n, TakeEntitlement);
          return p.PropagateFailure();
        }
        assert (xs + [p.value])[..|xs|] == xs;
        entitlements := Insert(entitlements, p.value.0, p.value.1);
        xs, rest, i := xs + [p.value], p.rest, i + 1;
      }
      r := Done((), rest);
    }

    method LoadKeys(s: Bytes) returns (r: Parsed<()>)
      modifies keys
      ensures var p := TakeList(s, TakeKey);
        if p.Done? then r == Done((), p.rest) && keys.entries == InsertAll(old(keys.entries), Indexed(p.value))
        else (r.Rejected? <==> p.Rejected?) && (r.Fault? <==> p.Fault?)
    {
      if |s| < 8 {
        return Fault;
      }
      var n, rest := FromLittleEndian(s[..8]), s[8..];
      ghost var body, xs := rest, [];
      var i: nat := 0;
      while i < n
        invariant i <= n && DecodeAll(body, i, TakeKey) == Done(xs, rest) && |xs| == i
        invariant keys.entries == InsertAll(old(keys.entries), Indexed(xs))
      {
        var p := TakeKey(rest);
        if !p.Done? {
          DecodeFails(body, i + 1, n, TakeKey);
          return p.PropagateFailure();
        }
        assert Indexed(xs + [p.value])[..|xs|] == Indexed(xs);
        keys.entries := Insert(keys.entries, i, p.value);
        xs, rest, i := xs + [p.value], p.rest, i + 1;
      }
      r := Done((), rest);
    }

    method LoadUsers(s: Bytes) returns (r: Parsed<()>)
      modifies this`users
      ensures var p := TakeList(s, TakeUser);
        if p.Done? then r == Done((), p.rest) && users == InsertAll(old(users), ByUuid(p.value))
        else (r.Rejected? <==> p.Rejected?) && (r.Fault? <==> p.Fault?)
    {
      if |s| < 8 {
        return Fault;
      }
      var n, rest := FromLittleEndian(s[..8]), s[8..];
      ghost var body, xs := rest, [];
      var i: nat := 0;
      while i < n
        invariant i <= n && DecodeAll(body, i, TakeUser) == Done(xs, rest) && |xs| == i
        invariant users == InsertAll(old(users), ByUuid(xs))
      {
        var p := TakeUser(rest);
        if !p.Done? {
          DecodeFails(body, i + 1, n, TakeUser);
          return p.PropagateFailure();
        }
        assert ByUuid(xs + [p.value])[..|xs|] == ByUuid(xs);
        users := Insert(users, CString(p.value.uuid), p.value);
        xs, rest, i := xs + [p.value], p.rest, i + 1;
      }
      r := Done((), rest);
    }

    /** `Node::p_load_sensitive`. */
    method LoadNodeSection(s: Bytes) returns (r: Parsed<()>)
      modifies this`path, this`entries, this`entitlements
      ensures var p := TakeNodeSection(old(Data()), s);
        if p.Done? then r == Done((), p.rest) && Data() == p.value
        else (r.Rejected? <==> p.Rejected?) && (r.Fault? <==> p.Fault?)
    {
      if |s| < 8 {
        return Rejected;
      }
      var text := TakeText(s, true, 0);
      if !text.Done? {
        return text.PropagateFailure();
      }
      path := text.value;
      var rest := text.rest;
      if typ != FILENODE_TYPE {
        var e := LoadEntries(rest);
        if !e.Done? {
          return e;
        }
        rest := e.rest;
      }
      r := LoadEntitlements(rest);
    }

    /** `p_load_sensitive` of the class. */
    method PLoadSensitive(s: Bytes) returns (r: Parsed<()>)
      modifies this, keys
      ensures var p := TakeSensitive(cls, old(Data()), s);
        if p.Done? then r == Done((), p.rest) && Data() == p.value
        else (r.Rejected? <==> p.Rejected?) && (r.Fault? <==> p.Fault?)
    {
      r := LoadNodeSection(s);
      if !r.Done? {
        return if cls == SupernodeClass then Fault else r;
      }
      match cls
      case SupernodeClass => r := LoadUsers(r.rest);
      case DirnodeClass =>
      case FilenodeClass => r := LoadKeys(r.rest);
    }

    /** `e_load`: the outcome and, on success, the state depend on the blob only, not on the tag the root key held. */
    method ELoad(s: Bytes) returns (r: Parsed<()>)
      requires Valid()
      modifies this, keys, content`size, meta.rootKey, meta.ctx
      ensures meta.Valid() && meta.rootKey.state == old(meta.rootKey.state).(mac := meta.rootKey.state.mac)
      ensures var p := OpenNode(meta.suite, old(meta.rootKey.state), cls, old(Data()), s);
        if p.Done? then r == Done((), p.rest) && Data() == p.value.0 && meta.ctx.state == p.value.1
        else (r.Rejected? <==> p.Rejected?) && (r.Fault? <==> p.Fault?)
    {
      r := PLoadPreamble(s);
      if !r.Done? {
        return;
      }
      r := meta.ELoadCrypto(r.rest);
      if !r.Done? {
        return;
      }
      var plain := meta.ELoadSensitive(Preamble(cls, Data()), r.rest);
      if !plain.Done? {
        return plain.PropagateFailure();
      }
      r := PLoadSensitive(plain.value);
      if !r.Done? {
        return;
      }
      r := if r.rest != [] then Rejected else Done((), plain.rest);
    }
  }
}
