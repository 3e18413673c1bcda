/** What lies on the untrusted host: bytes that hide the section, and bytes that load only under their tags. */
module Authenticity {
  import opened ByteStrings
  import opened Crypto
  import opened Codec
  import opened SealedMetadata
  import opened NodeRecords
  import opened NodeRoundTrip
  import opened MetadataFiles
  import opened Audits
  import opened Blocks
  import opened SealedFiles

  // ----- a blob, byte by byte -----

  /** The bytes under the keystream of a key and an initialisation vector. */
  function Unmasked(suite: CipherSuite, key: Bytes, iv: Bytes, cipher: Bytes): (plain: Bytes)
    ensures |plain| == |cipher|
  {
    seq(|cipher|, k requires 0 <= k < |cipher| => cipher[k] ^ suite.gcmStream(key, iv, k))
  }

  lemma MaskIsXor(suite: CipherSuite, key: Bytes, iv: Bytes, data: Bytes)
    ensures GcmXor(suite, key, iv, data) == Unmasked(suite, key, iv, data)
  {
    forall k: nat | k < |data|
      ensures GcmXor(suite, key, iv, data)[k] == data[k] ^ suite.gcmStream(key, iv, k)
    {
      GcmXorAt(suite, key, iv, data, k);
    }
  }

  /**
   After a preamble of `p` bytes: the tag of the crypto section at `p`, its length at `p + 16`, its ciphertext at
   `p + 24`, the length of the sensitive section at `p + 68`, and its ciphertext at `p + 76`.
   */
  function CryptoBytes(p: nat, s: Bytes): Bytes
    requires p + 76 <= |s|
  {
    s[p + 24..p + 68]
  }

  function SectionLength(p: nat, s: Bytes): nat
    requires p + 76 <= |s|
  {
    FromLittleEndian(s[p + 68..p + 76])
  }

  function SectionBytes(p: nat, s: Bytes): Bytes
    requires p + 76 <= |s| && p + 76 + SectionLength(p, s) <= |s|
  {
    s[p + 76..p + 76 + SectionLength(p, s)]
  }

  /** The context that the crypto section holds: key, initialisation vector and tag. */
  function ContextIn(suite: CipherSuite, root: GcmState, p: nat, s: Bytes): GcmState
    requires p + 76 <= |s|
  {
    var plain := Unmasked(suite, root.key, root.iv, CryptoBytes(p, s));
    GcmState(plain[..16], plain[16..28], plain[28..])
  }

  lemma TailParts(suite: CipherSuite, root: GcmState, ctx: GcmState, pre: Bytes, sens: Bytes)
    requires ctx.Valid() && |sens| < SIZE_T_LIMIT
    ensures var s, p := Seal(suite, root, ctx, pre, sens), |pre|;
            var ctx' := ctx.(mac := SectionMac(suite, ctx, pre, sens));
      && |s| == p + 76 + |sens| && s[..p] == pre && s[p..p + 16] == RootMac(suite, root, ctx')
      && s[p + 16..p + 24] == Size(44) && CryptoBytes(p, s) == GcmXor(suite, root.key, root.iv, ctx'.Encode())
      && s[p + 68..p + 76] == Size(|sens|) && s[p + 76..] == GcmXor(suite, ctx.key, ctx.iv, sens)
  {
    hide GcmXor, Size;
    var ctx' := ctx.(mac := SectionMac(suite, ctx, pre, sens));
    var mac, crypto := RootMac(suite, root, ctx'), GcmXor(suite, root.key, root.iv, ctx'.Encode());
    var section := GcmXor(suite, ctx.key, ctx.iv, sens);
    var s := Seal(suite, root, ctx, pre, sens);
    assert s == pre + (mac + ((Size(44) + crypto) + (Size(|sens|) + section)));
    assert s == pre + mac + Size(44) + crypto + Size(|sens|) + section;
  }

  lemma MaskedAt(suite: CipherSuite, key: Bytes, iv: Bytes, data: Bytes, s: Bytes, at: nat)
    requires at + |data| <= |s| && s[at..at + |data|] == GcmXor(suite, key, iv, data)
    ensures forall k :: 0 <= k < |data| ==> s[at + k] == data[k] ^ suite.gcmStream(key, iv, k)
  {
    hide GcmXor;
    forall k: nat | k < |data|
      ensures s[at + k] == data[k] ^ suite.gcmStream(key, iv, k)
    {
      GcmXorAt(suite, key, iv, data, k);
      assert s[at..at + |data|][k] == s[at + k];
    }
  }

  lemma SizeBack(n: nat)
    requires n < SIZE_T_LIMIT
    ensures FromLittleEndian(Size(n)) == n
  {
    Widths();
    LittleEndianRoundTrip(n, 8);
  }

  /** The tags of a blob authenticate the bytes beside them, and its lengths are those of its parts. */
  lemma BlobFrame(suite: CipherSuite, root: GcmState, ctx: GcmState, pre: Bytes, sens: Bytes)
    requires ctx.Valid() && |sens| < SIZE_T_LIMIT
    ensures var s, p := Seal(suite, root, ctx, pre, sens), |pre|;
      && |s| == p + 76 + |sens| && s[..p] == pre
      && FromLittleEndian(s[p + 16..p + 24]) == 44 && FromLittleEndian(s[p + 68..p + 76]) == |sens|
      && s[p..p + 16] == suite.gcmTag(root.key, root.iv, [], s[p + 24..p + 68])
  {
    TailParts(suite, root, ctx, pre, sens);
    hide Seal, GcmXor, Size, FromLittleEndian, SectionMac;
    SizeBack(44);
    SizeBack(|sens|);
  }

  /** The section lies under the keystream of the context. */
  lemma SectionMasked(suite: CipherSuite, root: GcmState, ctx: GcmState, pre: Bytes, sens: Bytes)
    requires ctx.Valid() && |sens| < SIZE_T_LIMIT
    ensures var s, p := Seal(suite, root, ctx, pre, sens), |pre|;
      && |s| == p + 76 + |sens|
      && forall k :: 0 <= k < |sens| ==> s[p + 76 + k] == sens[k] ^ suite.gcmStream(ctx.key, ctx.iv, k)
  {
    TailParts(suite, root, ctx, pre, sens);
    hide Seal, GcmXor, Size, SectionMac, RootMac;
    var s, p := Seal(suite, root, ctx, pre, sens), |pre|;
    assert s[p + 76..p + 76 + |sens|] == s[p + 76..];
    MaskedAt(suite, ctx.key, ctx.iv, sens, s, p + 76);
  }

  /** The context, with the tag that authenticates preamble and section, lies under the keystream of the root key. */
  lemma ContextMasked(suite: CipherSuite, root: GcmState, ctx: GcmState, pre: Bytes, sens: Bytes)
    requires ctx.Valid() && |sens| < SIZE_T_LIMIT
    ensures var s, p := Seal(suite, root, ctx, pre, sens), |pre|;
      && |s| == p + 76 + |sens|
      && var held := ctx.key + ctx.iv + suite.gcmTag(ctx.key, ctx.iv, pre, s[p + 76..]);
         forall k :: 0 <= k < 44 ==> s[p + 24 + k] == held[k] ^ suite.gcmStream(root.key, root.iv, k)
  {
    TailParts(suite, root, ctx, pre, sens);
    hide Seal, GcmXor, Size, RootMac;
    var s, p := Seal(suite, root, ctx, pre, sens), |pre|;
    MaskedAt(suite, root.key, root.iv, ctx.key + ctx.iv + SectionMac(suite, ctx, pre, sens), s, p + 24);
  }

  // ----- secrecy -----

  /** The same suite, but the keystream of one key and initialisation vector turns `a` into `b`. */
  function Shifted(suite: CipherSuite, key: Bytes, iv: Bytes, a: Bytes, b: Bytes): CipherSuite {
    suite.(gcmStream := (k: Bytes, v: Bytes, i: nat) =>
      if k == key && v == iv && i < |a| && i < |b| then suite.gcmStream(k, v, i) ^ a[i] ^ b[i]
      else suite.gcmStream(k, v, i))
  }

  lemma Cancels(a: Byte, b: Byte, c: Byte)
    ensures b ^ (c ^ a ^ b) == a ^ c
  {
  }

  lemma ShiftedHere(suite: CipherSuite, key: Bytes, iv: Bytes, a: Bytes, b: Bytes)
    requires |a| == |b|
    ensures GcmXor(Shifted(suite, key, iv, a, b), key, iv, b) == GcmXor(suite, key, iv, a)
  {
    var suite' := Shifted(suite, key, iv, a, b);
    forall k: nat | k < |a|
      ensures GcmXor(suite', key, iv, b)[k] == GcmXor(suite, key, iv, a)[k]
    {
      GcmXorAt(suite', key, iv, b, k);
      GcmXorAt(suite, key, iv, a, k);
      Cancels(a[k], b[k], suite.gcmStream(key, iv, k));
    }
  }

  lemma ShiftedElsewhere(suite: CipherSuite, key: Bytes, iv: Bytes, a: Bytes, b: Bytes, key': Bytes, iv': Bytes,
                         data: Bytes)
    requires key' != key || iv' != iv
    ensures GcmXor(Shifted(suite, key, iv, a, b), key', iv', data) == GcmXor(suite, key', iv', data)
  {
    var suite' := Shifted(suite, key, iv, a, b);
    forall k: nat | k < |data|
      ensures GcmXor(suite', key', iv', data)[k] == GcmXor(suite, key', iv', data)[k]
    {
      GcmXorAt(suite', key', iv', data, k);
      GcmXorAt(suite, key', iv', data, k);
    }
  }

  /**
   Nothing but the length of a section shows: whatever blob it is sealed in, every other section of that length is
   sealed in the very same blob under another keystream of the same context.
   */
  lemma BlobHides(suite: CipherSuite, root: GcmState, ctx: GcmState, pre: Bytes, sens: Bytes, sens': Bytes)
    requires |sens'| == |sens| && (root.key != ctx.key || root.iv != ctx.iv)
    ensures var suite' := Shifted(suite, ctx.key, ctx.iv, sens, sens');
      && suite'.gcmTag == suite.gcmTag
      && Seal(suite', root, ctx, pre, sens') == Seal(suite, root, ctx, pre, sens)
  {
    var suite' := Shifted(suite, ctx.key, ctx.iv, sens, sens');
    ShiftedHere(suite, ctx.key, ctx.iv, sens, sens');
    assert SectionMac(suite', ctx, pre, sens') == SectionMac(suite, ctx, pre, sens);
    var held := ctx.(mac := SectionMac(suite, ctx, pre, sens)).Encode();
    ShiftedElsewhere(suite, ctx.key, ctx.iv, sens, sens', root.key, root.iv, held);
    hide GcmXor, Shifted;
  }

  /** So a node's blob does not tell its names, entitlements, keys or users. */
  lemma NodeHides(suite: CipherSuite, root: GcmState, ctx: GcmState, cls: Class, d: NodeData, d': NodeData)
    requires Preamble(cls, d') == Preamble(cls, d) && |Sensitive(cls, d')| == |Sensitive(cls, d)|
    requires root.key != ctx.key || root.iv != ctx.iv
    ensures exists suite': CipherSuite :: suite'.gcmTag == suite.gcmTag
                             && SealNode(suite', root, ctx, cls, d') == SealNode(suite, root, ctx, cls, d)
  {
    hide Preamble, Sensitive, Seal, Shifted;
    BlobHides(suite, root, ctx, Preamble(cls, d), Sensitive(cls, d), Sensitive(cls, d'));
  }

  /** No two blocks of the file are under one key and counter. */
  predicate OncePerBlock(keys: map<nat, CtrContext>) {
    forall i, j :: i in keys && j in keys && keys[i] == keys[j] ==> i == j
  }

  /** Byte `t` of block `i` of the file that is under `ctx`. */
  ghost predicate Under(keys: map<nat, CtrContext>, bs: nat, size: nat, ctx: CtrContext, t: nat, i: nat) {
    i in keys && keys[i] == ctx && t < bs && BlockStart(bs, i) + t < size
  }

  ghost function ShiftedStream(suite: CipherSuite, keys: map<nat, CtrContext>, bs: nat, f: Bytes, g: Bytes, key: Bytes,
                               ctr: Bytes, t: nat): Byte
    requires |g| == |f|
  {
    if i: nat :| Under(keys, bs, |f|, CtrContext(key, ctr), t, i)
    then suite.ctrStream(key, ctr, t) ^ f[BlockStart(bs, i) + t] ^ g[BlockStart(bs, i) + t]
    else suite.ctrStream(key, ctr, t)
  }

  /** The same suite, but the keystreams of the blocks turn `f` into `g`. */
  ghost function BlocksShifted(suite: CipherSuite, keys: map<nat, CtrContext>, bs: nat, f: Bytes, g: Bytes): CipherSuite
    requires |g| == |f|
  {
    suite.(ctrStream := (key: Bytes, ctr: Bytes, t: nat) => ShiftedStream(suite, keys, bs, f, g, key, ctr, t))
  }

  lemma StreamInBlock(suite: CipherSuite, keys: map<nat, CtrContext>, bs: nat, f: Bytes, g: Bytes, t: nat, i: nat)
    requires |g| == |f| && OncePerBlock(keys) && i in keys && Under(keys, bs, |f|, keys[i], t, i)
    ensures BlocksShifted(suite, keys, bs, f, g).ctrStream(keys[i].key, keys[i].ctr, t)
      == suite.ctrStream(keys[i].key, keys[i].ctr, t) ^ f[BlockStart(bs, i) + t] ^ g[BlockStart(bs, i) + t]
  {
    hide BlockStart;
    assert CtrContext(keys[i].key, keys[i].ctr) == keys[i];
  }

  lemma ShiftedByte(suite: CipherSuite, keys: map<nat, CtrContext>, bs: nat, f: Bytes, g: Bytes, k: nat)
    requires bs > 0 && |g| == |f| && HasKeys(keys, bs, 0, f) && HasKeys(keys, bs, 0, g) && OncePerBlock(keys) && k < |f|
    ensures SealByte(BlocksShifted(suite, keys, bs, f, g), keys, bs, 0, g, k) == SealByte(suite, keys, bs, 0, f, k)
  {
    hide BlocksShifted, OncePerBlock, BlockStart, SealByte;
    var i, t, suite' := k / bs, k % bs, BlocksShifted(suite, keys, bs, f, g);
    BlockOf(bs, k);
    SealByteAt(suite, keys, bs, 0, f, i, t);
    SealByteAt(suite', keys, bs, 0, g, i, t);
    StreamInBlock(suite, keys, bs, f, g, t, i);
    Cancels(f[k], g[k], suite.ctrStream(keys[i].key, keys[i].ctr, t));
  }

  /** A content file does not tell its bytes, but for their number, if its blocks have different keys or counters. */
  lemma ContentHides(suite: CipherSuite, keys: map<nat, CtrContext>, bs: nat, f: Bytes, g: Bytes)
    requires bs > 0 && |g| == |f| && HasKeys(keys, bs, 0, f) && OncePerBlock(keys)
    ensures HasKeys(keys, bs, 0, g)
    ensures SealFlat(BlocksShifted(suite, keys, bs, f, g), keys, bs, 0, g) == SealFlat(suite, keys, bs, 0, f)
  {
    forall k: nat | k < |f|
      ensures SealByte(BlocksShifted(suite, keys, bs, f, g), keys, bs, 0, g, k) == SealByte(suite, keys, bs, 0, f, k)
    {
      ShiftedByte(suite, keys, bs, f, g, k);
    }
  }

  // ----- authenticity -----

  /** Both tags that a blob holds are those of its bytes, and its lengths fit. */
  predicate Authentic(suite: CipherSuite, root: GcmState, p: nat, s: Bytes) {
    && p + 76 <= |s| && FromLittleEndian(s[p + 16..p + 24]) == 44
    && s[p..p + 16] == suite.gcmTag(root.key, root.iv, [], s[p + 24..p + 68])
    && p + 76 + SectionLength(p, s) <= |s|
    && var ctx := ContextIn(suite, root, p, s);
       ctx.mac == suite.gcmTag(ctx.key, ctx.iv, s[..p], SectionBytes(p, s))
  }

  /** A section opens if and only if its length fits and its tag is that of its bytes. */
  lemma SectionOpens(suite: CipherSuite, ctx: GcmState, aad: Bytes, s: Bytes)
    ensures var r := OpenSection(suite, ctx, aad, s);
            var n := if |s| < 8 then 0 else FromLittleEndian(s[..8]);
      && (r.Done? <==> 8 + n <= |s| && ctx.mac == suite.gcmTag(ctx.key, ctx.iv, aad, s[8..8 + n]))
      && !r.Fault?
      && (r.Done? ==> r == Done(Unmasked(suite, ctx.key, ctx.iv, s[8..8 + n]), s[8 + n..]))
  {
    hide GcmXor, FromLittleEndian;
    if |s| >= 8 {
      var n := FromLittleEndian(s[..8]);
      if 8 + n <= |s| {
        assert s[8..][..n] == s[8..8 + n] && s[8..][n..] == s[8 + n..];
        MaskIsXor(suite, ctx.key, ctx.iv, s[8..8 + n]);
      }
    }
  }

  lemma CryptoOpens(suite: CipherSuite, root: GcmState, s: Bytes)
    ensures var r := OpenCrypto(suite, root, s);
            var n := if |s| < 24 then 0 else FromLittleEndian(s[16..24]);
            var genuine := 24 + n <= |s| && s[..16] == suite.gcmTag(root.key, root.iv, [], s[24..24 + n]);
      && (r.Done? <==> genuine && n == 44) && (r.Fault? ==> |s| >= 24 && n != 44)
      && (r.Done? ==> var plain := Unmasked(suite, root.key, root.iv, s[24..68]);
                      r == Done(GcmState(plain[..16], plain[16..28], plain[28..]), s[68..]))
  {
    hide FromLittleEndian, OpenSection;
    if |s| >= 16 {
      var held, rest := root.(mac := s[..16]), s[16..];
      SectionOpens(suite, held, [], rest);
      if |s| >= 24 {
        var n := FromLittleEndian(s[16..24]);
        assert rest[..8] == s[16..24];
        if 24 + n <= |s| {
          assert rest[8..8 + n] == s[24..24 + n] && rest[8 + n..] == s[24 + n..];
        }
      }
    }
  }

  /** What follows a preamble opens if and only if it is authentic, with that preamble as associated data. */
  lemma TailOpens(suite: CipherSuite, root: GcmState, p: nat, s: Bytes)
    requires p <= |s|
    ensures var r := OpenCrypto(suite, root, s[p..]);
      && (Authentic(suite, root, p, s) <==> r.Done? && OpenSection(suite, r.value, s[..p], r.rest).Done?)
      && (r.Done? ==> p + 68 <= |s| && r.rest == s[p + 68..] && !OpenSection(suite, r.value, s[..p], r.rest).Fault?)
      && (r.Fault? ==> p + 24 <= |s| && FromLittleEndian(s[p + 16..p + 24]) != 44)
      && (Authentic(suite, root, p, s) ==>
            && r.value == ContextIn(suite, root, p, s)
            && OpenSection(suite, r.value, s[..p], r.rest)
               == Done(Unmasked(suite, r.value.key, r.value.iv, SectionBytes(p, s)),
                       s[p + 76 + SectionLength(p, s)..]))
  {
    hide FromLittleEndian, OpenSection, OpenCrypto, Unmasked;
    var t := s[p..];
    var r := OpenCrypto(suite, root, t);
    CryptoOpens(suite, root, t);
    if |t| >= 24 {
      assert t[16..24] == s[p + 16..p + 24] && t[..16] == s[p..p + 16];
      if |t| >= 68 {
        assert t[24..68] == s[p + 24..p + 68] && t[68..] == s[p + 68..];
      }
    }
    if r.Done? {
      var u := s[p + 68..];
      SectionOpens(suite, r.value, s[..p], u);
      if |u| >= 8 {
        assert u[..8] == s[p + 68..p + 76];
        var n := FromLittleEndian(u[..8]);
        if 8 + n <= |u| {
          assert u[8..8 + n] == s[p + 76..p + 76 + n] && u[8 + n..] == s[p + 76 + n..];
        }
      }
    }
  }

  // ----- nodes, files and audit records -----

  lemma NumberBack(s: Bytes, at: nat, width: nat)
    requires at + width <= |s|
    ensures LittleEndian(FromLittleEndian(s[at..at + width]), width) == s[at..at + width]
  {
    LittleEndianBack(s[at..at + width]);
  }

  lemma PreambleFrom(cls: Class, d0: NodeData, s: Bytes)
    requires |s| >= PreambleSize(cls)
    ensures var d := d0.(typ := FromLittleEndian(s[..4]), uuid := s[4..25], atime := FromLittleEndian(s[25..33]),
                         mtime := FromLittleEndian(s[33..41]), ctime := FromLittleEndian(s[41..49]),
                         fileSize := if cls == FilenodeClass then FromLittleEndian(s[49..57]) else d0.fileSize);
      TakePreamble(cls, d0, s) == Done(d, s[PreambleSize(cls)..])
  {
    hide FromLittleEndian;
    assert s[4..][..21] == s[4..25] && s[4..][21..] == s[25..];
    assert s[25..][..8] == s[25..33] && s[25..][8..] == s[33..];
    assert s[33..][..8] == s[33..41] && s[33..][8..] == s[41..];
    assert s[41..][..8] == s[41..49] && s[41..][8..] == s[49..];
    if cls == FilenodeClass {
      assert s[49..][..8] == s[49..57] && s[49..][8..] == s[57..];
    }
  }

  /** Writing the preamble that was read gives its bytes again: they are the associated data. */
  lemma PreambleKept(cls: Class, d0: NodeData, s: Bytes)
    requires |s| >= PreambleSize(cls)
    ensures var r := TakePreamble(cls, d0, s);
      r.Done? && r.rest == s[PreambleSize(cls)..] && Preamble(cls, r.value) == s[..PreambleSize(cls)]
  {
    hide FromLittleEndian, LittleEndian, TakePreamble;
    PreambleFrom(cls, d0, s);
    NumberBack(s, 0, 4);
    NumberBack(s, 25, 8);
    NumberBack(s, 33, 8);
    NumberBack(s, 41, 8);
    if cls == FilenodeClass {
      NumberBack(s, 49, 8);
      assert s[..4] + (s[4..25] + (s[25..33] + (s[33..41] + (s[41..49] + s[49..57])))) == s[..57];
    } else {
      assert s[..4] + (s[4..25] + (s[25..33] + (s[33..41] + (s[41..49] + [])))) == s[..49];
    }
  }

  lemma PreambleShort(cls: Class, d0: NodeData, s: Bytes)
    requires |s| < PreambleSize(cls)
    ensures TakePreamble(cls, d0, s).Fault?
  {
    hide FromLittleEndian;
  }

  /** The plain section of an authentic blob. */
  function PlainSection(suite: CipherSuite, root: GcmState, p: nat, s: Bytes): Bytes
    requires p + 76 <= |s| && p + 76 + SectionLength(p, s) <= |s|
  {
    var ctx := ContextIn(suite, root, p, s);
    Unmasked(suite, ctx.key, ctx.iv, SectionBytes(p, s))
  }

  lemma AuthenticFits(suite: CipherSuite, root: GcmState, p: nat, s: Bytes)
    ensures Authentic(suite, root, p, s) ==>
      p + 76 <= |s| && p + 76 + SectionLength(p, s) <= |s|
  {
  }

  /**
   `e_load` of a node: a buffer loads if and only if it is authentic and its section, decrypted, is one of the class.
   With well-formed lengths, a buffer that is not authentic is refused.
   */
  lemma NodeOpens(suite: CipherSuite, root: GcmState, cls: Class, d0: NodeData, s: Bytes)
    ensures var r, p := OpenNode(suite, root, cls, d0, s), PreambleSize(cls);
      && (r.Done? <==> p <= |s| && Authentic(suite, root, p, s)
                       && var section := TakeSensitive(cls, TakePreamble(cls, d0, s).value,
                                                       PlainSection(suite, root, p, s));
                          section.Done? && section.rest == [])
      && (r.Done? ==> r.value == (TakeSensitive(cls, TakePreamble(cls, d0, s).value,
                                                PlainSection(suite, root, p, s)).value,
                                  ContextIn(suite, root, p, s)))
      && (p <= |s| && !Authentic(suite, root, p, s) && (|s| < p + 24 || FromLittleEndian(s[p + 16..p + 24]) == 44)
          ==> r.Rejected?)
  {
    hide FromLittleEndian, TakePreamble, OpenCrypto, OpenSection, Authentic, Preamble, TakeSensitive, Unmasked,
         PreambleSize;
    var p := PreambleSize(cls);
    if |s| < p {
      PreambleShort(cls, d0, s);
    } else {
      PreambleKept(cls, d0, s);
      AuthenticFits(suite, root, p, s);
      TailOpens(suite, root, p, s);
    }
  }

  /** `load_metadata`: what loads is authentic, under the preamble of the class that it announces. */
  lemma FileIsAuthentic(suite: CipherSuite, root: GcmState, file: Bytes)
    requires LoadFile(suite, root, file).Done?
    ensures Authentic(suite, root, PreambleSize(LoadFile(suite, root, file).value.0), file)
  {
    hide OpenNode, Authentic, FromLittleEndian;
    var cls := Announced(file).value;
    NodeOpens(suite, root, cls, Blank(cls), file);
  }

  /**
   `e_load` of an audit record, which has no preamble: it loads if and only if it is authentic and its section is a
   reason; with well-formed lengths, one that is not authentic is refused.
   */
  lemma RecordOpens(suite: CipherSuite, root: GcmState, s: Bytes)
    ensures var r := TakeRecord(suite, root, s);
      && (r.Done? <==> Authentic(suite, root, 0, s)
                       && var text := TakeText(PlainSection(suite, root, 0, s), true, 0);
                          text.Done? && text.rest == [])
      && (r.Done? ==> r.value.reason == TakeText(PlainSection(suite, root, 0, s), true, 0).value)
      && (!Authentic(suite, root, 0, s) && (|s| < 24 || FromLittleEndian(s[16..24]) == 44) ==> r.Rejected?)
  {
    hide FromLittleEndian, OpenCrypto, OpenSection, Authentic, Unmasked;
    assert s[0..] == s && s[..0] == [];
    AuthenticFits(suite, root, 0, s);
    TailOpens(suite, root, 0, s);
  }

  /** An audit record does not tell its reason, but for the length. */
  lemma RecordHides(suite: CipherSuite, root: GcmState, ctx: GcmState, reason: Bytes, reason': Bytes)
    requires |reason'| == |reason| && (root.key != ctx.key || root.iv != ctx.iv)
    ensures exists suite': CipherSuite ::
      suite'.gcmTag == suite.gcmTag
      && Seal(suite', root, ctx, [], Text(reason')) == Seal(suite, root, ctx, [], Text(reason))
  {
    hide Seal, Shifted;
    BlobHides(suite, root, ctx, [], Text(reason), Text(reason'));
  }

  // ----- tampering -----

  lemma HeldContext(suite: CipherSuite, root: GcmState, ctx: GcmState, p: nat, s: Bytes)
    requires ctx.Valid() && p + 76 <= |s|
    requires CryptoBytes(p, s) == GcmXor(suite, root.key, root.iv, ctx.Encode())
    ensures ContextIn(suite, root, p, s) == ctx
  {
    hide GcmXor;
    var held := ctx.Encode();
    GcmXorTwice(suite, root.key, root.iv, held);
    MaskIsXor(suite, root.key, root.iv, CryptoBytes(p, s));
    hide Unmasked;
    assert held[..16] == ctx.key && held[16..28] == ctx.iv && held[28..] == ctx.mac;
  }

  lemma AuthenticFrom(suite: CipherSuite, root: GcmState, ctx: GcmState, p: nat, n: nat, s: Bytes)
    requires |s| == p + 76 + n && FromLittleEndian(s[p + 16..p + 24]) == 44
    requires FromLittleEndian(s[p + 68..p + 76]) == n
    requires s[p..p + 16] == suite.gcmTag(root.key, root.iv, [], s[p + 24..p + 68])
    requires ContextIn(suite, root, p, s) == ctx && ctx.mac == suite.gcmTag(ctx.key, ctx.iv, s[..p], s[p + 76..])
    ensures Authentic(suite, root, p, s) && SectionLength(p, s) == n && SectionBytes(p, s) == s[p + 76..]
  {
    hide ContextIn, FromLittleEndian;
    assert s[p + 76..p + 76 + n] == s[p + 76..];
  }

  /** A sealed blob is authentic, and holds the context with its tag. */
  lemma SealedIsAuthentic(suite: CipherSuite, root: GcmState, ctx: GcmState, pre: Bytes, sens: Bytes)
    requires ctx.Valid() && |sens| < SIZE_T_LIMIT
    ensures var s, p := Seal(suite, root, ctx, pre, sens), |pre|;
      && Authentic(suite, root, p, s) && SectionBytes(p, s) == s[p + 76..]
      && ContextIn(suite, root, p, s) == ctx.(mac := suite.gcmTag(ctx.key, ctx.iv, pre, s[p + 76..]))
  {
    TailParts(suite, root, ctx, pre, sens);
    BlobFrame(suite, root, ctx, pre, sens);
    hide Seal, FromLittleEndian, Size, GcmXor, RootMac, ContextIn, Authentic, SectionBytes, SectionLength;
    var s, p, ctx' := Seal(suite, root, ctx, pre, sens), |pre|, ctx.(mac := SectionMac(suite, ctx, pre, sens));
    HeldContext(suite, root, ctx', p, s);
    AuthenticFrom(suite, root, ctx', p, |sens|, s);
  }

  /** What a change leaves apart: preamble, tag, crypto section and sensitive section. */
  lemma SameParts(p: nat, n: nat, s: Bytes, s': Bytes)
    requires |s| == |s'| == p + 76 + n && s'[..p] == s[..p] && s'[p..p + 16] == s[p..p + 16]
    requires s'[p + 16..p + 24] == s[p + 16..p + 24] && s'[p + 24..p + 68] == s[p + 24..p + 68]
    requires s'[p + 68..p + 76] == s[p + 68..p + 76] && s'[p + 76..] == s[p + 76..]
    ensures s' == s
  {
    assert s == s[..p] + s[p..p + 16] + s[p + 16..p + 24] + s[p + 24..p + 68] + s[p + 68..p + 76] + s[p + 76..];
    assert s' == s'[..p] + s'[p..p + 16] + s'[p + 16..p + 24] + s'[p + 24..p + 68] + s'[p + 68..p + 76] + s'[p + 76..];
  }

  /**
   A blob that differs in its preamble or its section, or in one of crypto section and tag, is not authentic, when the
   tag function tells its parts from those that were sealed.
   */
  lemma Tampered(suite: CipherSuite, root: GcmState, ctx: GcmState, pre: Bytes, sens: Bytes, s': Bytes)
    requires ctx.Valid() && |sens| < SIZE_T_LIMIT
    requires var s, p := Seal(suite, root, ctx, pre, sens), |pre|;
      && s' != s && |s'| == |s| == p + 76 + |sens|
      && s'[p + 16..p + 24] == s[p + 16..p + 24] && s'[p + 68..p + 76] == s[p + 68..p + 76]
      && (s'[p..p + 16] == s[p..p + 16] || CryptoBytes(p, s') == CryptoBytes(p, s))
      && (CryptoBytes(p, s') != CryptoBytes(p, s) ==>
            suite.gcmTag(root.key, root.iv, [], CryptoBytes(p, s')) != suite.gcmTag(root.key, root.iv, [],
                                                                                   CryptoBytes(p, s)))
      && (s'[..p] != pre || s'[p + 76..] != s[p + 76..] ==>
            suite.gcmTag(ctx.key, ctx.iv, s'[..p], s'[p + 76..]) != suite.gcmTag(ctx.key, ctx.iv, pre, s[p + 76..]))
    ensures !Authentic(suite, root, |pre|, s')
  {
    SealedIsAuthentic(suite, root, ctx, pre, sens);
    BlobFrame(suite, root, ctx, pre, sens);
    hide Seal, FromLittleEndian, Unmasked;
    var s, p := Seal(suite, root, ctx, pre, sens), |pre|;
    if Authentic(suite, root, p, s') && CryptoBytes(p, s') == CryptoBytes(p, s) {
      assert ContextIn(suite, root, p, s') == ContextIn(suite, root, p, s);
      assert SectionLength(p, s') == |sens| && s'[p + 76..p + 76 + |sens|] == s'[p + 76..];
      SameParts(p, |sens|, s, s');
    }
  }

  lemma AnyRootTag(suite: CipherSuite, root: GcmState, root': GcmState, p: nat, s: Bytes)
    requires root' == root.(mac := root'.mac)
    ensures Authentic(suite, root', p, s) <==> Authentic(suite, root, p, s)
  {
  }

  /** So it does not load as a node. */
  lemma TamperedNode(suite: CipherSuite, root: GcmState, root': GcmState, ctx: GcmState, cls: Class, d: NodeData,
                     d0: NodeData, s': Bytes)
    requires ctx.Valid() && WellFormed(cls, d) && root' == root.(mac := root'.mac)
    requires var s, p := SealNode(suite, root, ctx, cls, d), PreambleSize(cls);
      && s' != s && |s'| == |s| == p + 76 + |Sensitive(cls, d)|
      && s'[p + 16..p + 24] == s[p + 16..p + 24] && s'[p + 68..p + 76] == s[p + 68..p + 76]
      && (s'[p..p + 16] == s[p..p + 16] || CryptoBytes(p, s') == CryptoBytes(p, s))
      && (CryptoBytes(p, s') != CryptoBytes(p, s) ==>
            suite.gcmTag(root.key, root.iv, [], CryptoBytes(p, s')) != suite.gcmTag(root.key, root.iv, [],
                                                                                   CryptoBytes(p, s)))
      && (s'[..p] != s[..p] || s'[p + 76..] != s[p + 76..] ==>
            suite.gcmTag(ctx.key, ctx.iv, s'[..p], s'[p + 76..]) != suite.gcmTag(ctx.key, ctx.iv, s[..p], s[p + 76..]))
    ensures OpenNode(suite, root', cls, d0, s') == Rejected
  {
    SizesExact(suite, root, ctx, cls, d);
    hide WellFormed, Preamble, Sensitive, OpenNode, Seal, Authentic, FromLittleEndian;
    var pre, sens := Preamble(cls, d), Sensitive(cls, d);
    BlobFrame(suite, root, ctx, pre, sens);
    Tampered(suite, root, ctx, pre, sens, s');
    NodeOpens(suite, root', cls, d0, s');
    AnyRootTag(suite, root, root', |pre|, s');
  }
}
