/** `Metadata`: a plain preamble and an encrypted sensitive section, tied together by two authentication tags. */
module SealedMetadata {
  import opened ByteStrings
  import opened Crypto
  import opened Codec

  // ----- the blob -----

  /** The tag of the sensitive section, which authenticates the preamble too. */
  function SectionMac(suite: CipherSuite, ctx: GcmState, pre: Bytes, sens: Bytes): Bytes {
    suite.gcmTag(ctx.key, ctx.iv, pre, GcmXor(suite, ctx.key, ctx.iv, sens))
  }

  function SensitiveSection(suite: CipherSuite, ctx: GcmState, sens: Bytes): (s: Bytes)
    ensures |s| == 8 + |sens|
  {
    Size(|sens|) + GcmXor(suite, ctx.key, ctx.iv, sens)
  }

  function CryptoSection(suite: CipherSuite, root: GcmState, ctx: GcmState): Bytes {
    Size(|ctx.Encode()|) + GcmXor(suite, root.key, root.iv, ctx.Encode())
  }

  function RootMac(suite: CipherSuite, root: GcmState, ctx: GcmState): Bytes {
    suite.gcmTag(root.key, root.iv, [], GcmXor(suite, root.key, root.iv, ctx.Encode()))
  }

  /** All that follows the preamble. */
  function SealedTail(suite: CipherSuite, root: GcmState, ctx: GcmState, pre: Bytes, sens: Bytes): Bytes {
    var ctx' := ctx.(mac := SectionMac(suite, ctx, pre, sens));
    RootMac(suite, root, ctx') + (CryptoSection(suite, root, ctx') + SensitiveSection(suite, ctx', sens))
  }

  function Seal(suite: CipherSuite, root: GcmState, ctx: GcmState, pre: Bytes, sens: Bytes): Bytes {
    pre + SealedTail(suite, root, ctx, pre, sens)
  }

  function SealedSize(pre: Bytes, sens: Bytes): nat {
    MAC_SIZE + |pre| + (8 + GCM_CONTEXT_SIZE) + (8 + |sens|)
  }

  /** Below this, a sensitive section gives a blob whose size fits the `int` that holds it. */
  const SECTION_LIMIT: nat := 0x7FFF_FF00

  lemma TailSize(suite: CipherSuite, root: GcmState, ctx: GcmState, pre: Bytes, sens: Bytes)
    requires ctx.Valid()
    ensures |pre| + |SealedTail(suite, root, ctx, pre, sens)| == SealedSize(pre, sens)
  {
  }

  // ----- opening it -----

  function DecodeContext(b: Bytes): GcmState
    requires |b| == GCM_CONTEXT_SIZE
  {
    GcmState(b[..KEY_SIZE], b[KEY_SIZE..KEY_SIZE + IV_SIZE], b[KEY_SIZE + IV_SIZE..])
  }

  /** Reads a length-prefixed ciphertext and checks its tag. */
  function OpenSection(suite: CipherSuite, ctx: GcmState, aad: Bytes, s: Bytes): Parsed<Bytes> {
    if |s| < 8 then Rejected else
    var (n, rest) :- TakeNumber(s, 8);
    if |rest| < n then Rejected else
    var (cipher, rest') :- Take(rest, n);
    if ctx.mac == suite.gcmTag(ctx.key, ctx.iv, aad, cipher)
    then Done(GcmXor(suite, ctx.key, ctx.iv, cipher), rest')
    else Rejected
  }

  /** The crypto section holds the context of the sensitive section; another length does not fit its place. */
  function OpenCrypto(suite: CipherSuite, root: GcmState, s: Bytes): Parsed<GcmState> {
    if |s| < MAC_SIZE then Rejected else
    var (mac, rest) :- Take(s, MAC_SIZE);
    var (b, rest') :- OpenSection(suite, root.(mac := mac), [], rest);
    if |b| == GCM_CONTEXT_SIZE then Done(DecodeContext(b), rest') else Fault
  }

  // ----- what is sealed opens, whatever follows it and whatever tag the root key held -----

  lemma OpenSectionBack(suite: CipherSuite, ctx: GcmState, aad: Bytes, plain: Bytes, s: Bytes)
    requires |plain| < SIZE_T_LIMIT && Size(|plain|) + GcmXor(suite, ctx.key, ctx.iv, plain) <= s
    requires ctx.mac == suite.gcmTag(ctx.key, ctx.iv, aad, GcmXor(suite, ctx.key, ctx.iv, plain))
    ensures OpenSection(suite, ctx, aad, s) == Done(plain, s[8 + |plain|..])
  {
    Widths();
    var cipher := GcmXor(suite, ctx.key, ctx.iv, plain);
    Split(Size(|plain|), cipher, s);
    TakeNumberBack(|plain|, 8, s);
    TakeBack(cipher, s[8..]);
    GcmXorTwice(suite, ctx.key, ctx.iv, plain);
  }

  lemma OpenCryptoBack(suite: CipherSuite, root: GcmState, ctx: GcmState, s: Bytes)
    requires ctx.Valid() && RootMac(suite, root, ctx) + CryptoSection(suite, root, ctx) <= s
    ensures OpenCrypto(suite, root, s) == Done(ctx, s[MAC_SIZE + 8 + GCM_CONTEXT_SIZE..])
  {
    var mac := RootMac(suite, root, ctx);
    Split(mac, CryptoSection(suite, root, ctx), s);
    TakeBack(mac, s);
    OpenSectionBack(suite, root.(mac := mac), [], ctx.Encode(), s[MAC_SIZE..]);
    assert DecodeContext(ctx.Encode()) == ctx;
  }

  lemma OpenBack(suite: CipherSuite, root: GcmState, root': GcmState, ctx: GcmState, pre: Bytes, sens: Bytes, s: Bytes)
    requires ctx.Valid() && |sens| < SIZE_T_LIMIT
    requires root'.key == root.key && root'.iv == root.iv
    requires SealedTail(suite, root, ctx, pre, sens) <= s
    ensures var ctx' := ctx.(mac := SectionMac(suite, ctx, pre, sens));
            var body := s[MAC_SIZE + 8 + GCM_CONTEXT_SIZE..];
      && OpenCrypto(suite, root', s) == Done(ctx', body)
      && OpenSection(suite, ctx', pre, body) == Done(sens, s[|SealedTail(suite, root, ctx, pre, sens)|..])
  {
    var ctx' := ctx.(mac := SectionMac(suite, ctx, pre, sens));
    var head := RootMac(suite, root, ctx') + CryptoSection(suite, root, ctx');
    assert head + SensitiveSection(suite, ctx', sens) == SealedTail(suite, root, ctx, pre, sens);
    Split(head, SensitiveSection(suite, ctx', sens), s);
    OpenCryptoBack(suite, root', ctx', s);
    OpenSectionBack(suite, ctx', pre, sens, s[|head|..]);
  }

  // ----- the object -----

  lemma OverlayBefore(prior: Bytes, at: nat, first: Bytes, second: Bytes)
    requires at + |first| + |second| <= |prior|
    ensures Overlay(Overlay(prior, at + |first|, second), at, first) == Overlay(prior, at, first + second)
  {
  }

  lemma TailLayout(prior: Bytes, at: nat, mac: Bytes, crypto: Bytes, sensitive: Bytes)
    requires at + |mac| + |crypto| + |sensitive| <= |prior|
    ensures Overlay(Overlay(Overlay(prior, at + |mac| + |crypto|, sensitive), at + |mac|, crypto), at, mac)
            == Overlay(prior, at, mac + (crypto + sensitive))
  {
    OverlayBefore(prior, at + |mac|, crypto, sensitive);
    OverlayBefore(prior, at, mac, crypto + sensitive);
  }

  class Metadata {
    const suite: CipherSuite
    const rootKey: GcmContext
    const ctx: GcmContext

    ghost predicate Valid()
      reads this, rootKey, ctx
    {
      rootKey != ctx && ctx.state.Valid() && rootKey.state.Valid()
    }

    /** The key of a new context is never drawn: it is whatever the memory held. */
    constructor (suite: CipherSuite, rootKey: GcmContext)
      requires rootKey.state.Valid()
      ensures this.suite == suite && this.rootKey == rootKey && fresh(ctx)
      ensures Valid()
    {
      this.suite, this.rootKey := suite, rootKey;
      var key := ReadRand(KEY_SIZE);
      var iv := ReadRand(IV_SIZE);
      var mac := ReadRand(MAC_SIZE);
      ctx := new GcmContext(GcmState(key, iv, mac));
    }

    method UpdateCryptoCtx()
      requires Valid()
      modifies ctx
      ensures Valid() && ctx.state == old(ctx.state).(iv := ctx.state.iv)
    {
      var iv := ReadRand(IV_SIZE);
      ctx.state := ctx.state.(iv := iv);
    }

    /** `e_dump_sensitive`: leaves the tag of the section in the node's own context. */
    method EDumpSensitive(pre: Bytes, sens: Bytes, buffer: array<Byte>, at: nat)
      requires Valid() && at + 8 + |sens| <= buffer.Length && |sens| < SECTION_LIMIT
      modifies ctx, buffer
      ensures Valid() && ctx.state == old(ctx.state).(mac := SectionMac(suite, old(ctx.state), pre, sens))
      ensures buffer[..] == Overlay(old(buffer[..]), at, SensitiveSection(suite, old(ctx.state), sens))
      ensures forall k :: 0 <= k < |sens| ==>
        buffer[at + 8 + k] == sens[k] ^ suite.gcmStream(ctx.state.key, ctx.state.iv, k)
      ensures ctx.state.mac
        == suite.gcmTag(ctx.state.key, ctx.state.iv, pre, buffer[at + 8..at + 8 + |sens|])
    {
      ghost var before := buffer[..];
      var cipher := ctx.Encrypt(suite, sens, pre);
      Memcpy(buffer, at + 8, cipher);
      Memcpy(buffer, at, Size(|cipher|));
      OverlayBefore(before, at, Size(|cipher|), cipher);
      assert buffer[at + 8..at + 8 + |sens|] == cipher;
      forall k: nat | k < |sens|
        ensures buffer[at + 8 + k] == sens[k] ^ suite.gcmStream(ctx.state.key, ctx.state.iv, k)
      {
        GcmXorAt(suite, ctx.state.key, ctx.state.iv, sens, k);
        assert buffer[at + 8 + k] == cipher[k];
      }
    }

    /** `e_dump_crypto`: encrypts the whole context, tag included, and leaves the new tag in the shared root key. */
    method EDumpCrypto(buffer: array<Byte>, at: nat)
      requires Valid() && at + 8 + GCM_CONTEXT_SIZE <= buffer.Length
      modifies rootKey, buffer
      ensures Valid()
      ensures rootKey.state == old(rootKey.state).(mac := RootMac(suite, old(rootKey.state), ctx.state))
      ensures buffer[..] == Overlay(old(buffer[..]), at, CryptoSection(suite, old(rootKey.state), ctx.state))
      ensures forall k :: 0 <= k < GCM_CONTEXT_SIZE ==>
        buffer[at + 8 + k] == (ctx.state.key + ctx.state.iv + ctx.state.mac)[k]
                              ^ suite.gcmStream(rootKey.state.key, rootKey.state.iv, k)
      ensures rootKey.state.mac
        == suite.gcmTag(rootKey.state.key, rootKey.state.iv, [], buffer[at + 8..at + 8 + GCM_CONTEXT_SIZE])
    {
      ghost var before := buffer[..];
      var cipher := rootKey.Encrypt(suite, ctx.state.Encode(), []);
      Memcpy(buffer, at + 8, cipher);
      Memcpy(buffer, at, Size(|cipher|));
      OverlayBefore(before, at, Size(|cipher|), cipher);
      assert buffer[at + 8..at + 8 + GCM_CONTEXT_SIZE] == cipher;
      forall k: nat | k < GCM_CONTEXT_SIZE
        ensures buffer[at + 8 + k]
          == (ctx.state.key + ctx.state.iv + ctx.state.mac)[k] ^ suite.gcmStream(rootKey.state.key, rootKey.state.iv, k)
      {
        GcmXorAt(suite, rootKey.state.key, rootKey.state.iv, ctx.state.Encode(), k);
        assert buffer[at + 8 + k] == cipher[k];
      }
    }

    /** `e_dump` after the preamble: the sections are laid out from the end of the buffer. */
    method EDumpTail(pre: Bytes, sens: Bytes, buffer: array<Byte>)
      requires Valid() && SealedSize(pre, sens) <= buffer.Length && |sens| < SECTION_LIMIT
      modifies rootKey, ctx, buffer
      ensures Valid()
      ensures ctx.state == old(ctx.state).(mac := SectionMac(suite, old(ctx.state), pre, sens))
      ensures rootKey.state == old(rootKey.state).(mac := RootMac(suite, old(rootKey.state), ctx.state))
      ensures var tail := SealedTail(suite, old(rootKey.state), old(ctx.state), pre, sens);
              buffer[..] == Overlay(old(buffer[..]), buffer.Length - |tail|, tail)
    {
      hide Overlay, GcmXor;
      ghost var before, root, own := buffer[..], rootKey.state, ctx.state;
      var sensitiveOffset: nat := buffer.Length - (8 + |sens|);
      EDumpSensitive(pre, sens, buffer, sensitiveOffset);
      var cryptoOffset: nat := sensitiveOffset - (8 + GCM_CONTEXT_SIZE);
      EDumpCrypto(buffer, cryptoOffset);
      var macOffset: nat := cryptoOffset - MAC_SIZE;
      Memcpy(buffer, macOffset, rootKey.state.mac);
      TailLayout(before, macOffset, RootMac(suite, root, ctx.state), CryptoSection(suite, root, ctx.state),
                 SensitiveSection(suite, own, sens));
    }

    /** `e_load` after the preamble, up to the sensitive section: overwrites the tag of the shared root key first. */
    method ELoadCrypto(s: Bytes) returns (r: Parsed<()>)
      requires Valid()
      modifies rootKey, ctx
      ensures Valid() && rootKey.state == old(rootKey.state).(mac := rootKey.state.mac)
      ensures var p := OpenCrypto(suite, old(rootKey.state), s);
        && (p.Done? <==> r.Done?) && (p.Rejected? <==> r.Rejected?)
        && (p.Done? ==> ctx.state == p.value && r.rest == p.rest)
      ensures r.Done? ==>
        |s| >= 68 && rootKey.state.mac == s[..16] == suite.gcmTag(rootKey.state.key, rootKey.state.iv, [], s[24..68])
    {
      if |s| < MAC_SIZE {
        return Rejected;
      }
      rootKey.state := rootKey.state.(mac := s[..MAC_SIZE]);
      var rest := s[MAC_SIZE..];
      if |rest| < 8 {
        return Rejected;
      }
      var size := FromLittleEndian(rest[..8]);
      rest := rest[8..];
      if |rest| < size {
        return Rejected;
      }
      var ok, plain := rootKey.Decrypt(suite, rest[..size], []);
      if !ok {
        return Rejected;
      }
      if |plain| != GCM_CONTEXT_SIZE {
        return Fault;
      }
      ctx.state := DecodeContext(plain);
      assert rest[..size] == s[24..68];
      r := Done((), rest[size..]);
    }

    /** `e_load_sensitive`, up to handing the plain section to the node. */
    method ELoadSensitive(pre: Bytes, s: Bytes) returns (r: Parsed<Bytes>)
      requires Valid()
      ensures r == OpenSection(suite, ctx.state, pre, s)
      ensures r.Done? ==>
        8 + |r.value| <= |s|
        && ctx.state.mac == suite.gcmTag(ctx.state.key, ctx.state.iv, pre, s[8..8 + |r.value|])
    {
      if |s| < 8 {
        return Rejected;
      }
      var size, rest := FromLittleEndian(s[..8]), s[8..];
      if |rest| < size {
        return Rejected;
      }
      var ok, plain := ctx.Decrypt(suite, rest[..size], pre);
      r := if ok then Done(plain, rest[size..]) else Rejected;
      assert rest[..size] == s[8..8 + size];
    }
  }
}
