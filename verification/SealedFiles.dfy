/** The ciphertext of a whole file as one flat sequence: block `i` is encrypted under key `i`. */
module SealedFiles {
  import opened ByteStrings
  import opened Crypto
  import opened Blocks

  /** Every block with a byte of `w` in it, `w` being laid out from block `base` on, has a key. */
  ghost predicate HasKeys(keys: map<nat, CtrContext>, bs: nat, base: nat, w: Bytes) {
    forall i: nat {:trigger i in keys} :: base <= i && BlockStart(bs, i - base) < |w| ==> i in keys
  }

  ghost function SealByte(suite: CipherSuite, keys: map<nat, CtrContext>, bs: nat, base: nat, w: Bytes, k: nat): Byte
    requires bs > 0 && HasKeys(keys, bs, base, w) && k < |w|
  {
    BlockOf(bs, k);
    var ctx := keys[base + k / bs];
    w[k] ^ suite.ctrStream(ctx.key, ctx.ctr, k % bs)
  }

  ghost function SealFlat(suite: CipherSuite, keys: map<nat, CtrContext>, bs: nat, base: nat, w: Bytes): (c: Bytes)
    requires bs > 0 && HasKeys(keys, bs, base, w)
    ensures |c| == |w|
  {
    seq(|w|, k requires 0 <= k < |w| => SealByte(suite, keys, bs, base, w, k))
  }

  lemma SealByteAt(suite: CipherSuite, keys: map<nat, CtrContext>, bs: nat, base: nat, w: Bytes, i: nat, t: nat)
    requires bs > 0 && HasKeys(keys, bs, base, w) && t < bs && BlockStart(bs, i) + t < |w|
    ensures base + i in keys
    ensures SealByte(suite, keys, bs, base, w, BlockStart(bs, i) + t)
            == w[BlockStart(bs, i) + t] ^ suite.ctrStream(keys[base + i].key, keys[base + i].ctr, t)
  {
    InBlock(bs, i, t);
  }

  /** Read block by block, the flat ciphertext is the encryption of the flat plaintext's block. */
  lemma SealedChunk(suite: CipherSuite, keys: map<nat, CtrContext>, bs: nat, base: nat, w: Bytes, i: nat)
    requires bs > 0 && HasKeys(keys, bs, base, w) && BlockStart(bs, i) < |w|
    ensures base + i in keys
    ensures Chunk(SealFlat(suite, keys, bs, base, w), bs, i) == Ctr(suite, keys[base + i], Chunk(w, bs, i))
  {
    var l, r := Chunk(SealFlat(suite, keys, bs, base, w), bs, i), Ctr(suite, keys[base + i], Chunk(w, bs, i));
    forall t: nat | t < |l|
      ensures l[t] == r[t]
    {
      SealByteAt(suite, keys, bs, base, w, i, t);
    }
  }

  lemma SameBlock(bs: nat, start: nat, k: nat)
    requires bs > 0
    ensures (BlockStart(bs, start) + k) / bs == start + k / bs
    ensures (BlockStart(bs, start) + k) % bs == k % bs
  {
    BlockOf(bs, k);
    BlockStartSum(bs, start, k / bs);
    InBlock(bs, start + k / bs, k % bs);
  }

  /** A block-aligned slice of the ciphertext is the ciphertext of that slice. */
  lemma SealedSlice(suite: CipherSuite, keys: map<nat, CtrContext>, bs: nat, f: Bytes, start: nat, span: nat)
    requires bs > 0 && HasKeys(keys, bs, 0, f)
    ensures var w := BytesFrom(f, span, BlockStart(bs, start));
      HasKeys(keys, bs, start, w) &&
      BytesFrom(SealFlat(suite, keys, bs, 0, f), span, BlockStart(bs, start)) == SealFlat(suite, keys, bs, start, w)
  {
    var from := BlockStart(bs, start);
    var w := BytesFrom(f, span, from);
    forall i: nat | start <= i && BlockStart(bs, i - start) < |w|
      ensures i in keys
    {
      BlockStartSum(bs, start, i - start);
    }
    forall k: nat | k < |w|
      ensures SealByte(suite, keys, bs, 0, f, from + k) == SealByte(suite, keys, bs, start, w, k)
    {
      SameBlock(bs, start, k);
    }
  }

  /** Block `i` of a file of `size` bytes lies before or after the `width` bytes from block `start` on. */
  predicate KeptBlock(keys: map<nat, CtrContext>, bs: nat, size: nat, start: nat, width: nat, i: nat) {
    i in keys && BlockStart(bs, i) < size && (i < start || width <= BlockStart(bs, i - start))
  }

  /**
   For the blocks of a file of `size` bytes, `keys'` differs from `keys` at most where `w` lies, from block `start`
   on.
   */
  ghost predicate KeysFor(keys: map<nat, CtrContext>, keys': map<nat, CtrContext>, bs: nat, size: nat, start: nat,
                          w: Bytes) {
    && HasKeys(keys', bs, start, w)
    && (forall i: nat :: i in keys ==> i in keys')
    && (forall i: nat :: KeptBlock(keys, bs, size, start, |w|, i) ==> keys'[i] == keys[i])
  }

  /** `w` ends on a block boundary, or at or past the end of the file. */
  ghost predicate WholeBlocks(bs: nat, fileSize: nat, start: nat, width: nat) {
    fileSize <= BlockStart(bs, start) + width || exists n: nat :: width == BlockStart(bs, n)
  }

  lemma OverlayKeys(keys: map<nat, CtrContext>, keys': map<nat, CtrContext>, bs: nat, f: Bytes, start: nat, w: Bytes)
    requires bs > 0 && BlockStart(bs, start) <= |f|
    requires HasKeys(keys, bs, 0, f) && KeysFor(keys, keys', bs, |f|, start, w)
    ensures HasKeys(keys', bs, 0, Overlay(f, BlockStart(bs, start), w))
  {
    forall i: nat | BlockStart(bs, i) < |Overlay(f, BlockStart(bs, start), w)|
      ensures i in keys'
    {
      if |f| <= BlockStart(bs, i) {
        Apart(bs, i, start);
        BlockStartSum(bs, start, i - start);
      }
    }
  }

  lemma Untouched(bs: nat, start: nat, fileSize: nat, width: nat, k: nat)
    requires bs > 0 && k < fileSize
    requires k < BlockStart(bs, start) || BlockStart(bs, start) + width <= k
    requires WholeBlocks(bs, fileSize, start, width)
    ensures k / bs < start || width <= BlockStart(bs, k / bs - start)
  {
    BlockOf(bs, k);
    if BlockStart(bs, start) + width <= k {
      var n: nat :| width == BlockStart(bs, n);
      BlockStartSum(bs, start, n);
      Apart(bs, start + n, k / bs);
      if start <= k / bs {
        Apart(bs, n, k / bs - start);
      }
    }
  }

  lemma OverlayByte(suite: CipherSuite, keys: map<nat, CtrContext>, keys': map<nat, CtrContext>, bs: nat,
                    f: Bytes, start: nat, w: Bytes, k: nat)
    requires bs > 0 && HasKeys(keys, bs, 0, f) && KeysFor(keys, keys', bs, |f|, start, w)
    requires BlockStart(bs, start) <= |f| && WholeBlocks(bs, |f|, start, |w|)
    requires HasKeys(keys', bs, 0, Overlay(f, BlockStart(bs, start), w))
    requires k < |Overlay(f, BlockStart(bs, start), w)|
    ensures var from := BlockStart(bs, start);
      SealByte(suite, keys', bs, 0, Overlay(f, from, w), k) ==
      if from <= k < from + |w| then SealByte(suite, keys', bs, start, w, k - from)
      else SealByte(suite, keys, bs, 0, f, k)
  {
    var from := BlockStart(bs, start);
    if from <= k < from + |w| {
      SameBlock(bs, start, k - from);
    } else {
      Untouched(bs, start, |f|, |w|, k);
      BlockOf(bs, k);
      assert k / bs in keys;
      hide Overlay, BlockStart;
      assert KeptBlock(keys, bs, |f|, start, |w|, k / bs);
    }
  }

  /** Overwriting a block-aligned range with its new ciphertext reseals the overwritten file. */
  lemma SealedOverlay(suite: CipherSuite, keys: map<nat, CtrContext>, keys': map<nat, CtrContext>, bs: nat,
                      f: Bytes, start: nat, w: Bytes)
    requires bs > 0 && HasKeys(keys, bs, 0, f) && KeysFor(keys, keys', bs, |f|, start, w)
    requires BlockStart(bs, start) <= |f| && WholeBlocks(bs, |f|, start, |w|)
    ensures var from := BlockStart(bs, start);
      HasKeys(keys', bs, 0, Overlay(f, from, w)) &&
      Overlay(SealFlat(suite, keys, bs, 0, f), from, SealFlat(suite, keys', bs, start, w))
      == SealFlat(suite, keys', bs, 0, Overlay(f, from, w))
  {
    var from := BlockStart(bs, start);
    OverlayKeys(keys, keys', bs, f, start, w);
    var l := Overlay(SealFlat(suite, keys, bs, 0, f), from, SealFlat(suite, keys', bs, start, w));
    var r := SealFlat(suite, keys', bs, 0, Overlay(f, from, w));
    forall k: nat | k < |r|
      ensures l[k] == r[k]
    {
      OverlayByte(suite, keys, keys', bs, f, start, w, k);
    }
  }

  /** The encryption of every loaded block gives the loaded window of the ciphertext, and back. */
  lemma SealedWindow(suite: CipherSuite, keys: map<nat, CtrContext>, bs: nat, base: nat, w: Bytes,
                     plain: map<nat, Bytes>, cipher: map<nat, Bytes>)
    requires bs > 0 && HasKeys(keys, bs, base, w) && Window(plain, bs, base, w)
    requires cipher.Keys == plain.Keys
    requires forall i: nat :: i in plain ==> i in keys && cipher[i] == Ctr(suite, keys[i], plain[i])
    ensures Window(cipher, bs, base, SealFlat(suite, keys, bs, base, w))
  {
    var c := SealFlat(suite, keys, bs, base, w);
    forall i: nat
      ensures Holds(cipher, bs, base, c, i)
    {
      assert Holds(plain, bs, base, w, i);
      if i in plain {
        SealedChunk(suite, keys, bs, base, w, i - base);
      }
    }
  }
}
