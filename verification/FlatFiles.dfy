/** The file operations on one flat byte sequence: what blocks, keys and ciphertext are proved against. */
module FlatFiles {
  import opened ByteStrings
  import opened Errno
  import opened Crypto
  import opened Blocks

  const INT_LIMIT: nat := 0x8000_0000

  /** A write is accepted inside the file, right at its end, or in the rest of its last block. */
  predicate Accepts(bs: nat, size: nat, offset: nat)
    requires bs > 0
  {
    offset <= size || BlockStart(bs, offset / bs) < size
  }

  /** An empty write at a positive block boundary of the file is the one kind whose size `e_size` gets wrong. */
  predicate WritableAt(bs: nat, size: nat, offset: nat, length: nat)
    requires bs > 0
  {
    length == 0 && 0 < offset <= size ==> offset % bs > 0
  }

  /** What `write_file` returns for a user who may write, and the file it leaves. */
  function WriteFlat(bs: nat, f: Bytes, offset: nat, data: Bytes): (int, Bytes)
    requires bs > 0
  {
    if Accepts(bs, |f|, offset) then (|data|, Splice(f, offset, data))
    else (if |f| < BlockStart(bs, offset / bs) then -EPROTO else -1, f)
  }

  /**
   An offset past the end of the file, but inside its last block, is the one kind that `read` does not guard
   against.
   */
  predicate ReadableAt(bs: nat, size: nat, offset: nat)
    requires bs > 0
  {
    offset <= size || size <= BlockStart(bs, offset / bs)
  }

  /** What `read_file` returns for a user who may read, and the bytes it stores. */
  function ReadFlat(bs: nat, f: Bytes, offset: nat, length: nat): (int, Bytes)
    requires bs > 0
  {
    if length > 0 && |f| < BlockStart(bs, offset / bs) then (-EPROTO, [])
    else (|BytesFrom(f, length, offset)|, BytesFrom(f, length, offset))
  }

  /**
   Byte by byte, a splice is the new data where it lies, the old file elsewhere, and zeros in the gap between them.
   */
  lemma SpliceAt(f: Bytes, offset: nat, data: Bytes, k: nat)
    requires k < |Splice(f, offset, data)|
    ensures Splice(f, offset, data)[k]
      == if offset <= k < offset + |data| then data[k - offset] else if k < |f| then f[k] else 0
  {
  }

  /** A user who may do both reads back what was just written, and the rest of the file as it was. */
  lemma ReadsOwnWrite(bs: nat, f: Bytes, offset: nat, data: Bytes)
    requires bs > 0 && Accepts(bs, |f|, offset)
    ensures var f' := WriteFlat(bs, f, offset, data).1;
      && ReadFlat(bs, f', offset, |data|) == (|data|, data)
      && (forall at: nat, n: nat ::
            at + n <= offset && at + n <= |f| ==> ReadFlat(bs, f', at, n) == ReadFlat(bs, f, at, n))
      && (forall at: nat, n: nat :: offset + |data| <= at <= |f| ==> ReadFlat(bs, f', at, n) == ReadFlat(bs, f, at, n))
  {
    var f' := Splice(f, offset, data);
    BlockOf(bs, offset);
    assert BytesFrom(f', |data|, offset) == data;
    forall at: nat, n: nat | (at + n <= offset && at + n <= |f|) || offset + |data| <= at <= |f|
      ensures ReadFlat(bs, f', at, n) == ReadFlat(bs, f, at, n)
    {
      BlockOf(bs, at);
      assert BytesFrom(f', n, at) == BytesFrom(f, n, at);
    }
  }

  /** The codes and the bytes of a read: 71 when the block of the offset begins past the end. */
  lemma ReadExactly(bs: nat, f: Bytes, offset: nat, length: nat)
    requires bs > 0
    ensures var (code, data) := ReadFlat(bs, f, offset, length);
      && (code == -71 <==> length > 0 && |f| < offset - offset % bs) && (code < 0 ==> code == -71 && data == [])
      && (code >= 0 ==> code == |data| == (if |f| <= offset then 0 else Min(length, |f| - offset)))
      && forall k :: 0 <= k < |data| ==> data[k] == f[offset + k]
  {
    BlockOf(bs, offset);
  }

  /** The codes of a write: 71 as for a read, and 1 when the file ends where the block of the offset begins. */
  lemma WriteExactly(bs: nat, f: Bytes, offset: nat, data: Bytes)
    requires bs > 0
    ensures var (code, g) := WriteFlat(bs, f, offset, data);
      && (code == -71 <==> |f| < offset - offset % bs) && (code == -1 <==> |f| == offset - offset % bs && offset > |f|)
      && (code < 0 ==> (code == -71 || code == -1) && g == f) && (code >= 0 ==> code == |data|)
      && (code >= 0 ==> |g| == (if |f| < offset + |data| then offset + |data| else |f|)
                        && forall k :: 0 <= k < |g| ==>
                             g[k] == if offset <= k < offset + |data| then data[k - offset]
                                     else if k < |f| then f[k] else 0)
  {
    BlockOf(bs, offset);
    if WriteFlat(bs, f, offset, data).0 >= 0 {
      forall k: nat | k < |Splice(f, offset, data)|
        ensures Splice(f, offset, data)[k]
          == if offset <= k < offset + |data| then data[k - offset] else if k < |f| then f[k] else 0
      {
        SpliceAt(f, offset, data, k);
      }
    }
  }

  /** Past the end, an empty write at a block boundary is refused like any other. */
  lemma BoundaryAccepted(bs: nat, size: nat, offset: nat)
    requires bs > 0 && offset > 0 && offset % bs == 0
    ensures Accepts(bs, size, offset) <==> offset <= size
    ensures offset == BlockStart(bs, offset / bs)
  {
    BlockOf(bs, offset);
  }

  lemma AcceptedFits(bs: nat, f: Bytes, offset: nat, data: Bytes)
    requires bs > 0 && Accepts(bs, |f|, offset) && |f| < INT_LIMIT && offset + |data| < INT_LIMIT
    ensures BlockStart(bs, offset / bs) <= |f| && |Splice(f, offset, data)| < INT_LIMIT
  {
    BlockOf(bs, offset);
  }

  // ----- the keys of a file -----

  /** How many keys a file of `size` bytes has; an empty one keeps the key of its first block, if it ever had one. */
  function KeyCount(bs: nat, size: nat, keyed: bool): nat
    requires bs > 0
  {
    if size > 0 then (size - 1) / bs + 1 else if keyed then 1 else 0
  }

  /** The size of the sensitive section of a file node, `section` being that of its node part. */
  function FileSection(section: nat, bs: nat, size: nat, keyed: bool): nat
    requires bs > 0
  {
    section + 8 + KeyCount(bs, size, keyed) * CTR_CONTEXT_SIZE
  }
}
