/** `FilenodeContent`: the loaded plain and cipher blocks of one file, and its running size. */
module FilenodeContents {
  import opened ByteStrings
  import opened Crypto
  import opened Blocks

  /** `map<size_t, lauxus_ctr_t*>`, owned by the file node and shared with its content. */
  class KeyTable {
    var entries: map<nat, CtrContext>

    constructor ()
      ensures entries == map[]
    {
      entries := map[];
    }
  }

  ghost predicate ValidKeys(entries: map<nat, CtrContext>) {
    forall i: nat :: i in entries ==> entries[i].Valid()
  }

  /** The fields of a content object and its keys at one moment. */
  datatype Snapshot = Snapshot(keys: map<nat, CtrContext>, size: nat, plain: map<nat, Bytes>, cipher: map<nat, Bytes>) {
    ghost predicate Valid() {
      ValidKeys(keys) && forall i: nat :: i in plain ==> i in keys
    }
  }

  /** Keys `lo..hi` exist, each with a new counter; a key that was there keeps its key, and the others are untouched. */
  ghost predicate Rekeyed(prior: map<nat, CtrContext>, now: map<nat, CtrContext>, lo: nat, hi: nat) {
    && (forall i: nat :: i in now <==> i in prior || lo <= i < hi)
    && (forall i: nat :: i in prior ==> now[i].key == prior[i].key)
    && (forall i: nat :: i in prior && !(lo <= i < hi) ==> now[i] == prior[i])
  }

  /** Block `i` of `cipher` is the encryption of block `i` of `plain` under its key and counter. */
  ghost predicate Sealed(suite: CipherSuite, keys: map<nat, CtrContext>, plain: map<nat, Bytes>,
                         cipher: map<nat, Bytes>, i: nat)
  {
    i in keys && i in plain && i in cipher && cipher[i] == Ctr(suite, keys[i], plain[i])
  }

  /** Blocks `lo..hi` are encrypted afresh, the others have the ciphertext they had. */
  ghost predicate Resealed(suite: CipherSuite, keys: map<nat, CtrContext>, plain: map<nat, Bytes>,
                           prior: map<nat, Bytes>, cipher: map<nat, Bytes>, lo: nat, hi: nat)
  {
    && (forall i: nat :: lo <= i < hi ==> Sealed(suite, keys, plain, cipher, i))
    && (forall i: nat :: !(lo <= i < hi) ==> (i in cipher <==> i in prior) && (i in prior ==> cipher[i] == prior[i]))
  }

  /** What encrypting blocks `lo..hi` does to keys and ciphertext. */
  ghost predicate Encrypted(suite: CipherSuite, s: Snapshot, s': Snapshot, lo: nat, hi: nat) {
    Rekeyed(s.keys, s'.keys, lo, hi) && Resealed(suite, s'.keys, s'.plain, s.cipher, s'.cipher, lo, hi)
  }

  lemma EncryptedStep(suite: CipherSuite, s0: Snapshot, s1: Snapshot, s2: Snapshot, lo: nat, hi: nat)
    requires lo <= hi && Encrypted(suite, s0, s1, lo, hi) && Encrypted(suite, s1, s2, hi, hi + 1)
    requires forall i: nat :: i in s1.plain && i != hi ==> i in s2.plain && s2.plain[i] == s1.plain[i]
    ensures Encrypted(suite, s0, s2, lo, hi + 1)
  {
    forall i: nat | lo <= i < hi
      ensures Sealed(suite, s2.keys, s2.plain, s2.cipher, i)
    {
      assert Sealed(suite, s1.keys, s1.plain, s1.cipher, i);
    }
  }

  /** Block `index`, loaded or new, now holds `block`, and its growth is added to `size`. */
  ghost predicate WroteBlock(suite: CipherSuite, s: Snapshot, s': Snapshot, index: nat, block: Bytes) {
    && s'.plain == s.plain[index := block]
    && s'.size == s.size + |block| - (if index in s.plain then |s.plain[index]| else 0)
    && Encrypted(suite, s, s', index, index + 1)
  }

  /** Writing the next piece of `data` after the first `written` bytes. */
  lemma SpliceTurn(w: Bytes, at: nat, data: Bytes, written: nat, written': nat, cur: Bytes, from: nat, first: bool)
    requires written <= written' <= |data|
    requires if first then written == 0 && cur == w && from == at
             else cur == Splice(w, at, data[..written])
                  && (if written < written' then from == at + written else from <= |cur|)
    ensures Splice(cur, from, data[written..written']) == Splice(w, at, data[..written'])
  {
    hide Splice;
    assert data[..written] + data[written..written'] == data[..written'];
    if first {
      assert data[written..written'] == data[..written'];
    } else if written < written' {
      SpliceAppend(w, at, data[..written], data[written..written']);
    } else {
      SpliceNothing(cur, from);
    }
  }

  /** The block written: a loaded one overlaid, or a new one right after the last, full one. */
  ghost predicate BlockFor(bs: nat, base: nat, blocks: map<nat, Bytes>, cur: Bytes, index: nat, offsetInBlock: nat,
                           piece: Bytes, block: Bytes)
    requires base <= index
  {
    if index in blocks
    then block == Splice(blocks[index], offsetInBlock, piece)
    else offsetInBlock == 0 && piece != [] && |cur| == BlockStart(bs, index - base) && block == piece
  }

  lemma WindowStep(bs: nat, base: nat, blocks: map<nat, Bytes>, cur: Bytes, index: nat, offsetInBlock: nat,
                   piece: Bytes, block: Bytes)
    requires Window(blocks, bs, base, cur) && base <= index && offsetInBlock + |piece| <= bs
    requires BlockFor(bs, base, blocks, cur, index, offsetInBlock, piece, block)
    ensures var cur' := Splice(cur, BlockStart(bs, index - base) + offsetInBlock, piece);
      && Window(blocks[index := block], bs, base, cur')
      && |cur'| == |cur| + |block| - (if index in blocks then |blocks[index]| else 0)
      && BlockStart(bs, index - base) <= |cur|
  {
    hide Window, BlockStart;
    if index in blocks {
      hide Splice;
      WriteInsideBlock(blocks, bs, base, cur, index, offsetInBlock, piece);
    } else {
      AppendBlock(blocks, bs, base, cur, index, piece);
      assert Splice(cur, |cur|, piece) == cur + piece;
    }
  }

  /** One accepted call of `write`: `data` at `offset`, the loaded blocks holding `w` from block `base` on. */
  datatype Job = Job(suite: CipherSuite, bs: nat, offset: nat, data: Bytes, base: nat, w: Bytes, before: Snapshot) {

    /** At a block boundary the write starts inside the loaded blocks or right after a full last one. */
    ghost predicate Ok() {
      && bs > 0 && before.Valid() && Window(before.plain, bs, base, w) && |w| <= before.size
      && base <= Range().start && BlockStart(bs, base) <= offset
      && (data != [] || offset > 0)
      && (if Range().offsetInBlock == 0 then BlockStart(bs, Range().start - base) <= |w|
          else Range().start in before.plain)
    }

    ghost function Range(): BlockRange
      requires bs > 0
    {
      BlockRequired(bs, offset, |data|)
    }

    ghost function OffsetIn(index: nat): nat
      requires bs > 0
    {
      if index == Range().start then Range().offsetInBlock else 0
    }

    /** What the loaded blocks hold when the write has come to block `index`. */
    ghost function Current(index: nat, written: nat): Bytes
      requires Ok() && written <= |data|
    {
      if index == Range().start then w else Splice(w, offset - BlockStart(bs, base), data[..written])
    }

    /** `written` is the number of bytes of `data` that go before block `index`. */
    ghost predicate Position(index: nat, written: nat)
      requires Ok()
    {
      && Range().start <= index <= Range().end + 1
      && offset + written == Min(offset + |data|, BlockStart(bs, index) + OffsetIn(index))
    }

    /** The state between two turns of the loops of `write`. */
    ghost predicate Reached(s: Snapshot, index: nat, written: nat)
      requires Ok()
    {
      && Position(index, written)
      && s.Valid() && Window(s.plain, bs, base, Current(index, written))
      && s.size + |w| == before.size + |Current(index, written)|
      && Encrypted(suite, before, s, Range().start, index)
    }

    lemma Bounds()
      requires Ok()
      ensures Range().start <= Range().end + 1 && Range().offsetInBlock < bs
      ensures offset == BlockStart(bs, Range().start) + Range().offsetInBlock
      ensures offset + |data| <= BlockStart(bs, Range().end + 1)
    {
      RangeCovers(bs, offset, |data|);
      MulStep(bs, Range().end);
      if data == [] {
        EmptyRange(bs, offset);
        MulStep(bs, Range().start);
      }
    }

    lemma Start()
      requires Ok()
      ensures Reached(before, Range().start, 0)
    {
      Bounds();
    }

    /** The turn that writes `data[written..written']` into block `index` as `block`. */
    lemma Turn(s: Snapshot, s': Snapshot, index: nat, written: nat, written': nat, block: Bytes)
      requires Ok() && Reached(s, index, written) && s'.Valid()
      requires index <= Range().end
      requires written' == written + Min(|data| - written, bs - OffsetIn(index))
      requires WroteBlock(suite, s, s', index, block)
      requires BlockFor(bs, base, s.plain, Current(index, written), index, OffsetIn(index), data[written..written'],
                        block)
      ensures Reached(s', index + 1, written')
    {
      hide Splice, BlockStart, Window, Encrypted, BlockFor;
      var cur := Current(index, written);
      PositionTurn(index, written);
      hide Ok, Position;
      WindowStep(bs, base, s.plain, cur, index, OffsetIn(index), data[written..written'], block);
      EncryptedStep(suite, before, s, s', Range().start, index);
      BlockStartSum(bs, base, index - base);
      SpliceTurn(w, offset - BlockStart(bs, base), data, written, written', cur,
                 BlockStart(bs, index - base) + OffsetIn(index), index == Range().start);
    }

    lemma PositionTurn(index: nat, written: nat)
      requires Ok() && Position(index, written) && written <= |data| && index <= Range().end
      ensures Position(index + 1, written + Min(|data| - written, bs - OffsetIn(index)))
      ensures base <= Range().start <= index && BlockStart(bs, base) <= offset && OffsetIn(index) < bs
      ensures index == Range().start || written < |data| ==> offset + written == BlockStart(bs, index) + OffsetIn(index)
      ensures index == Range().start ==> written == 0
    {
      Bounds();
      MulStep(bs, index);
    }

    /** Where a block is not loaded, the rest of the data goes right after the last, full one. */
    lemma Appends(s: Snapshot, index: nat, written: nat)
      requires Ok() && Reached(s, index, written) && written < |data|
      ensures index <= Range().end && (index !in s.plain ==>
        && OffsetIn(index) == 0 && |Current(index, written)| == BlockStart(bs, index - base)
        && index + 1 !in s.plain)
    {
      Bounds();
      BlockStartSum(bs, base, index - base);
      WindowHolds(s.plain, bs, base, Current(index, written), index);
      WindowHolds(before.plain, bs, base, w, index);
      WindowHolds(s.plain, bs, base, Current(index, written), index + 1);
      Apart(bs, index - base, index + 1 - base);
    }

    /** The whole effect of an accepted write. */
    ghost predicate Finished(s: Snapshot)
      requires bs > 0 && BlockStart(bs, base) <= offset
    {
      var w' := Splice(w, offset - BlockStart(bs, base), data);
      && s.Valid() && Window(s.plain, bs, base, w') && s.size + |w| == before.size + |w'|
      && Encrypted(suite, before, s, Range().start, Range().end + 1)
    }

    lemma Finishes(s: Snapshot)
      requires Ok() && Reached(s, Range().end + 1, |data|)
      ensures Finished(s)
    {
      Done(s, Range().end + 1);
    }

    lemma Loaded(s: Snapshot, index: nat, written: nat)
      requires Ok() && Reached(s, index, written)
      ensures bs > 0 && base <= index && written <= |data| && OffsetIn(index) < bs && s.Valid()
      ensures index in s.plain ==> |s.plain[index]| <= bs && |s.plain[index]| <= s.size
    {
      Bounds();
      WindowHolds(s.plain, bs, base, Current(index, written), index);
    }

    /** When all is written, the whole range is encrypted afresh and the blocks hold the splice. */
    lemma Done(s: Snapshot, index: nat)
      requires Ok() && Reached(s, index, |data|) && (index <= Range().end ==> index !in s.plain)
      ensures index == Range().end + 1
      ensures Current(index, |data|) == Splice(w, offset - BlockStart(bs, base), data)
    {
      Bounds();
      RangeCovers(bs, offset, |data|);
      assert data[..|data|] == data;
      WindowHolds(before.plain, bs, base, w, index);
      WindowHolds(s.plain, bs, base, Current(index, |data|), index);
      if index <= Range().end {
        Apart(bs, index, Range().end);
        if data == [] {
          EmptyRange(bs, offset);
        }
      }
    }
  }

  lemma AcceptedJob(job: Job)
    requires job.bs > 0 && job.before.Valid() && Window(job.before.plain, job.bs, job.base, job.w)
    requires |job.w| <= job.before.size && (job.data != [] || job.offset > 0)
    requires job.base <= job.offset / job.bs && BlockStart(job.bs, job.base) <= job.offset
    requires if job.offset % job.bs == 0 then job.offset <= BlockStart(job.bs, job.base) + |job.w|
             else job.offset / job.bs in job.before.plain
    ensures job.Ok()
  {
    BlockOf(job.bs, job.offset);
    BlockStartSum(job.bs, job.base, job.Range().start - job.base);
  }

  // ----- reading loaded blocks -----

  /** `read` bytes are copied, as many as there are before block `index`. */
  ghost predicate Copied(bs: nat, base: nat, w: Bytes, offset: nat, length: nat, index: nat, offsetInBlock: nat,
                         read: nat)
    requires bs > 0
  {
    && base <= offset / bs <= index && BlockStart(bs, base) <= offset <= BlockStart(bs, base) + |w|
    && offsetInBlock == (if index == offset / bs then offset % bs else 0)
    && offset + read == Min(Min(offset + length, BlockStart(bs, base) + |w|), BlockStart(bs, index) + offsetInBlock)
  }

  lemma CopyStart(bs: nat, base: nat, w: Bytes, offset: nat, length: nat)
    requires bs > 0 && base <= offset / bs && BlockStart(bs, base) <= offset <= BlockStart(bs, base) + |w|
    ensures Copied(bs, base, w, offset, length, offset / bs, offset % bs, 0)
  {
    BlockOf(bs, offset);
  }

  lemma NothingThere(blocks: map<nat, Bytes>, bs: nat, base: nat, w: Bytes, offset: nat, length: nat)
    requires bs > 0 && Window(blocks, bs, base, w) && offset / bs !in blocks
    requires base <= offset / bs && BlockStart(bs, base) <= offset
    ensures BytesFrom(w, length, offset - BlockStart(bs, base)) == []
  {
    WindowHolds(blocks, bs, base, w, offset / bs);
    BlockOf(bs, offset);
    BlockStartSum(bs, base, offset / bs - base);
  }

  lemma CopyTurn(blocks: map<nat, Bytes>, bs: nat, base: nat, w: Bytes, offset: nat, length: nat,
                 index: nat, offsetInBlock: nat, read: nat)
    requires bs > 0 && Window(blocks, bs, base, w) && index in blocks
    requires Copied(bs, base, w, offset, length, index, offsetInBlock, read) && read < length
    ensures offsetInBlock <= |blocks[index]|
    ensures var more := Min(length - read, |blocks[index]| - offsetInBlock);
      && offset - BlockStart(bs, base) + read + more <= |w|
      && Copied(bs, base, w, offset, length, index + 1, 0, read + more)
      && blocks[index][offsetInBlock..offsetInBlock + more] == BytesFrom(w, more, offset - BlockStart(bs, base) + read)
  {
    WindowHolds(blocks, bs, base, w, index);
    BlockStartSum(bs, base, index - base);
    MulStep(bs, index);
    BlockOf(bs, offset);
  }

  lemma CopyDone(blocks: map<nat, Bytes>, bs: nat, base: nat, w: Bytes, offset: nat, length: nat,
                 index: nat, offsetInBlock: nat, read: nat)
    requires bs > 0 && Window(blocks, bs, base, w)
    requires Copied(bs, base, w, offset, length, index, offsetInBlock, read)
    requires index > BlockRequired(bs, offset, length).end || read >= length || index !in blocks
    ensures BytesFrom(w, length, offset - BlockStart(bs, base)) == BytesFrom(w, read, offset - BlockStart(bs, base))
    ensures read == |BytesFrom(w, length, offset - BlockStart(bs, base))|
  {
    WindowHolds(blocks, bs, base, w, index);
    BlockStartSum(bs, base, index - base);
    RangeCovers(bs, offset, length);
    Apart(bs, BlockRequired(bs, offset, length).end, index);
  }

  lemma BytesFromAppend(w: Bytes, from: nat, read: nat, more: nat)
    requires from + read + more <= |w|
    ensures BytesFrom(w, read, from) + BytesFrom(w, more, from + read) == BytesFrom(w, read + more, from)
    ensures |BytesFrom(w, read, from)| == read
  {
  }

  // ----- dumping and loading the ciphertext of a block range -----

  /** Block `i` is one of `start..hi`, and `buffer`, laid out from block `start` on, has a byte of it. */
  predicate Wanted(bs: nat, start: nat, hi: nat, buffer: Bytes, i: nat) {
    start <= i < hi && BlockStart(bs, i - start) < |buffer|
  }

  /** The wanted blocks have keys, and a block that is already there is the one in `buffer`. */
  ghost predicate Loadable(bs: nat, start: nat, hi: nat, buffer: Bytes, s: Snapshot) {
    forall i: nat | Wanted(bs, start, hi, buffer, i) ::
      && i in s.keys
      && (i in s.cipher ==> s.cipher[i] == Chunk(buffer, bs, i - start))
      && (i in s.plain ==> |s.plain[i]| == |Chunk(buffer, bs, i - start)|)
  }

  /** What `e_load` does to block `i`: a wanted one comes from `buffer`, decrypted; another is untouched. */
  ghost predicate LoadedBlock(suite: CipherSuite, bs: nat, start: nat, hi: nat, buffer: Bytes,
                              s: Snapshot, s': Snapshot, i: nat)
  {
    if Wanted(bs, start, hi, buffer, i)
    then i in s.keys && i in s'.cipher && s'.cipher[i] == Chunk(buffer, bs, i - start)
         && i in s'.plain && s'.plain[i] == Ctr(suite, s.keys[i], s'.cipher[i])
    else (i in s'.plain <==> i in s.plain) && (i in s.plain ==> s'.plain[i] == s.plain[i])
         && (i in s'.cipher <==> i in s.cipher) && (i in s.cipher ==> s'.cipher[i] == s.cipher[i])
  }

  ghost predicate LoadedFrom(suite: CipherSuite, bs: nat, start: nat, hi: nat, buffer: Bytes, s: Snapshot,
                             s': Snapshot) {
    && s'.keys == s.keys && s'.size == s.size
    && forall i: nat :: LoadedBlock(suite, bs, start, hi, buffer, s, s', i)
  }

  lemma LoadStart(suite: CipherSuite, bs: nat, start: nat, buffer: Bytes, s: Snapshot)
    ensures LoadedFrom(suite, bs, start, start, buffer, s, s)
    ensures BlockStart(bs, 0) == 0
  {
  }

  lemma LoadTurn(suite: CipherSuite, bs: nat, start: nat, index: nat, buffer: Bytes, s: Snapshot, s': Snapshot,
                 s'': Snapshot)
    requires LoadedFrom(suite, bs, start, index, buffer, s, s') && Wanted(bs, start, index + 1, buffer, index)
    requires index in s.keys
    requires s'' == s'.(cipher := s'.cipher[index := Chunk(buffer, bs, index - start)],
                        plain := s'.plain[index := Ctr(suite, s.keys[index], Chunk(buffer, bs, index - start))])
    ensures LoadedFrom(suite, bs, start, index + 1, buffer, s, s'')
  {
    var hi := index + 1;
    forall i: nat
      ensures LoadedBlock(suite, bs, start, hi, buffer, s, s'', i)
    {
      assert LoadedBlock(suite, bs, start, index, buffer, s, s', i);
    }
  }

  /** Past the end of `buffer` no block is wanted. */
  lemma LoadDone(suite: CipherSuite, bs: nat, start: nat, index: nat, hi: nat, buffer: Bytes, s: Snapshot, s': Snapshot)
    requires LoadedFrom(suite, bs, start, index, buffer, s, s') && start <= index <= hi
    requires index == hi || |buffer| <= BlockStart(bs, index - start)
    ensures LoadedFrom(suite, bs, start, hi, buffer, s, s')
  {
    forall i: nat
      ensures LoadedBlock(suite, bs, start, hi, buffer, s, s', i)
    {
      assert LoadedBlock(suite, bs, start, index, buffer, s, s', i);
      if index < i {
        Apart(bs, index - start, i - start);
      }
    }
  }

  /** The blocks of the range are those of `c`, which reaches at least to the last of them. */
  ghost predicate RangeReady(cipher: map<nat, Bytes>, bs: nat, base: nat, c: Bytes, range: BlockRange) {
    && base <= range.start
    && (range.start <= range.end ==> BlockStart(bs, range.end - base) <= |c|)
    && (forall i: nat :: range.start <= i <= range.end ==> i in cipher && cipher[i] == Chunk(c, bs, i - base))
  }

  lemma WindowReady(cipher: map<nat, Bytes>, bs: nat, base: nat, c: Bytes, range: BlockRange)
    requires Window(cipher, bs, base, c) && base <= range.start
    requires range.start <= range.end ==> range.end in cipher
    ensures RangeReady(cipher, bs, base, c, range)
  {
    WindowHolds(cipher, bs, base, c, range.end);
    forall i: nat | range.start <= i <= range.end
      ensures i in cipher && cipher[i] == Chunk(c, bs, i - base)
    {
      WindowHolds(cipher, bs, base, c, i);
      Apart(bs, i - base, range.end - base);
    }
  }

  lemma RangeStart(cipher: map<nat, Bytes>, bs: nat, base: nat, c: Bytes, range: BlockRange)
    requires RangeReady(cipher, bs, base, c, range)
    ensures base <= range.start && BytesFrom(c, BlockStart(bs, 0), BlockStart(bs, range.start - base)) == []
  {
  }

  /** One turn of the loop of `e_dump`. */
  lemma DumpTurn(cipher: map<nat, Bytes>, bs: nat, base: nat, c: Bytes, range: BlockRange, index: nat)
    requires RangeReady(cipher, bs, base, c, range) && range.start <= index <= range.end
    ensures index in cipher
    ensures var from := BlockStart(bs, range.start - base);
      && BytesFrom(c, BlockStart(bs, index - range.start), from) + cipher[index]
         == BytesFrom(c, BlockStart(bs, index + 1 - range.start), from)
      && |BytesFrom(c, BlockStart(bs, index + 1 - range.start), from)|
         <= |BytesFrom(c, BlockStart(bs, range.end + 1 - range.start), from)|
  {
    Apart(bs, index - base, range.end - base);
    BlockStartSum(bs, range.start - base, index - range.start);
    MulStep(bs, index - range.start);
    Apart(bs, index + 1 - range.start, range.end + 1 - range.start);
  }

  /** A `size_t` value converted to `int`. */
  function AsInt(n: int): int {
    var low := n % 0x1_0000_0000;
    if low < 0x8000_0000 then low else low - 0x1_0000_0000
  }

  function EncodedSize(bs: nat, cipher: map<nat, Bytes>, range: BlockRange): int {
    AsInt((range.end - range.start) * bs + (if range.end in cipher then |cipher[range.end]| else 0))
  }

  /** The part of the loaded ciphertext `c` that lies in the block range. */
  function RangeOf(bs: nat, base: nat, c: Bytes, range: BlockRange): Bytes
    requires base <= range.start
  {
    if range.start <= range.end
    then BytesFrom(c, BlockStart(bs, range.end + 1 - range.start), BlockStart(bs, range.start - base))
    else []
  }

  lemma RangeLength(bs: nat, base: nat, c: Bytes, range: BlockRange)
    requires base <= range.start <= range.end && BlockStart(bs, range.end - base) <= |c|
    ensures |RangeOf(bs, base, c, range)| == BlockStart(bs, range.end - range.start) + |Chunk(c, bs, range.end - base)|
  {
    hide BlockStart;
    BlockStartSum(bs, range.start - base, range.end - range.start);
    MulStep(bs, range.end - range.start);
  }

  /** `e_size` is the number of bytes that `e_dump` writes. */
  lemma EncodedSizeExact(cipher: map<nat, Bytes>, bs: nat, base: nat, c: Bytes, range: BlockRange)
    requires RangeReady(cipher, bs, base, c, range) && range.start <= range.end
    requires |RangeOf(bs, base, c, range)| < 0x8000_0000
    ensures EncodedSize(bs, cipher, range) == |RangeOf(bs, base, c, range)|
  {
    assert (range.end - range.start) * bs == BlockStart(bs, range.end - range.start);
    hide RangeOf, BlockStart;
    RangeLength(bs, base, c, range);
  }

  /**
   For an empty range, the `size_t` subtraction of `e_size` wraps at a positive block boundary, unless a full block
   before it is loaded, and nowhere else.
   */
  lemma EmptyWriteWraps(bs: nat, cipher: map<nat, Bytes>, offset: nat)
    requires 0 < bs < 0x8000_0000 && forall i: nat :: i in cipher ==> |cipher[i]| <= bs
    ensures var r := BlockRequired(bs, offset, 0);
      EncodedSize(bs, cipher, r) < 0
      <==> offset > 0 && offset % bs == 0 && (r.end in cipher ==> |cipher[r.end]| < bs)
  {
    var r := BlockRequired(bs, offset, 0);
    if offset > 0 {
      EmptyRange(bs, offset);
      if offset % bs == 0 {
        assert (r.end - r.start) * bs == -1 * bs;
      } else {
        assert (r.end - r.start) * bs == 0;
      }
    } else {
      assert r.start == 0;
    }
  }

  /** With blocks of 4096 bytes, an empty write at the start of the second block asks for a buffer of -4096 bytes. */
  lemma EmptyWriteExample()
    ensures EncodedSize(4096, map[], BlockRequired(4096, 4096, 0)) == -4096
  {
  }

  /** `vector::resize`. */
  function Resize(v: Bytes, n: nat): (r: Bytes)
    ensures |r| == n
  {
    if n <= |v| then v[..n] else v + Zeros(n - |v|)
  }

  class FilenodeContent {
    const suite: CipherSuite
    const blockSize: nat
    const keys: KeyTable
    var size: nat
    var plain: map<nat, Bytes>
    var cipher: map<nat, Bytes>

    ghost function Snap(): Snapshot
      reads this, keys
    {
      Snapshot(keys.entries, size, plain, cipher)
    }

    ghost predicate Valid()
      reads this, keys
    {
      blockSize > 0 && Snap().Valid()
    }

    constructor (suite: CipherSuite, blockSize: nat, keys: KeyTable)
      requires blockSize > 0 && ValidKeys(keys.entries)
      ensures this.suite == suite && this.blockSize == blockSize && this.keys == keys
      ensures size == 0 && plain == map[] && cipher == map[]
    {
      this.suite, this.blockSize, this.keys := suite, blockSize, keys;
      size, plain, cipher := 0, map[], map[];
    }

    method FreeLoaded()
      modifies this`plain, this`cipher
      ensures plain == map[] && cipher == map[]
    {
      plain, cipher := map[], map[];
    }

    method EncryptBlock(index: nat)
      requires Valid() && index in plain
      modifies this`cipher, keys
      ensures Valid()
      ensures Encrypted(suite, old(Snap()), Snap(), index, index + 1)
    {
      var ctr := ReadRand(CTR_SIZE);
      var ctx := keys.entries[index].(ctr := ctr);
      keys.entries := keys.entries[index := ctx];
      cipher := cipher[index := Ctr(suite, ctx, plain[index])];
    }

    method DecryptBlock(index: nat)
      requires Valid() && index in cipher && index in keys.entries
      requires index in plain ==> |plain[index]| == |cipher[index]|
      modifies this`plain
      ensures Valid()
      ensures plain == old(plain)[index := Ctr(suite, keys.entries[index], cipher[index])]
    {
      plain := plain[index := Ctr(suite, keys.entries[index], cipher[index])];
    }

    /** The body of the first loop of `write`: as much of `data` as fits in a loaded block. */
    method WriteLoadedBlock(index: nat, offsetInBlock: nat, data: Bytes, written: nat) returns (written': nat)
      requires Valid() && index in plain && |plain[index]| <= blockSize
      requires offsetInBlock < blockSize && written <= |data|
      requires |plain[index]| <= size
      modifies this, keys
      ensures Valid() && written' == written + Min(|data| - written, blockSize - offsetInBlock)
      ensures WroteBlock(suite, old(Snap()), Snap(), index,
                         Splice(old(plain[index]), offsetInBlock, data[written..written']))
    {
      var block, sizeToWrite := plain[index], |data| - written;
      if blockSize < offsetInBlock + sizeToWrite {
        sizeToWrite := blockSize - offsetInBlock;
        size := size + blockSize - |block|;
        block := Resize(block, blockSize);
      } else if |block| < offsetInBlock + sizeToWrite {
        size := size + offsetInBlock + sizeToWrite - |block|;
        block := Resize(block, offsetInBlock + sizeToWrite);
      }
      written' := written + sizeToWrite;
      block := Overlay(block, offsetInBlock, data[written..written']);
      assert block == Splice(plain[index], offsetInBlock, data[written..written']);
      plain := plain[index := block];
      EncryptBlock(index);
    }

    /** The body of the second loop of `write`: a block from scratch, under a new key if it has none. */
    method WriteNewBlock(index: nat, data: Bytes, written: nat) returns (written': nat)
      requires Valid() && index !in plain && written < |data|
      modifies this, keys
      ensures Valid() && written' == written + Min(|data| - written, blockSize)
      ensures WroteBlock(suite, old(Snap()), Snap(), index, data[written..written'])
    {
      var bytesToWrite := |data| - written;
      if blockSize < bytesToWrite {
        bytesToWrite := blockSize;
      }
      written' := written + bytesToWrite;
      plain := plain[index := data[written..written']];
      if index !in keys.entries {
        var key := ReadRand(KEY_SIZE);
        var ctr := ReadRand(CTR_SIZE);
        keys.entries := keys.entries[index := CtrContext(key, ctr)];
      }
      size := size + bytesToWrite;
      EncryptBlock(index);
    }

    /** The first loop of `write`: fills as much as it can inside the loaded blocks. */
    method FillLoaded(range: BlockRange, data: Bytes, ghost job: Job) returns (index: nat, written: nat)
      requires job.Ok() && job.before == Snap() && job.suite == suite && job.bs == blockSize
      requires range == job.Range() && data == job.data
      modifies this, keys
      ensures job.Reached(Snap(), index, written)
      ensures index <= range.end ==> index !in plain
    {
      job.Start();
      job.Bounds();
      var offsetInBlock := range.offsetInBlock;
      index, written := range.start, 0;
      while index <= range.end && index in plain
        invariant job.Reached(Snap(), index, written) && offsetInBlock == job.OffsetIn(index)
      {
        ghost var s := Snap();
        job.Loaded(s, index, written);
        var written' := WriteLoadedBlock(index, offsetInBlock, data, written);
        job.Turn(s, Snap(), index, written, written', plain[index]);
        written, index, offsetInBlock := written', index + 1, 0;
      }
    }

    /** The second loop of `write`: creates new blocks for what is left. */
    method AppendNew(data: Bytes, from: nat, done: nat, ghost job: Job) returns (written: nat)
      requires job.Ok() && job.suite == suite && job.bs == blockSize && data == job.data
      requires blockSize > 0 && job.Reached(Snap(), from, done) && (from <= job.Range().end ==> from !in plain)
      modifies this, keys
      ensures written == |data|
      ensures job.Reached(Snap(), job.Range().end + 1, written)
    {
      hide Splice, BlockStart, Encrypted, Resealed, Rekeyed, Window, BlockRequired;
      hide Job.Reached, Job.Ok, Job.Current, Job.OffsetIn;
      var index: nat := from;
      written := done;
      job.Loaded(Snap(), index, written);
      while written < |data|
        invariant job.Reached(Snap(), index, written) && written <= |data|
        invariant index <= job.Range().end ==> index !in plain
      {
        ghost var s := Snap();
        job.Loaded(s, index, written);
        job.Appends(s, index, written);
        var written' := WriteNewBlock(index, data, written);
        job.Turn(s, Snap(), index, written, written', plain[index]);
        written, index := written', index + 1;
      }
      job.Done(Snap(), index);
    }

    /**
     Splices `data` at `offset` into the loaded blocks, which hold `w` from block `base` on, and encrypts the range
     afresh. An offset inside a block that is not loaded is refused.
     */
    method Write(offset: nat, data: Bytes, ghost base: nat, ghost w: Bytes) returns (r: int)
      requires Valid() && Window(plain, blockSize, base, w) && |w| <= size
      requires base <= offset / blockSize && BlockStart(blockSize, base) <= offset
      requires offset % blockSize == 0 ==> offset <= BlockStart(blockSize, base) + |w|
      modifies this, keys
      ensures Valid()
      ensures
        if data == [] && offset == 0 then
          r == 0 && Snap() == old(Snap())
        else if offset % blockSize > 0 && offset / blockSize !in old(plain) then
          r == -1 && Snap() == old(Snap())
        else
          r == |data| && Job(suite, blockSize, offset, data, base, w, old(Snap())).Finished(Snap())
    {
      var range := BlockRequired(blockSize, offset, |data|);
      if data == [] && offset == 0 {
        return 0;
      }
      if range.offsetInBlock > 0 && range.start !in plain {
        return -1;
      }
      ghost var job := Job(suite, blockSize, offset, data, base, w, Snap());
      AcceptedJob(job);
      var index, written := FillLoaded(range, data, job);
      written := AppendNew(data, index, written, job);
      job.Finishes(Snap());
      r := written;
    }

    /** One turn of the loop of `read`. */
    method CopyBlock(block: Bytes, offsetInBlock: nat, length: nat, read: nat, buffer: array<Byte>, at: nat,
                     ghost before: Bytes, ghost w: Bytes, ghost from: nat)
        returns (read': nat)
      requires offsetInBlock <= |block| && read <= length && at + length <= buffer.Length == |before|
      requires buffer[..] == Overlay(before, at, BytesFrom(w, read, from))
      requires var more := Min(length - read, |block| - offsetInBlock);
        from + read + more <= |w| && block[offsetInBlock..offsetInBlock + more] == BytesFrom(w, more, from + read)
      modifies buffer
      ensures read' == read + Min(length - read, |block| - offsetInBlock)
      ensures buffer[..] == Overlay(before, at, BytesFrom(w, read', from))
    {
      var sizeToCopy := length - read;
      if sizeToCopy > |block| - offsetInBlock {
        sizeToCopy := |block| - offsetInBlock;
      }
      BytesFromAppend(w, from, read, sizeToCopy);
      hide Overlay, BytesFrom;
      read' := Append(buffer, at, before, BytesFrom(w, read, from), read,
                      block[offsetInBlock..offsetInBlock + sizeToCopy]);
    }

    /** Copies to `buffer[at..]` what the loaded blocks hold from `offset` on, at most `length` bytes. */
    method Read(offset: nat, length: nat, buffer: array<Byte>, at: nat, ghost base: nat, ghost w: Bytes)
        returns (read: nat)
      requires Valid() && Window(plain, blockSize, base, w)
      requires base <= offset / blockSize && BlockStart(blockSize, base) <= offset
      requires offset / blockSize in plain ==> offset <= BlockStart(blockSize, base) + |w|
      requires at + length <= buffer.Length
      modifies buffer
      ensures var from := offset - BlockStart(blockSize, base);
        && read == |BytesFrom(w, length, from)|
        && buffer[..] == Overlay(old(buffer[..]), at, BytesFrom(w, length, from))
    {
      hide Window, BytesFrom, BlockStart, Overlay, Copied;
      var range := BlockRequired(blockSize, offset, length);
      ghost var from, before := offset - BlockStart(blockSize, base), buffer[..];
      read := 0;
      OverlayNothing(before, at);
      NoBytes(w, from);
      if length == 0 && offset == 0 {
        return;
      }
      if range.start !in plain {
        NothingThere(plain, blockSize, base, w, offset, length);
        return;
      }
      var index: nat, offsetInBlock: nat := range.start, range.offsetInBlock;
      CopyStart(blockSize, base, w, offset, length);
      while index <= range.end && read < length && index in plain
        invariant Copied(blockSize, base, w, offset, length, index, offsetInBlock, read)
        invariant read <= length && buffer[..] == Overlay(before, at, BytesFrom(w, read, from))
      {
        CopyTurn(plain, blockSize, base, w, offset, length, index, offsetInBlock, read);
        read := CopyBlock(plain[index], offsetInBlock, length, read, buffer, at, before, w, from);
        index, offsetInBlock := index + 1, 0;
      }
      CopyDone(plain, blockSize, base, w, offset, length, index, offsetInBlock, read);
    }

    /** One turn of the loop of `e_load`. */
    method LoadOne(start: nat, index: nat, ghost hi: nat, buffer: Bytes, read: nat, ghost s: Snapshot)
        returns (sizeToRead: nat)
      requires Valid() && Loadable(blockSize, start, hi, buffer, s) && start <= index < hi
      requires read == BlockStart(blockSize, index - start) < |buffer|
      requires LoadedFrom(suite, blockSize, start, index, buffer, s, Snap())
      modifies this`plain, this`cipher
      ensures Valid() && LoadedFrom(suite, blockSize, start, index + 1, buffer, s, Snap())
      ensures sizeToRead == Min(blockSize, |buffer| - read)
    {
      ghost var s' := Snap();
      assert Wanted(blockSize, start, hi, buffer, index);
      assert LoadedBlock(suite, blockSize, start, index, buffer, s, s', index);
      sizeToRead := |buffer| - read;
      if sizeToRead > blockSize {
        sizeToRead := blockSize;
      }
      var block := buffer[read..read + sizeToRead];
      assert block == Chunk(buffer, blockSize, index - start);
      if index !in cipher {
        cipher := cipher[index := block];
      }
      DecryptBlock(index);
      LoadTurn(suite, blockSize, start, index, buffer, s, s', Snap());
    }

    /** Takes the ciphertext of the block range from `buffer`, as far as it goes, and decrypts it. */
    method ELoad(offset: nat, length: nat, buffer: Bytes) returns (read: nat)
      requires Valid()
      requires var range := BlockRequired(blockSize, offset, length);
               Loadable(blockSize, range.start, range.end + 1, buffer, Snap())
      modifies this`plain, this`cipher
      ensures Valid()
      ensures var range := BlockRequired(blockSize, offset, length);
        if range.start <= range.end
        then read == Min(|buffer|, BlockStart(blockSize, range.end + 1 - range.start))
             && LoadedFrom(suite, blockSize, range.start, range.end + 1, buffer, old(Snap()), Snap())
        else read == 0 && Snap() == old(Snap())
    {
      hide Loadable, LoadedFrom, BlockStart, BlockRequired;
      var range := BlockRequired(blockSize, offset, length);
      ghost var s := Snap();
      read := 0;
      var index: nat := range.start;
      LoadStart(suite, blockSize, range.start, buffer, s);
      while index <= range.end && read < |buffer|
        invariant range.start <= index && (index <= range.end + 1 || index == range.start)
        invariant read == Min(|buffer|, BlockStart(blockSize, index - range.start))
        invariant Valid() && LoadedFrom(suite, blockSize, range.start, index, buffer, s, Snap())
        invariant index == range.start ==> Snap() == s
      {
        MulStep(blockSize, index - range.start);
        var sizeToRead := LoadOne(range.start, index, range.end + 1, buffer, read, s);
        read, index := read + sizeToRead, index + 1;
      }
      if range.start <= range.end {
        Apart(blockSize, index - range.start, range.end + 1 - range.start);
        LoadDone(suite, blockSize, range.start, index, range.end + 1, buffer, s, Snap());
      }
    }

    /** `e_size`: a `size_t` sum, returned as an `int`. */
    method ESize(offset: nat, length: nat) returns (size: int)
      requires blockSize > 0
      modifies this`cipher
      ensures var range := BlockRequired(blockSize, offset, length);
        && size == EncodedSize(blockSize, old(cipher), range)
        && cipher == (if range.end in old(cipher) then old(cipher) else old(cipher)[range.end := []])
    {
      var range := BlockRequired(blockSize, offset, length);
      if range.end !in cipher {
        cipher := cipher[range.end := []];
      }
      size := AsInt((range.end - range.start) * blockSize + |cipher[range.end]|);
    }

    /**
     Fills `buffer[at..]` with the ciphertext of the block range, `c` being the loaded ciphertext from block `base` on;
     returns the file offset it belongs at.
     */
    method EDump(offset: nat, length: nat, buffer: array<Byte>, at: nat, ghost base: nat, ghost c: Bytes)
        returns (position: nat)
      requires blockSize > 0
      requires var range := BlockRequired(blockSize, offset, length);
        RangeReady(cipher, blockSize, base, c, range) && at + |RangeOf(blockSize, base, c, range)| <= buffer.Length
      modifies buffer
      ensures var range := BlockRequired(blockSize, offset, length);
        && position == BlockStart(blockSize, range.start)
        && buffer[..] == Overlay(old(buffer[..]), at, RangeOf(blockSize, base, c, range))
    {
      hide BytesFrom, Overlay, RangeReady;
      var range := BlockRequired(blockSize, offset, length);
      RangeStart(cipher, blockSize, base, c, range);
      ghost var before, from := buffer[..], BlockStart(blockSize, range.start - base);
      position := range.start * blockSize;
      var written, index: nat := 0, range.start;
      OverlayNothing(before, at);
      while index <= range.end
        invariant range.start <= index && (index <= range.end + 1 || index == range.start)
        invariant written == |BytesFrom(c, BlockStart(blockSize, index - range.start), from)|
        invariant buffer[..] == Overlay(before, at, BytesFrom(c, BlockStart(blockSize, index - range.start), from))
      {
        DumpTurn(cipher, blockSize, base, c, range, index);
        written := Append(buffer, at, before, BytesFrom(c, BlockStart(blockSize, index - range.start), from), written,
                          cipher[index]);
        index := index + 1;
      }
    }
  }
}
