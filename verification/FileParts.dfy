/** The block range of an operation and the part of the file it covers. */
module FileParts {
  import opened ByteStrings
  import opened Crypto
  import opened Blocks
  import opened FlatFiles
  import opened SealedFiles
  import opened NodeRoundTrip
  import opened FilenodeContents

  /** The contiguous keys reach exactly as far as the blocks of the file, but for one key kept by a truncation. */
  ghost predicate KeysFit(keys: map<nat, CtrContext>, bs: nat, f: Bytes) {
    && ContiguousKeys(keys) && HasKeys(keys, bs, 0, f)
    && (if f == [] then |keys| <= 1 else |keys| > 0 && BlockStart(bs, |keys| - 1) < |f|)
  }

  lemma KeysCounted(keys: map<nat, CtrContext>, bs: nat, f: Bytes)
    requires bs > 0 && KeysFit(keys, bs, f)
    ensures |keys| == KeyCount(bs, |f|, keys != map[])
  {
    if f != [] {
      var n: nat := |keys| - 1;
      assert |keys| !in keys;
      BlockOf(bs, |f| - 1);
      Apart(bs, n, (|f| - 1) / bs);
      Apart(bs, |keys|, (|f| - 1) / bs);
    }
  }

  /** The loaded part of the file and what the write makes of it. */
  function LoadedPart(bs: nat, f: Bytes, range: BlockRange): Bytes
    requires range.start <= range.end + 1
  {
    BytesFrom(f, BlockStart(bs, range.end + 1 - range.start), BlockStart(bs, range.start))
  }

  // ----- loading -----

  /** The loaded blocks of the content object are those of `w`, decrypted and encrypted. */
  ghost predicate PartLoaded(suite: CipherSuite, bs: nat, start: nat, w: Bytes, s: Snapshot)
    requires bs > 0
  {
    && HasKeys(s.keys, bs, start, w)
    && Window(s.plain, bs, start, w) && Window(s.cipher, bs, start, SealFlat(suite, s.keys, bs, start, w))
  }

  lemma RangeIsForward(bs: nat, offset: nat, length: nat)
    requires bs > 0
    ensures var r := BlockRequired(bs, offset, length); r.start <= r.end + 1
  {
    RangeCovers(bs, offset, length);
    if length == 0 && offset > 0 {
      EmptyRange(bs, offset);
    }
  }

  lemma LoadGivesPart(suite: CipherSuite, bs: nat, range: BlockRange, w: Bytes, s: Snapshot, s': Snapshot)
    requires bs > 0 && HasKeys(s.keys, bs, range.start, w) && s.plain == map[] && s.cipher == map[]
    requires range.start <= range.end && |w| <= BlockStart(bs, range.end + 1 - range.start)
    requires LoadedFrom(suite, bs, range.start, range.end + 1, SealFlat(suite, s.keys, bs, range.start, w), s, s')
    ensures PartLoaded(suite, bs, range.start, w, s')
  {
    var c := SealFlat(suite, s.keys, bs, range.start, w);
    forall i: nat
      ensures Holds(s'.plain, bs, range.start, w, i) && Holds(s'.cipher, bs, range.start, c, i)
    {
      assert LoadedBlock(suite, bs, range.start, range.end + 1, c, s, s', i);
      if range.start <= i {
        Apart(bs, i - range.start, range.end + 1 - range.start);
        if BlockStart(bs, i - range.start) < |w| {
          SealedChunk(suite, s.keys, bs, range.start, w, i - range.start);
          CtrTwice(suite, s.keys[i], Chunk(w, bs, i - range.start));
        }
      }
    }
  }

  /** What is read from disk for a block range is the ciphertext of that part of the file. */
  lemma PartOfCipher(suite: CipherSuite, bs: nat, f: Bytes, range: BlockRange, s: Snapshot)
    requires bs > 0 && HasKeys(s.keys, bs, 0, f) && range.start <= range.end + 1
    ensures var w := LoadedPart(bs, f, range);
      && HasKeys(s.keys, bs, range.start, w)
      && BytesFrom(SealFlat(suite, s.keys, bs, 0, f), BlockStart(bs, range.end + 1 - range.start),
                   BlockStart(bs, range.start))
         == SealFlat(suite, s.keys, bs, range.start, w)
  {
    SealedSlice(suite, s.keys, bs, f, range.start, BlockStart(bs, range.end + 1 - range.start));
  }

  lemma PartLength(bs: nat, f: Bytes, range: BlockRange)
    requires range.start <= range.end + 1
    ensures |LoadedPart(bs, f, range)| <= BlockStart(bs, range.end + 1 - range.start)
    ensures range.start == range.end + 1 ==> LoadedPart(bs, f, range) == []
  {
    assert BlockStart(bs, 0) == 0;
    hide BlockStart;
  }

  /** Every block of the part has a key, and none is loaded. */
  lemma PartLoadable(suite: CipherSuite, bs: nat, range: BlockRange, w: Bytes, s: Snapshot)
    requires bs > 0 && HasKeys(s.keys, bs, range.start, w) && s.plain == map[] && s.cipher == map[]
    ensures Loadable(bs, range.start, range.end + 1, SealFlat(suite, s.keys, bs, range.start, w), s)
  {
    hide BlockStart;
  }

  lemma EmptyPartLoaded(suite: CipherSuite, bs: nat, start: nat, w: Bytes, s: Snapshot)
    requires bs > 0 && w == [] && HasKeys(s.keys, bs, start, w) && s.plain == map[] && s.cipher == map[]
    ensures PartLoaded(suite, bs, start, w, s)
  {
    hide BlockStart;
  }

  lemma PartLoads(suite: CipherSuite, bs: nat, f: Bytes, range: BlockRange, s: Snapshot)
    requires bs > 0 && HasKeys(s.keys, bs, 0, f) && range.start <= range.end + 1
    requires s.plain == map[] && s.cipher == map[]
    ensures var w := LoadedPart(bs, f, range);
      && HasKeys(s.keys, bs, range.start, w)
      && Loadable(bs, range.start, range.end + 1, SealFlat(suite, s.keys, bs, range.start, w), s)
      && forall s': Snapshot ::
           (if range.start <= range.end
            then LoadedFrom(suite, bs, range.start, range.end + 1, SealFlat(suite, s.keys, bs, range.start, w), s, s')
            else s' == s)
           ==> PartLoaded(suite, bs, range.start, w, s')
  {
    hide HasKeys, SealFlat, LoadedPart, PartLoaded, LoadedFrom, Loadable, BlockStart;
    PartOfCipher(suite, bs, f, range, s);
    var w := LoadedPart(bs, f, range);
    var c := SealFlat(suite, s.keys, bs, range.start, w);
    PartLoadable(suite, bs, range, w, s);
    PartLength(bs, f, range);
    if range.start <= range.end {
      forall s': Snapshot | LoadedFrom(suite, bs, range.start, range.end + 1, c, s, s')
        ensures PartLoaded(suite, bs, range.start, w, s')
      {
        LoadGivesPart(suite, bs, range, w, s, s');
      }
    } else {
      EmptyPartLoaded(suite, bs, range.start, w, s);
    }
  }

  // ----- reading -----

  lemma NestedBytes(f: Bytes, span: nat, from: nat, n: nat, at: nat)
    requires from <= at && (n > 0 ==> at + n <= from + span)
    ensures BytesFrom(BytesFrom(f, span, from), n, at - from) == BytesFrom(f, n, at)
  {
  }

  lemma PartReaches(bs: nat, offset: nat, length: nat)
    requires bs > 0
    ensures var r := BlockRequired(bs, offset, length);
      && r.start <= r.end + 1 && BlockStart(bs, r.start) <= offset
      && (length > 0 ==> offset + length <= BlockStart(bs, r.start) + BlockStart(bs, r.end + 1 - r.start))
  {
    hide BlockStart, BlockRequired;
    var r := BlockRequired(bs, offset, length);
    RangeIsForward(bs, offset, length);
    RangeCovers(bs, offset, length);
    if length > 0 {
      MulStep(bs, r.end);
      BlockStartSum(bs, r.start, r.end + 1 - r.start);
    }
  }

  /** The loaded part answers for the file over the range it was loaded for. */
  lemma PartAnswers(bs: nat, f: Bytes, offset: nat, length: nat)
    requires bs > 0
    ensures var r := BlockRequired(bs, offset, length);
      && r.start <= r.end + 1 && BlockStart(bs, r.start) <= offset
      && BytesFrom(LoadedPart(bs, f, r), length, offset - BlockStart(bs, r.start)) == BytesFrom(f, length, offset)
  {
    hide BytesFrom, BlockStart, BlockRequired;
    PartReaches(bs, offset, length);
    var r := BlockRequired(bs, offset, length);
    NestedBytes(f, BlockStart(bs, r.end + 1 - r.start), BlockStart(bs, r.start), length, offset);
  }

  /** An offset in the file is not past the bytes of its loaded block. */
  lemma OffsetInPart(bs: nat, f: Bytes, offset: nat, length: nat, plain: map<nat, Bytes>)
    requires bs > 0 && ReadableAt(bs, |f|, offset)
    requires var r := BlockRequired(bs, offset, length);
      r.start <= r.end + 1 && Window(plain, bs, r.start, LoadedPart(bs, f, r))
    ensures var r := BlockRequired(bs, offset, length);
      r.start in plain ==> offset <= BlockStart(bs, r.start) + |LoadedPart(bs, f, r)|
  {
    var r := BlockRequired(bs, offset, length);
    RangeCovers(bs, offset, length);
    WindowHolds(plain, bs, r.start, LoadedPart(bs, f, r), r.start);
    BlockStartSum(bs, r.start, r.end + 1 - r.start);
    if r.start <= r.end {
      MulStep(bs, r.start);
      Apart(bs, r.start + 1, r.end + 1);
    }
  }

  /** `block.size() - offset_in_block` wraps for these offsets and for no other. */
  lemma ReadWraps(bs: nat, f: Bytes, offset: nat, length: nat, plain: map<nat, Bytes>)
    requires bs > 0 && length > 0
    requires var r := BlockRequired(bs, offset, length);
      r.start <= r.end + 1 && Window(plain, bs, r.start, LoadedPart(bs, f, r))
    ensures var r := BlockRequired(bs, offset, length);
      (r.start in plain && |plain[r.start]| < r.offsetInBlock) <==> !ReadableAt(bs, |f|, offset)
  {
    var r := BlockRequired(bs, offset, length);
    RangeCovers(bs, offset, length);
    WindowHolds(plain, bs, r.start, LoadedPart(bs, f, r), r.start);
    BlockStartSum(bs, r.start, r.end + 1 - r.start);
    MulStep(bs, r.start);
    Apart(bs, r.start + 1, r.end + 1);
    Apart(bs, 0, r.end + 1 - r.start);
  }

  /** Blocks of four bytes, a file of one byte, a read at offset 3: the block is shorter than the offset in it. */
  lemma ReadPastEndExample(x: Byte)
    ensures var r := BlockRequired(4, 3, 1);
      !ReadableAt(4, |[x]|, 3) && LoadedPart(4, [x], r) == [x] && |[x]| < r.offsetInBlock
  {
    assert BlockStart(4, 0) == 0;
  }

  lemma BlockBefore(bs: nat, offset: nat, done: nat)
    requires bs > 0
    ensures BlockStart(bs, offset / bs) <= offset && BlockStart(bs, (offset + done) / bs) <= offset + done
  {
    BlockOf(bs, offset);
    BlockOf(bs, offset + done);
  }

  /** One turn of the loop of `read_file`; a short step means that the end of the file is reached. */
  lemma ReadTurn(f: Bytes, offset: nat, length: nat, loaded: nat, toLoad: nat)
    requires loaded + toLoad <= length && (loaded > 0 ==> offset + loaded <= |f|)
    ensures var step := |BytesFrom(f, toLoad, offset + loaded)|;
      && BytesFrom(f, loaded, offset) + BytesFrom(f, toLoad, offset + loaded) == BytesFrom(f, loaded + step, offset)
      && |BytesFrom(f, loaded, offset)| == loaded
      && (loaded + step > 0 ==> offset + loaded + step <= |f|)
      && (step < toLoad || loaded + toLoad == length ==>
            BytesFrom(f, loaded + step, offset) == BytesFrom(f, length, offset))
  {
    var step := |BytesFrom(f, toLoad, offset + loaded)|;
    assert BytesFrom(f, toLoad, offset + loaded) == BytesFrom(f, step, offset + loaded);
    if loaded > 0 {
      BytesFromAppend(f, offset, loaded, step);
    } else {
      assert BytesFrom(f, 0, offset) == [];
    }
  }

  // ----- writing -----

  /**
   The content object after an accepted write of `data` at `offset` to the file `f`, before the blocks are dropped.
   */
  ghost predicate Written(suite: CipherSuite, bs: nat, f: Bytes, offset: nat, data: Bytes, s: Snapshot, s': Snapshot)
    requires bs > 0
  {
    var r := BlockRequired(bs, offset, |data|);
    && r.start <= r.end && s'.Valid()
    && s'.size == |Splice(f, offset, data)|
    && PartLoaded(suite, bs, r.start, Splice(LoadedPart(bs, f, r), r.offsetInBlock, data), s')
    && (if data == [] && offset == 0 then s'.keys == s.keys else Rekeyed(s.keys, s'.keys, r.start, r.end + 1))
  }

  /** The content object between `write` and `e_write_file_to_disk`, the write being accepted. */
  ghost predicate AfterLoadAndWrite(suite: CipherSuite, bs: nat, f: Bytes, offset: nat, data: Bytes, s: Snapshot,
                                    s': Snapshot)
    requires bs > 0
  {
    if WritableAt(bs, |f|, offset, |data|) then Written(suite, bs, f, offset, data, s, s')
    else s' == s && s.plain == map[] && s.cipher == map[]
  }

  lemma RangeParts(bs: nat, offset: nat, length: nat, size: nat)
    requires bs > 0
    ensures BlockRequired(bs, offset, length).start == offset / bs
    ensures BlockRequired(bs, offset, length).offsetInBlock == offset % bs
    ensures size < BlockStart(bs, offset / bs) ==> !Accepts(bs, size, offset)
  {
    BlockOf(bs, offset);
  }

  /** What `write` needs of the loaded part, and when it refuses. */
  lemma BeforeWrite(suite: CipherSuite, bs: nat, f: Bytes, offset: nat, length: nat, s: Snapshot)
    requires bs > 0 && (length == 0 && offset > 0 ==> offset % bs > 0)
    requires var r := BlockRequired(bs, offset, length);
      && r.start <= r.end + 1 && BlockStart(bs, r.start) <= |f|
      && PartLoaded(suite, bs, r.start, LoadedPart(bs, f, r), s)
    ensures var r, w := BlockRequired(bs, offset, length), LoadedPart(bs, f, BlockRequired(bs, offset, length));
      && r.start <= r.end && BlockStart(bs, r.start) <= offset && |w| <= |f| && Window(s.plain, bs, r.start, w)
      && (offset % bs == 0 ==> offset <= BlockStart(bs, r.start) + |w|)
      && (Accepts(bs, |f|, offset) <==> !(offset % bs > 0 && r.start !in s.plain))
  {
    var r, w := BlockRequired(bs, offset, length), LoadedPart(bs, f, BlockRequired(bs, offset, length));
    RangeCovers(bs, offset, length);
    if length == 0 && offset > 0 {
      EmptyRange(bs, offset);
    }
    assert r.start <= r.end;
    hide BlockRequired, SealFlat, HasKeys;
    MulStep(bs, r.start);
    Apart(bs, 0, r.end + 1 - r.start);
    WindowHolds(s.plain, bs, r.start, w, r.start);
  }

  /** A refused write finds its block not loaded; then nothing is. */
  lemma NothingLoaded(suite: CipherSuite, bs: nat, start: nat, w: Bytes, s: Snapshot)
    requires bs > 0 && PartLoaded(suite, bs, start, w, s) && start !in s.plain
    ensures s.plain == map[] && s.cipher == map[]
  {
    WindowHolds(s.plain, bs, start, w, start);
    forall i: nat
      ensures i !in s.plain && i !in s.cipher
    {
      WindowHolds(s.plain, bs, start, w, i);
      WindowHolds(s.cipher, bs, start, SealFlat(suite, s.keys, bs, start, w), i);
    }
  }

  /** At a block boundary no block is in the range of an empty write, and nothing is loaded for it. */
  lemma EmptyPart(suite: CipherSuite, bs: nat, f: Bytes, offset: nat, s: Snapshot)
    requires bs > 0 && offset > 0 && offset % bs == 0
    requires var r := BlockRequired(bs, offset, 0);
      r.start <= r.end + 1 && PartLoaded(suite, bs, r.start, LoadedPart(bs, f, r), s)
    ensures var r := BlockRequired(bs, offset, 0);
      && r.start == r.end + 1 && BlockStart(bs, r.start) == offset && LoadedPart(bs, f, r) == []
      && s.plain == map[] && s.cipher == map[] && Window(s.plain, bs, r.start, [])
  {
    var r := BlockRequired(bs, offset, 0);
    BlockOf(bs, offset);
    EmptyRange(bs, offset);
    PartLength(bs, f, r);
    WindowHolds(s.plain, bs, r.start, [], r.start);
    NothingLoaded(suite, bs, r.start, [], s);
  }

  /** So nothing is written. */
  lemma EmptyRangeKept(suite: CipherSuite, bs: nat, offset: nat, s1: Snapshot, s2: Snapshot)
    requires bs > 0 && s1.plain == map[] && s1.cipher == map[]
    requires var r := BlockRequired(bs, offset, 0);
      && r.start == r.end + 1 && BlockStart(bs, r.start) == offset
      && Job(suite, bs, offset, [], r.start, [], s1).Finished(s2)
    ensures s2 == s1
  {
    var r := BlockRequired(bs, offset, 0);
    assert Splice([], 0, []) == [];
    forall i: nat
      ensures i !in s2.plain
    {
      WindowHolds(s2.plain, bs, r.start, [], i);
    }
    assert s2.keys == s1.keys && s2.cipher == s1.cipher;
  }

  /** After the write, plain and cipher blocks are exactly those of the range. */
  lemma CipherFollows(suite: CipherSuite, bs: nat, start: nat, end: nat, w: Bytes, w': Bytes, s1: Snapshot,
                      s2: Snapshot)
    requires bs > 0 && start <= end && PartLoaded(suite, bs, start, w, s1)
    requires |w| <= |w'| <= BlockStart(bs, end + 1 - start)
    requires Window(s2.plain, bs, start, w') && Encrypted(suite, s1, s2, start, end + 1)
    ensures PartLoaded(suite, bs, start, w', s2)
  {
    var c := SealFlat(suite, s1.keys, bs, start, w);
    forall i: nat
      ensures i in s2.plain <==> start <= i <= end
      ensures i in s2.cipher <==> start <= i <= end
      ensures i in s2.plain ==> i in s2.keys && s2.cipher[i] == Ctr(suite, s2.keys[i], s2.plain[i])
    {
      WindowHolds(s2.plain, bs, start, w', i);
      WindowHolds(s1.cipher, bs, start, c, i);
      if start <= i <= end {
        assert Sealed(suite, s2.keys, s2.plain, s2.cipher, i);
      } else if end < i {
        Apart(bs, end + 1 - start, i - start);
      }
    }
    forall i: nat | start <= i && BlockStart(bs, i - start) < |w'|
      ensures i in s2.keys
    {
      WindowHolds(s2.plain, bs, start, w', i);
    }
    SealedWindow(suite, s2.keys, bs, start, w', s2.plain, s2.cipher);
  }

  lemma SpliceOfPart(f: Bytes, span: nat, from: nat, at: nat, data: Bytes)
    requires from <= |f| && at + |data| <= span
    ensures var w' := Splice(BytesFrom(f, span, from), at, data);
      && Splice(f, from + at, data) == Overlay(f, from, w')
      && |w'| <= span && |BytesFrom(f, span, from)| <= |w'|
  {
    SpliceHere(f, span, from, at, data);
  }

  lemma EncryptedRekeys(suite: CipherSuite, s: Snapshot, s': Snapshot, lo: nat, hi: nat)
    requires Encrypted(suite, s, s', lo, hi)
    ensures Rekeyed(s.keys, s'.keys, lo, hi)
  {
  }

  /** The blocks of a range hold the bytes asked for. */
  lemma RangeSpans(bs: nat, offset: nat, length: nat)
    requires bs > 0 && BlockRequired(bs, offset, length).start <= BlockRequired(bs, offset, length).end
    ensures var r := BlockRequired(bs, offset, length);
      && offset == BlockStart(bs, r.start) + r.offsetInBlock
      && r.offsetInBlock + length <= BlockStart(bs, r.end + 1 - r.start)
  {
    var r := BlockRequired(bs, offset, length);
    RangeCovers(bs, offset, length);
    BlockStartSum(bs, r.start, r.end + 1 - r.start);
    MulStep(bs, r.end);
    Apart(bs, 0, r.end + 1 - r.start);
    MulStep(bs, r.end - r.start);
    Apart(bs, 1, r.end + 1 - r.start);
  }

  lemma AfterWrite(suite: CipherSuite, bs: nat, f: Bytes, offset: nat, data: Bytes, s: Snapshot, s1: Snapshot,
                   s2: Snapshot)
    requires bs > 0 && (data == [] ==> offset > 0)
    requires var r := BlockRequired(bs, offset, |data|);
      && r.start <= r.end && BlockStart(bs, r.start) <= |f| && BlockStart(bs, r.start) <= offset
      && s1.keys == s.keys && s1.size == s.size == |f|
      && PartLoaded(suite, bs, r.start, LoadedPart(bs, f, r), s1)
      && Job(suite, bs, offset, data, r.start, LoadedPart(bs, f, r), s1).Finished(s2)
    ensures Written(suite, bs, f, offset, data, s, s2)
  {
    hide PartLoaded, BlockStart, Splice, BlockRequired, Window, Encrypted;
    var r := BlockRequired(bs, offset, |data|);
    var from, span := BlockStart(bs, r.start), BlockStart(bs, r.end + 1 - r.start);
    var w := LoadedPart(bs, f, r);
    RangeSpans(bs, offset, |data|);
    SpliceOfPart(f, span, from, r.offsetInBlock, data);
    CipherFollows(suite, bs, r.start, r.end, w, Splice(w, r.offsetInBlock, data), s1, s2);
    EncryptedRekeys(suite, s1, s2, r.start, r.end + 1);
  }

  lemma NothingWritten(suite: CipherSuite, bs: nat, f: Bytes, s: Snapshot, s1: Snapshot)
    requires bs > 0 && s1.Valid() && s1.keys == s.keys && s1.size == |f|
    requires PartLoaded(suite, bs, 0, LoadedPart(bs, f, BlockRequired(bs, 0, 0)), s1)
    ensures Written(suite, bs, f, 0, [], s, s1)
  {
    SpliceNothing(LoadedPart(bs, f, BlockRequired(bs, 0, 0)), 0);
    SpliceNothing(f, 0);
  }

  // ----- dumping what was written -----

  lemma WholeRange(bs: nat, c: Bytes, r: BlockRange)
    requires r.start <= r.end && |c| <= BlockStart(bs, r.end + 1 - r.start)
    ensures RangeOf(bs, r.start, c, r) == c
  {
    assert BlockStart(bs, 0) == 0;
  }

  lemma WrittenSize(bs: nat, f: Bytes, offset: nat, data: Bytes)
    requires bs > 0 && BlockStart(bs, offset / bs) <= |f|
    requires data == [] && offset > 0 ==> offset % bs > 0
    ensures var r := BlockRequired(bs, offset, |data|);
            var w' := if r.start <= r.end then Splice(LoadedPart(bs, f, r), r.offsetInBlock, data) else [];
      && r.start <= r.end
      && |w'| <= BlockStart(bs, r.end + 1 - r.start) && BlockStart(bs, r.start) + |w'| <= |Splice(f, offset, data)|
      && (if w' == [] then r.end == r.start else BlockStart(bs, r.end - r.start) < |w'|)
  {
    var r := BlockRequired(bs, offset, |data|);
    RangeCovers(bs, offset, |data|);
    if data == [] && offset > 0 {
      EmptyRange(bs, offset);
    }
    BlockStartSum(bs, r.start, r.end - r.start);
    MulStep(bs, r.end - r.start);
    Apart(bs, 0, r.end + 1 - r.start);
  }

  /** The cipher blocks of the touched range are ready to be dumped, once `e_size` has looked at the last one. */
  lemma TouchedReady(suite: CipherSuite, bs: nat, f: Bytes, offset: nat, data: Bytes, s: Snapshot, s': Snapshot,
                     cipher: map<nat, Bytes>)
    requires bs > 0 && BlockStart(bs, offset / bs) <= |f| && |Splice(f, offset, data)| < INT_LIMIT
    requires data == [] && offset > 0 ==> offset % bs > 0
    requires Written(suite, bs, f, offset, data, s, s')
    requires var end := BlockRequired(bs, offset, |data|).end;
      cipher == if end in s'.cipher then s'.cipher else s'.cipher[end := []]
    ensures var r := BlockRequired(bs, offset, |data|);
            var w' := Splice(LoadedPart(bs, f, r), r.offsetInBlock, data);
      && r.start <= r.end
      && HasKeys(s'.keys, bs, r.start, w')
      && RangeReady(cipher, bs, r.start, SealFlat(suite, s'.keys, bs, r.start, w'), r)
      && RangeOf(bs, r.start, SealFlat(suite, s'.keys, bs, r.start, w'), r) == SealFlat(suite, s'.keys, bs, r.start, w')
      && EncodedSize(bs, s'.cipher, r) == |w'|
  {
    var r := BlockRequired(bs, offset, |data|);
    var w := LoadedPart(bs, f, r);
    var w' := Splice(w, r.offsetInBlock, data);
    var c := SealFlat(suite, s'.keys, bs, r.start, w');
    WrittenSize(bs, f, offset, data);
    WindowHolds(s'.cipher, bs, r.start, c, r.end);
    if r.end in s'.cipher {
      WindowReady(cipher, bs, r.start, c, r);
    }
    WholeRange(bs, c, r);
    EncodedSizeExact(cipher, bs, r.start, c, r);
  }

  lemma AcceptedBoundary(bs: nat, size: nat, offset: nat, length: nat)
    requires bs > 0 && Accepts(bs, size, offset) && WritableAt(bs, size, offset, length)
    ensures length == 0 && offset > 0 ==> offset % bs > 0
  {
    if offset > 0 && offset % bs == 0 {
      BoundaryAccepted(bs, size, offset);
    }
  }

  /**
   The size of the buffer for the new ciphertext, once a write is accepted: it is wrong for an empty write at a positive
   block boundary, and for no other.
   */
  lemma WriteWraps(suite: CipherSuite, bs: nat, f: Bytes, offset: nat, data: Bytes, s: Snapshot, s': Snapshot)
    requires 0 < bs < INT_LIMIT && Accepts(bs, |f|, offset) && |f| < INT_LIMIT && offset + |data| < INT_LIMIT
    requires AfterLoadAndWrite(suite, bs, f, offset, data, s, s')
    ensures EncodedSize(bs, s'.cipher, BlockRequired(bs, offset, |data|)) < 0 <==> !WritableAt(bs, |f|, offset, |data|)
  {
    if WritableAt(bs, |f|, offset, |data|) {
      AcceptedFits(bs, f, offset, data);
      AcceptedBoundary(bs, |f|, offset, |data|);
      var end := BlockRequired(bs, offset, |data|).end;
      TouchedReady(suite, bs, f, offset, data, s, s', if end in s'.cipher then s'.cipher else s'.cipher[end := []]);
    } else {
      EmptyWriteWraps(bs, s'.cipher, offset);
    }
  }

  // ----- keys and ciphertext after a write -----

  lemma {:induction false} PrefixSize(s: set<nat>, n: nat)
    requires forall i: nat :: i in s <==> i < n
    ensures |s| == n
  {
    if n > 0 {
      PrefixSize(s - {n - 1}, n - 1);
    }
  }

  /** The keys after a write that touches blocks `start..hi` of a file with `n` keys. */
  lemma RekeyedCount(keys: map<nat, CtrContext>, keys': map<nat, CtrContext>, start: nat, hi: nat)
    requires ContiguousKeys(keys) && Rekeyed(keys, keys', start, hi) && ValidKeys(keys') && start <= |keys|
    ensures ContiguousKeys(keys') && |keys'| == if |keys| < hi then hi else |keys|
  {
    PrefixSize(keys'.Keys, if |keys| < hi then hi else |keys|);
  }

  /** A write that starts in or right after the file starts in a keyed block or right after the last. */
  lemma StartsAtKeys(keys: map<nat, CtrContext>, bs: nat, f: Bytes, start: nat)
    requires bs > 0 && KeysFit(keys, bs, f) && BlockStart(bs, start) <= |f|
    ensures start <= |keys|
  {
    assert |keys| !in keys;
    Apart(bs, |keys|, start);
  }

  lemma WriteHasKeys(keys: map<nat, CtrContext>, keys': map<nat, CtrContext>, bs: nat, f: Bytes, f': Bytes,
                     start: nat, end: nat)
    requires bs > 0 && HasKeys(keys, bs, 0, f) && Rekeyed(keys, keys', start, end + 1)
    requires BlockStart(bs, start) <= |f| && (|f| < |f'| ==> |f'| <= BlockStart(bs, end + 1))
    ensures HasKeys(keys', bs, 0, f')
  {
    forall i: nat | BlockStart(bs, i) < |f'|
      ensures i in keys'
    {
      if |f| <= BlockStart(bs, i) {
        Apart(bs, i, end + 1);
        Apart(bs, i, start);
      }
    }
  }

  lemma WriteKeysFit(keys: map<nat, CtrContext>, keys': map<nat, CtrContext>, bs: nat, f: Bytes, f': Bytes,
                     start: nat, end: nat)
    requires bs > 0 && KeysFit(keys, bs, f) && ValidKeys(keys')
    requires BlockStart(bs, start) <= |f| <= |f'| && start <= end && Rekeyed(keys, keys', start, end + 1)
    requires BlockStart(bs, end) < |f'| && (|f| < |f'| ==> |f'| <= BlockStart(bs, end + 1))
    ensures KeysFit(keys', bs, f')
  {
    StartsAtKeys(keys, bs, f, start);
    RekeyedCount(keys, keys', start, end + 1);
    WriteHasKeys(keys, keys', bs, f, f', start, end);
    hide HasKeys, BlockStart, Rekeyed, ContiguousKeys, ValidKeys;
  }

  lemma PartKeys(keys: map<nat, CtrContext>, keys': map<nat, CtrContext>, bs: nat, f: Bytes, range: BlockRange,
                 w': Bytes)
    requires bs > 0 && range.start <= range.end && Rekeyed(keys, keys', range.start, range.end + 1)
    requires BlockStart(bs, range.start) <= |f|
    requires |LoadedPart(bs, f, range)| <= |w'| <= BlockStart(bs, range.end + 1 - range.start)
    ensures KeysFor(keys, keys', bs, |f|, range.start, w')
    ensures WholeBlocks(bs, |f|, range.start, |w'|)
  {
    var n := range.end + 1 - range.start;
    forall i: nat | range.start <= i && BlockStart(bs, i - range.start) < |w'|
      ensures i in keys'
    {
      Apart(bs, i - range.start, n);
    }
    forall i: nat | KeptBlock(keys, bs, |f|, range.start, |w'|, i)
      ensures keys'[i] == keys[i]
    {
      if range.start <= i <= range.end {
        BlockStartSum(bs, range.start, i - range.start);
        Apart(bs, i - range.start, n);
      }
    }
  }

  /** The new ciphertext of the loaded part, laid over the old ciphertext, is the ciphertext of the spliced file. */
  lemma WriteReseals(suite: CipherSuite, keys: map<nat, CtrContext>, keys': map<nat, CtrContext>, bs: nat, f: Bytes,
                     range: BlockRange, offset: nat, data: Bytes)
    requires bs > 0 && KeysFit(keys, bs, f) && range.start <= range.end
    requires BlockStart(bs, range.start) <= |f| && offset == BlockStart(bs, range.start) + range.offsetInBlock
    requires offset + |data| <= BlockStart(bs, range.end + 1)
    requires Rekeyed(keys, keys', range.start, range.end + 1)
    ensures var from, w' := BlockStart(bs, range.start), Splice(LoadedPart(bs, f, range), range.offsetInBlock, data);
      && HasKeys(keys', bs, range.start, w') && HasKeys(keys', bs, 0, Splice(f, offset, data))
      && Overlay(SealFlat(suite, keys, bs, 0, f), from, SealFlat(suite, keys', bs, range.start, w'))
         == SealFlat(suite, keys', bs, 0, Splice(f, offset, data))
  {
    hide Splice, SealFlat, Overlay, BlockStart, Rekeyed, HasKeys, ContiguousKeys, WholeBlocks, KeysFor;
    var from, span := BlockStart(bs, range.start), BlockStart(bs, range.end + 1 - range.start);
    var w := LoadedPart(bs, f, range);
    var w' := Splice(w, range.offsetInBlock, data);
    BlockStartSum(bs, range.start, range.end + 1 - range.start);
    SpliceOfPart(f, span, from, range.offsetInBlock, data);
    PartKeys(keys, keys', bs, f, range, w');
    SealedOverlay(suite, keys, keys', bs, f, range.start, w');
  }

  lemma FirstPart(bs: nat, f: Bytes)
    requires bs > 0
    ensures var r := BlockRequired(bs, 0, 0);
      r.offsetInBlock == 0 && BlockStart(bs, 0) == 0 && LoadedPart(bs, f, r) == BytesFrom(f, bs, 0)
  {
    assert BlockStart(bs, 0) == 0 && BlockStart(bs, 1) == bs;
    hide BlockStart;
  }

  lemma PutBack(c: Bytes, span: nat)
    ensures Overlay(c, 0, BytesFrom(c, span, 0)) == c
  {
  }

  /** An empty write at the start of the file puts the first block back as it was. */
  lemma FirstBlockReseals(suite: CipherSuite, keys: map<nat, CtrContext>, bs: nat, f: Bytes)
    requires bs > 0 && HasKeys(keys, bs, 0, f)
    ensures var r := BlockRequired(bs, 0, 0);
            var w := Splice(LoadedPart(bs, f, r), r.offsetInBlock, []);
      && HasKeys(keys, bs, 0, w) && Splice(f, 0, []) == f
      && Overlay(SealFlat(suite, keys, bs, 0, f), 0, SealFlat(suite, keys, bs, 0, w)) == SealFlat(suite, keys, bs, 0, f)
  {
    hide HasKeys, SealFlat, Overlay, BytesFrom, LoadedPart, Splice;
    var r := BlockRequired(bs, 0, 0);
    FirstPart(bs, f);
    SpliceNothing(LoadedPart(bs, f, r), 0);
    SpliceNothing(f, 0);
    SealedSlice(suite, keys, bs, f, 0, bs);
    PutBack(SealFlat(suite, keys, bs, 0, f), bs);
  }

  lemma WrittenKeysFit(suite: CipherSuite, bs: nat, f: Bytes, offset: nat, data: Bytes, s: Snapshot, s': Snapshot)
    requires bs > 0 && KeysFit(s.keys, bs, f) && Written(suite, bs, f, offset, data, s, s')
    requires BlockStart(bs, offset / bs) <= |f| && (data == [] && offset > 0 ==> offset % bs > 0)
    ensures KeysFit(s'.keys, bs, Splice(f, offset, data))
  {
    var r := BlockRequired(bs, offset, |data|);
    RangeCovers(bs, offset, |data|);
    if data == [] && offset == 0 {
      SpliceNothing(f, 0);
    } else {
      if data == [] {
        EmptyRange(bs, offset);
      }
      MulStep(bs, r.end);
      hide PartLoaded, KeysFit;
      WriteKeysFit(s.keys, s'.keys, bs, f, Splice(f, offset, data), r.start, r.end);
    }
  }

  /** The touched range starts in or right after the file, and holds the data. */
  lemma TouchedSpan(bs: nat, f: Bytes, offset: nat, data: Bytes)
    requires bs > 0 && BlockStart(bs, offset / bs) <= |f| && (data == [] ==> offset % bs > 0)
    ensures var r := BlockRequired(bs, offset, |data|);
      && r.start <= r.end && BlockStart(bs, r.start) <= |f| && offset == BlockStart(bs, r.start) + r.offsetInBlock
      && offset + |data| <= BlockStart(bs, r.end + 1)
  {
    var r := BlockRequired(bs, offset, |data|);
    RangeCovers(bs, offset, |data|);
    if data == [] {
      EmptyRange(bs, offset);
    }
    MulStep(bs, r.end);
  }

  lemma WrittenReseals(suite: CipherSuite, bs: nat, f: Bytes, offset: nat, data: Bytes, s: Snapshot, s': Snapshot)
    requires bs > 0 && KeysFit(s.keys, bs, f) && Written(suite, bs, f, offset, data, s, s')
    requires BlockStart(bs, offset / bs) <= |f| && (data == [] && offset > 0 ==> offset % bs > 0)
    ensures var r := BlockRequired(bs, offset, |data|);
            var w' := Splice(LoadedPart(bs, f, r), r.offsetInBlock, data);
      && BlockStart(bs, r.start) <= |f|
      && HasKeys(s'.keys, bs, r.start, w') && HasKeys(s'.keys, bs, 0, Splice(f, offset, data))
      && Overlay(SealFlat(suite, s.keys, bs, 0, f), BlockStart(bs, r.start), SealFlat(suite, s'.keys, bs, r.start, w'))
         == SealFlat(suite, s'.keys, bs, 0, Splice(f, offset, data))
  {
    hide PartLoaded, Splice, LoadedPart, SealFlat, Overlay, BlockStart, BlockRequired, HasKeys, Rekeyed, ContiguousKeys;
    if data == [] && offset == 0 {
      RangeParts(bs, 0, 0, |f|);
      FirstPart(bs, f);
      FirstBlockReseals(suite, s.keys, bs, f);
    } else {
      TouchedSpan(bs, f, offset, data);
      WriteReseals(suite, s.keys, s'.keys, bs, f, BlockRequired(bs, offset, |data|), offset, data);
    }
  }

  lemma WrittenKeyed(suite: CipherSuite, bs: nat, f: Bytes, offset: nat, data: Bytes, s: Snapshot, s': Snapshot)
    requires bs > 0 && KeysFit(s.keys, bs, f) && Written(suite, bs, f, offset, data, s, s')
    requires BlockStart(bs, offset / bs) <= |f| && (data == [] && offset > 0 ==> offset % bs > 0)
    ensures s'.keys != map[] <==> s.keys != map[] || Splice(f, offset, data) != []
  {
    WrittenKeysFit(suite, bs, f, offset, data, s, s');
    if s.keys != map[] {
      var i: nat :| i in s.keys;
      assert i in s'.keys;
    }
  }
}
