/** Fixed-size blocks of a flat byte sequence. */
module Blocks {
  import opened ByteStrings

  /** The block range and in-block offset of a byte range. */
  datatype BlockRange = BlockRange(start: nat, end: nat, offsetInBlock: nat)

  function BlockRequired(bs: nat, offset: nat, length: nat): BlockRange
    requires bs > 0
  {
    BlockRange(offset / bs, if offset + length < 1 then 0 else (offset + length - 1) / bs, offset % bs)
  }

  /** At most `bs` bytes of `f` from position `from` on. */
  function BytesFrom(f: Bytes, bs: nat, from: nat): (c: Bytes)
    ensures |c| == if from < |f| then Min(bs, |f| - from) else 0
    ensures forall k :: 0 <= k < |c| ==> c[k] == f[from + k]
  {
    if from < |f| then f[from..Min(from + bs, |f|)] else []
  }

  lemma NoBytes(f: Bytes, from: nat)
    ensures BytesFrom(f, 0, from) == []
  {
  }

  function BlockStart(bs: nat, i: nat): nat {
    i * bs
  }

  function Chunk(f: Bytes, bs: nat, i: nat): Bytes {
    BytesFrom(f, bs, BlockStart(bs, i))
  }

  /** Block `i` is loaded if and only if `w`, laid out from block `base` on, has a byte in it, and then agrees. */
  predicate Holds(blocks: map<nat, Bytes>, bs: nat, base: nat, w: Bytes, i: nat) {
    && (i in blocks <==> base <= i && BlockStart(bs, i - base) < |w|)
    && (i in blocks ==> blocks[i] == Chunk(w, bs, i - base))
  }

  ghost predicate Window(blocks: map<nat, Bytes>, bs: nat, base: nat, w: Bytes) {
    forall i: nat :: Holds(blocks, bs, base, w, i)
  }

  // ----- arithmetic -----

  lemma BlockOf(bs: nat, x: nat)
    requires bs > 0
    ensures BlockStart(bs, x / bs) + x % bs == x && x % bs < bs
  {
  }

  lemma MulStep(bs: nat, i: nat)
    ensures BlockStart(bs, i) + bs == BlockStart(bs, i + 1)
  {
  }

  lemma {:induction false} Later(bs: nat, i: nat, j: nat)
    requires i < j
    ensures BlockStart(bs, i) + bs <= BlockStart(bs, j)
  {
    if i + 1 < j {
      Later(bs, i, j - 1);
    }
    MulStep(bs, j - 1);
  }

  lemma Apart(bs: nat, i: nat, j: nat)
    ensures i < j ==> BlockStart(bs, i) + bs <= BlockStart(bs, j)
    ensures j < i ==> BlockStart(bs, j) + bs <= BlockStart(bs, i)
  {
    if i < j {
      Later(bs, i, j);
    } else if j < i {
      Later(bs, j, i);
    }
  }

  lemma BlockStartSum(bs: nat, i: nat, j: nat)
    ensures BlockStart(bs, i + j) == BlockStart(bs, i) + BlockStart(bs, j)
  {
  }

  lemma InBlock(bs: nat, i: nat, at: nat)
    requires at < bs
    ensures (BlockStart(bs, i) + at) / bs == i && (BlockStart(bs, i) + at) % bs == at
  {
    var x := BlockStart(bs, i) + at;
    BlockOf(bs, x);
    Apart(bs, x / bs, i);
  }

  /** The range covers the bytes asked for, and its last block is needed. */
  lemma RangeCovers(bs: nat, offset: nat, length: nat)
    requires bs > 0
    ensures var r := BlockRequired(bs, offset, length);
      BlockStart(bs, r.start) + r.offsetInBlock == offset && r.offsetInBlock < bs &&
      (length > 0 ==> r.start <= r.end && BlockStart(bs, r.end) < offset + length <= BlockStart(bs, r.end) + bs)
  {
    BlockOf(bs, offset);
    if length > 0 {
      BlockOf(bs, offset + length - 1);
      var r := BlockRequired(bs, offset, length);
      if r.end < r.start {
        Later(bs, r.end, r.start);
      }
    }
  }

  /** An empty range past the start of the file is one block if it is inside a block, none at a boundary. */
  lemma EmptyRange(bs: nat, offset: nat)
    requires bs > 0 && offset > 0
    ensures var r := BlockRequired(bs, offset, 0);
      r.end + (if r.offsetInBlock == 0 then 1 else 0) == r.start
  {
    var r := BlockRequired(bs, offset, 0);
    BlockOf(bs, offset);
    if r.offsetInBlock > 0 {
      InBlock(bs, r.start, r.offsetInBlock - 1);
    } else {
      MulStep(bs, r.start - 1);
      InBlock(bs, r.start - 1, bs - 1);
    }
  }

  // ----- how block writes change the flat bytes -----

  lemma SpliceElsewhere(w: Bytes, bs: nat, from: nat, at: nat, data: Bytes, other: nat)
    requires from < |w| && at + |data| <= bs
    requires other + bs <= from || from + bs <= other
    ensures other < |Splice(w, from + at, data)| <==> other < |w|
    ensures BytesFrom(Splice(w, from + at, data), bs, other) == BytesFrom(w, bs, other)
  {
  }

  lemma SpliceHere(w: Bytes, bs: nat, from: nat, at: nat, data: Bytes)
    requires from <= |w| && at + |data| <= bs
    ensures from < |w| ==> from < |Splice(w, from + at, data)|
    ensures BytesFrom(Splice(w, from + at, data), bs, from) == Splice(BytesFrom(w, bs, from), at, data)
  {
  }

  lemma WindowHolds(blocks: map<nat, Bytes>, bs: nat, base: nat, w: Bytes, i: nat)
    requires Window(blocks, bs, base, w)
    ensures Holds(blocks, bs, base, w, i)
  {
  }

  /** Overlaying bytes that stay inside a loaded block is a splice of the flat bytes. */
  lemma WriteInsideBlock(blocks: map<nat, Bytes>, bs: nat, base: nat, w: Bytes, i: nat, at: nat, data: Bytes)
    requires Window(blocks, bs, base, w) && i in blocks && at + |data| <= bs
    ensures base <= i
    ensures Window(blocks[i := Splice(blocks[i], at, data)], bs, base,
                   Splice(w, BlockStart(bs, i - base) + at, data))
    ensures BlockStart(bs, i - base) < |w|
    ensures |Splice(w, BlockStart(bs, i - base) + at, data)| - |w| == |Splice(blocks[i], at, data)| - |blocks[i]|
  {
    assert Holds(blocks, bs, base, w, i);
    var from := BlockStart(bs, i - base);
    var w' := Splice(w, from + at, data);
    var blocks' := blocks[i := Splice(blocks[i], at, data)];
    forall j: nat
      ensures Holds(blocks', bs, base, w', j)
    {
      assert Holds(blocks, bs, base, w, j);
      if j == i {
        SpliceHere(w, bs, from, at, data);
      } else if base <= j {
        Apart(bs, i - base, j - base);
        SpliceElsewhere(w, bs, from, at, data, BlockStart(bs, j - base));
      }
    }
  }

  lemma AppendBlock(blocks: map<nat, Bytes>, bs: nat, base: nat, w: Bytes, i: nat, data: Bytes)
    requires Window(blocks, bs, base, w) && base <= i && |w| == BlockStart(bs, i - base) && 0 < |data| <= bs
    ensures i !in blocks
    ensures Window(blocks[i := data], bs, base, w + data)
  {
    assert Holds(blocks, bs, base, w, i);
    var blocks', w' := blocks[i := data], w + data;
    forall j: nat
      ensures Holds(blocks', bs, base, w', j)
    {
      assert Holds(blocks, bs, base, w, j);
      if base <= j && j != i {
        Apart(bs, i - base, j - base);
      }
    }
  }
}
