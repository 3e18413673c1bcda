/** Bytes, the two ways LAUXUS overwrites a byte range, and the fixed-width integers of its records. */
module ByteStrings {
  import ByteValues

  type Byte = bv8
  type Bytes = seq<Byte>

  const SIZE_T_LIMIT: nat := 0x1_0000_0000_0000_0000

  function Min(a: nat, b: nat): nat {
    if a < b then a else b
  }

  function Zeros(n: nat): (z: Bytes)
    ensures |z| == n
  {
    seq(n, _ => 0)
  }

  /** What writing `data` at `at` does to a file that is not truncated, or `memcpy` to a buffer. */
  function Overlay(prior: Bytes, at: nat, data: Bytes): (r: Bytes)
    requires at <= |prior|
    ensures |r| == if at + |data| < |prior| then |prior| else at + |data|
  {
    prior[..at] + data + (if at + |data| < |prior| then prior[at + |data|..] else [])
  }

  /** A write to a flat file: the gap between the end of the file and `at` is filled with zeros. */
  function Splice(prior: Bytes, at: nat, data: Bytes): (r: Bytes)
    ensures |r| == if at + |data| < |prior| then |prior| else at + |data|
  {
    Overlay(if |prior| < at then prior + Zeros(at - |prior|) else prior, at, data)
  }

  lemma SpliceNothing(prior: Bytes, at: nat)
    requires at <= |prior|
    ensures Splice(prior, at, []) == prior
  {
  }

  lemma OverlayNothing(prior: Bytes, at: nat)
    requires at <= |prior|
    ensures Overlay(prior, at, []) == prior
  {
  }

  lemma OverlayAll(prior: Bytes, data: Bytes)
    requires |prior| == |data|
    ensures Overlay(prior, 0, data) == data
  {
  }

  lemma OverlayAppend(prior: Bytes, at: nat, done: Bytes, more: Bytes)
    requires at <= |prior|
    ensures Overlay(Overlay(prior, at, done), at + |done|, more) == Overlay(prior, at, done + more)
  {
    var l, r := Overlay(Overlay(prior, at, done), at + |done|, more), Overlay(prior, at, done + more);
    forall k | 0 <= k < |r|
      ensures l[k] == r[k]
    {
      assert at + |done| <= k < at + |done| + |more| ==> (done + more)[k - at] == more[k - at - |done|];
    }
  }

  /** Writing in two steps is writing at once. */
  lemma SpliceAppend(prior: Bytes, at: nat, done: Bytes, more: Bytes)
    ensures Splice(Splice(prior, at, done), at + |done|, more) == Splice(prior, at, done + more)
  {
    OverlayAppend(if |prior| < at then prior + Zeros(at - |prior|) else prior, at, done, more);
  }

  // ----- little-endian integers, as `memcpy` of a `size_t`, `time_t` or 32-bit value lays them out -----

  function Pow256(k: nat): (p: nat)
    ensures p > 0
  {
    if k == 0 then 1 else 256 * Pow256(k - 1)
  }

  function LittleEndian(n: nat, width: nat): (s: Bytes)
    ensures |s| == width
  {
    if width == 0 then [] else [(n % 256) as Byte] + LittleEndian(n / 256, width - 1)
  }

  function FromLittleEndian(s: Bytes): nat {
    if s == [] then 0 else s[0] as nat + 256 * FromLittleEndian(s[1..])
  }

  lemma {:induction false} LittleEndianRoundTrip(n: nat, width: nat)
    requires n < Pow256(width)
    ensures FromLittleEndian(LittleEndian(n, width)) == n
  {
    if width > 0 {
      ByteValues.ByteOfInt(n % 256);
      LittleEndianRoundTrip(n / 256, width - 1);
      assert LittleEndian(n, width)[1..] == LittleEndian(n / 256, width - 1);
    }
  }

  lemma DigitBack(low: nat, rest: nat)
    requires low < 256
    ensures (low + 256 * rest) % 256 == low && (low + 256 * rest) / 256 == rest
  {
  }

  lemma LittleEndianStep(n: nat, width: nat)
    requires width > 0
    ensures LittleEndian(n, width) == [(n % 256) as Byte] + LittleEndian(n / 256, width - 1)
  {
  }

  /** Bytes that are read as a number and written again are the same. */
  lemma {:induction false} LittleEndianBack(s: Bytes)
    ensures LittleEndian(FromLittleEndian(s), |s|) == s
  {
    if s != [] {
      var low, rest := s[0] as nat, FromLittleEndian(s[1..]);
      ByteValues.IntOfByte(s[0]);
      DigitBack(low, rest);
      LittleEndianBack(s[1..]);
      LittleEndianStep(low + 256 * rest, |s|);
      assert [s[0]] + s[1..] == s;
      hide LittleEndian;
    }
  }

  lemma Multiples(d: int, m: int)
    requires m >= 0
    ensures (d >= 1 ==> d * m >= m) && (d <= -1 ==> d * m <= -m)
  {
  }

  lemma QuotientIs(n: nat, m: nat, q: nat, r: nat)
    requires m > 0 && n == q * m + r && r < m
    ensures n / m == q
  {
    var d := n / m - q;
    assert d * m == r - n % m;
    Multiples(d, m);
  }

  lemma DigitOfQuotient(n: nat, p: nat)
    requires p > 0
    ensures n / 256 / p == n / (256 * p)
  {
    var q := n / 256;
    var r := q / p;
    assert q == r * p + q % p && n == 256 * q + n % 256;
    assert n == r * (256 * p) + (256 * (q % p) + n % 256);
    QuotientIs(n, 256 * p, r, 256 * (q % p) + n % 256);
  }

  /** The lowest byte comes first: byte `k` is digit `k` in base 256. */
  lemma {:induction false} LowByteFirst(n: nat, width: nat, k: nat)
    requires k < width
    ensures LittleEndian(n, width)[k] as nat == n / Pow256(k) % 256
  {
    ByteValues.ByteOfInt(n % 256);
    if k > 0 {
      LowByteFirst(n / 256, width - 1, k - 1);
      DigitOfQuotient(n, Pow256(k - 1));
    }
  }

  lemma {:induction false} FromLittleEndianFits(s: Bytes)
    ensures FromLittleEndian(s) < Pow256(|s|)
  {
    if s != [] {
      FromLittleEndianFits(s[1..]);
    }
  }

  lemma Widths()
    ensures Pow256(4) == 0x1_0000_0000
    ensures Pow256(8) == SIZE_T_LIMIT
  {
    assert Pow256(2) == 0x1_0000;
    assert Pow256(4) == 0x1_0000_0000;
    assert Pow256(6) == 0x1_0000_0000_0000;
  }

  // ----- memcpy into a fixed buffer -----

  method Memcpy(dst: array<Byte>, at: nat, src: Bytes)
    requires at + |src| <= dst.Length
    modifies dst
    ensures dst[..] == Overlay(old(dst[..]), at, src)
  {
    forall k | 0 <= k < |src| {
      dst[at + k] := src[k];
    }
  }

  /** One step of a sequence of copies that fill `dst` from `base` on; returns the new `written`. */
  method Append(dst: array<Byte>, base: nat, ghost before: Bytes, ghost done: Bytes, written: nat, piece: Bytes)
      returns (written': nat)
    requires written == |done| && base + written + |piece| <= dst.Length == |before|
    requires dst[..] == Overlay(before, base, done)
    modifies dst
    ensures written' == |done + piece|
    ensures dst[..] == Overlay(before, base, done + piece)
  {
    Memcpy(dst, base + written, piece);
    OverlayAppend(before, base, done, piece);
    written' := written + |piece|;
  }
}
