/** `Base64encode` and `Base64decode` over C buffers (section 4 of RFC 4648). */
module Base64 {
  import opened ByteStrings

  const PAD: Byte := 61

  /** `basis_64`. */
  function Basis(v: Byte): Byte
    requires v < 64
  {
    if v < 26 then v + 65 else if v < 52 then v + 71 else if v < 62 then v - 4 else if v == 62 then 43 else 47
  }

  /** `pr2six`: 64 marks a character outside the alphabet. */
  function SixBits(c: Byte): Byte {
    if 65 <= c <= 90 then c - 65
    else if 97 <= c <= 122 then c - 71
    else if 48 <= c <= 57 then c + 4
    else if c == 43 then 62 else if c == 47 then 63 else 64
  }

  predicate InAlphabet(c: Byte) {
    SixBits(c) < 64
  }

  lemma SixBitsBack(v: Byte)
    requires v < 64
    ensures SixBits(Basis(v)) == v && InAlphabet(Basis(v))
  {
  }

  // ----- the four characters of three bytes -----

  function First(a: Byte): (v: Byte)
    ensures v < 64
  {
    (a >> 2) & 0x3F
  }

  function Second(a: Byte, b: Byte): (v: Byte)
    ensures v < 64
  {
    ((a & 0x3) << 4) | ((b & 0xF0) >> 4)
  }

  function Third(b: Byte, c: Byte): (v: Byte)
    ensures v < 64
  {
    ((b & 0xF) << 2) | ((c & 0xC0) >> 6)
  }

  function Fourth(c: Byte): (v: Byte)
    ensures v < 64
  {
    c & 0x3F
  }

  /** `(a & 0x3) << 4` */
  function SecondPadded(a: Byte): (v: Byte)
    ensures v < 64 && v == Second(a, 0)
  {
    (a & 0x3) << 4
  }

  function ThirdPadded(b: Byte): (v: Byte)
    ensures v < 64 && v == Third(b, 0)
  {
    (b & 0xF) << 2
  }

  function Join1(p: Byte, q: Byte): Byte {
    (p << 2) | (q >> 4)
  }

  function Join2(q: Byte, r: Byte): Byte {
    (q << 4) | (r >> 2)
  }

  function Join3(r: Byte, s: Byte): Byte {
    (r << 6) | s
  }

  lemma BitsBack(a: Byte, b: Byte, c: Byte)
    ensures Join1(First(a), Second(a, b)) == a
    ensures Join2(Second(a, b), Third(b, c)) == b
    ensures Join3(Third(b, c), Fourth(c)) == c
  {
  }

  function Quad(a: Byte, b: Byte, c: Byte): Bytes {
    [Basis(First(a)), Basis(Second(a, b)), Basis(Third(b, c)), Basis(Fourth(c))]
  }

  function Encode(s: Bytes): Bytes {
    if |s| == 0 then []
    else if |s| == 1 then [Basis(First(s[0])), Basis(Second(s[0], 0)), PAD, PAD]
    else if |s| == 2 then [Basis(First(s[0])), Basis(Second(s[0], s[1])), Basis(Third(s[1], 0)), PAD]
    else Quad(s[0], s[1], s[2]) + Encode(s[3..])
  }

  function EncodeLength(n: nat): nat {
    (n + 2) / 3 * 4 + 1
  }

  lemma {:induction false} EncodeLengthExact(s: Bytes)
    ensures |Encode(s)| + 1 == EncodeLength(|s|)
  {
    hide Basis, First, Second, Third, Fourth;
    if |s| >= 3 {
      EncodeLengthExact(s[3..]);
      assert (|s| - 3 + 2) / 3 + 1 == (|s| + 2) / 3;
    }
  }

  lemma {:induction false} EncodeAppend(a: Bytes, b: Bytes)
    requires |a| % 3 == 0
    ensures Encode(a + b) == Encode(a) + Encode(b)
  {
    if a == [] {
      assert a + b == b;
    } else {
      assert (a + b)[3..] == a[3..] + b;
      EncodeAppend(a[3..], b);
    }
  }

  lemma LastBytes(s: Bytes, i: nat)
    requires i <= |s| <= i + 2 && i % 3 == 0
    ensures i == |s| ==> Encode(s) == Encode(s[..i])
    ensures i == |s| - 1 ==>
      Encode(s) == Encode(s[..i]) + [Basis(First(s[i])), Basis(SecondPadded(s[i])), PAD, PAD]
    ensures i == |s| - 2 ==>
      Encode(s)
      == Encode(s[..i]) + [Basis(First(s[i])), Basis(Second(s[i], s[i + 1])), Basis(ThirdPadded(s[i + 1])), PAD]
  {
    hide First, Second, SecondPadded, ThirdPadded, Basis;
    var rest := s[i..];
    assert s[..i] + rest == s;
    EncodeAppend(s[..i], rest);
    assert i < |s| ==> rest[0] == s[i];
  }

  /** What is left after the whole triples, padded, and the terminating NUL. */
  method EncodeRest(encoded: array<Byte>, ghost before: Bytes, s: Bytes, i: nat, written: nat) returns (p: nat)
    requires i <= |s| <= i + 2 && i % 3 == 0 && written == |Encode(s[..i])|
    requires |Encode(s)| + 1 <= encoded.Length == |before| && encoded[..] == Overlay(before, 0, Encode(s[..i]))
    modifies encoded
    ensures p == |Encode(s)| + 1 && encoded[..] == Overlay(before, 0, Encode(s) + [0])
  {
    hide Overlay, Encode, Basis;
    p := written;
    LastBytes(s, i);
    if i < |s| {
      var rest;
      if i == |s| - 1 {
        rest := [Basis(First(s[i])), Basis(SecondPadded(s[i])), PAD, PAD];
      } else {
        rest := [Basis(First(s[i])), Basis(Second(s[i], s[i + 1])), Basis(ThirdPadded(s[i + 1])), PAD];
      }
      p := Append(encoded, 0, before, Encode(s[..i]), p, rest);
    }
    p := Append(encoded, 0, before, Encode(s), p, [0]);
  }

  lemma EncodeNothing(s: Bytes)
    ensures Encode(s[..0]) == []
  {
  }

  lemma NextTriple(s: Bytes, i: nat)
    requires i + 2 < |s| && i % 3 == 0
    ensures Encode(s[..i + 3]) == Encode(s[..i]) + Quad(s[i], s[i + 1], s[i + 2])
    ensures |Encode(s[..i + 3])| <= |Encode(s)|
  {
    var triple := s[i..i + 3];
    assert s[..i] + triple == s[..i + 3] && s[..i + 3] + s[i + 3..] == s;
    EncodeAppend(s[..i], triple);
    EncodeAppend(s[..i + 3], s[i + 3..]);
    assert Encode(triple) == Quad(s[i], s[i + 1], s[i + 2]) + Encode(triple[3..]);
  }

  /** The loop over whole triples, then the padded rest, then the NUL. */
  method Base64Encode(encoded: array<Byte>, s: Bytes) returns (r: nat)
    requires EncodeLength(|s|) <= encoded.Length
    modifies encoded
    ensures r == EncodeLength(|s|)
    ensures encoded[..] == Overlay(old(encoded[..]), 0, Encode(s) + [0])
  {
    ghost var before := encoded[..];
    var i, p: nat := 0, 0;
    EncodeLengthExact(s);
    OverlayNothing(before, 0);
    EncodeNothing(s);
    hide Overlay, Encode;
    while i + 2 < |s|
      invariant i <= |s| && i % 3 == 0 && p == |Encode(s[..i])|
      invariant encoded[..] == Overlay(before, 0, Encode(s[..i]))
    {
      NextTriple(s, i);
      p := Append(encoded, 0, before, Encode(s[..i]), p, Quad(s[i], s[i + 1], s[i + 2]));
      i := i + 3;
    }
    r := EncodeRest(encoded, before, s, i, p);
  }

  // ----- decoding -----

  /** The number of characters before the first one outside the alphabet. */
  function ValidLength(coded: Bytes): (n: nat)
    ensures n <= |coded| && (n < |coded| ==> !InAlphabet(coded[n]))
    ensures forall i :: 0 <= i < n ==> InAlphabet(coded[i])
  {
    if coded == [] || !InAlphabet(coded[0]) then 0 else 1 + ValidLength(coded[1..])
  }

  /** Something ends the text, such as its NUL. */
  predicate Terminated(coded: Bytes) {
    ValidLength(coded) < |coded|
  }

  function Triple(t: Bytes): (r: Bytes)
    requires |t| >= 4
    ensures |r| == 3
  {
    [Join1(SixBits(t[0]), SixBits(t[1])), Join2(SixBits(t[1]), SixBits(t[2])), Join3(SixBits(t[2]), SixBits(t[3]))]
  }

  /** The last group of at most four characters; a single one is ignored. */
  function LastGroup(t: Bytes): Bytes
    requires |t| <= 4
  {
    (if |t| > 1 then [Join1(SixBits(t[0]), SixBits(t[1]))] else [])
    + ((if |t| > 2 then [Join2(SixBits(t[1]), SixBits(t[2]))] else [])
       + (if |t| > 3 then [Join3(SixBits(t[2]), SixBits(t[3]))] else []))
  }

  function DecodeChars(t: Bytes): Bytes {
    if |t| > 4 then Triple(t) + DecodeChars(t[4..]) else LastGroup(t)
  }

  /** What `Base64decode` stores before its NUL. */
  function Decoded(coded: Bytes): Bytes {
    DecodeChars(coded[..ValidLength(coded)])
  }

  /** `((nprbytes + 3) / 4) * 3`, less what the last group lacks. */
  function DecodedCount(n: nat, last: nat): int
    requires last <= 4
  {
    (n + 3) / 4 * 3 - (4 - last) % 4
  }

  function LastSize(n: nat): (r: nat)
    ensures r <= 4 && r <= n
  {
    if n > 4 then LastSize(n - 4) else n
  }

  /** The count that is returned is the number of bytes stored, whatever the text. */
  lemma {:induction false} CountExact(t: Bytes)
    ensures |DecodeChars(t)| == DecodedCount(|t|, LastSize(|t|)) <= (|t| + 3) / 4 * 3
  {
    hide SixBits, Join1, Join2, Join3;
    if |t| > 4 {
      CountExact(t[4..]);
      assert (|t| - 4 + 3) / 4 + 1 == (|t| + 3) / 4;
    }
  }

  function DecodeLength(coded: Bytes): nat {
    (ValidLength(coded) + 3) / 4 * 3 + 1
  }

  method Scan(coded: Bytes) returns (n: nat)
    requires Terminated(coded)
    ensures n == ValidLength(coded)
  {
    var bufin := 0;
    while SixBits(coded[bufin]) <= 63
      invariant 0 <= bufin <= ValidLength(coded)
      decreases ValidLength(coded) - bufin
    {
      bufin := bufin + 1;
    }
    n := bufin;
  }

  lemma DecodeNext(done: Bytes, t: Bytes, at: nat)
    requires at + 4 < |t| && done + DecodeChars(t[at..]) == DecodeChars(t)
    ensures done + Triple(t[at..]) + DecodeChars(t[at + 4..]) == DecodeChars(t)
    ensures |done| + 3 <= |DecodeChars(t)| && LastSize(|t| - at) == LastSize(|t| - at - 4)
  {
    hide Triple;
    assert t[at..][4..] == t[at + 4..];
    assert done + Triple(t[at..]) + DecodeChars(t[at + 4..]) == done + (Triple(t[at..]) + DecodeChars(t[at + 4..]));
  }

  lemma DecodeLast(t: Bytes)
    requires |t| <= 4
    ensures DecodeChars(t) == LastGroup(t) && LastSize(|t|) == |t|
  {
    hide LastGroup;
  }

  /** Returns the number of bytes stored before the NUL, which fit the length announced. */
  method Base64Decode(plain: array<Byte>, coded: Bytes) returns (count: int)
    requires Terminated(coded) && DecodeLength(coded) <= plain.Length
    modifies plain
    ensures count == |Decoded(coded)| < DecodeLength(coded)
    ensures plain[..] == Overlay(old(plain[..]), 0, Decoded(coded) + [0])
  {
    hide Overlay, Triple, LastGroup, DecodeChars, LastSize, ValidLength;
    var n := Scan(coded);
    ghost var before, t, done := plain[..], coded[..n], [];
    var bufin, bufout, nprbytes: nat := 0, 0, n;
    CountExact(t);
    OverlayNothing(before, 0);
    assert t[0..] == t && done + DecodeChars(t) == DecodeChars(t);
    while nprbytes > 4
      invariant bufin + nprbytes == n && bufout == |done| && LastSize(n) == LastSize(nprbytes)
      invariant done + DecodeChars(t[bufin..]) == DecodeChars(t)
      invariant plain[..] == Overlay(before, 0, done)
    {
      DecodeNext(done, t, bufin);
      assert coded[bufin..n] == t[bufin..];
      bufout := Append(plain, 0, before, done, bufout, Triple(coded[bufin..n]));
      done := done + Triple(t[bufin..]);
      bufin, nprbytes := bufin + 4, nprbytes - 4;
    }
    DecodeLast(t[bufin..]);
    assert coded[bufin..n] == t[bufin..];
    bufout := Append(plain, 0, before, done, bufout, LastGroup(coded[bufin..n]));
    bufout := Append(plain, 0, before, DecodeChars(t), bufout, [0]);
    count := DecodedCount(n, nprbytes);
  }

  // ----- the round trip -----

  lemma ValidPrefix(chars: Bytes, rest: Bytes)
    requires forall i :: 0 <= i < |chars| ==> InAlphabet(chars[i])
    ensures ValidLength(chars + rest) == |chars| + ValidLength(rest)
  {
    if chars != [] {
      assert (chars + rest)[1..] == chars[1..] + rest;
      ValidPrefix(chars[1..], rest);
    } else {
      assert chars + rest == rest;
    }
  }

  lemma GroupBack(quad: Bytes, t: Bytes)
    requires |quad| == 4
    ensures DecodeChars(quad + t) == Triple(quad) + DecodeChars(t)
  {
    assert t != [] ==> (quad + t)[4..] == t;
    assert t == [] ==> quad + t == quad;
  }

  lemma QuadBack(a: Byte, b: Byte, c: Byte)
    ensures |Quad(a, b, c)| == 4 && Triple(Quad(a, b, c)) == [a, b, c]
    ensures forall i :: 0 <= i < |Quad(a, b, c)| ==> InAlphabet(Quad(a, b, c)[i])
  {
    SixBitsBack(First(a));
    SixBitsBack(Second(a, b));
    SixBitsBack(Third(b, c));
    SixBitsBack(Fourth(c));
    BitsBack(a, b, c);
  }

  /** A whole group before a text. */
  lemma QuadThen(a: Byte, b: Byte, c: Byte, rest: Bytes)
    ensures Decoded(Quad(a, b, c) + rest) == [a, b, c] + Decoded(rest)
    ensures Terminated(rest) ==> Terminated(Quad(a, b, c) + rest)
  {
    hide Quad, InAlphabet, Triple, DecodeChars, ValidLength;
    var quad := Quad(a, b, c);
    QuadBack(a, b, c);
    ValidPrefix(quad, rest);
    var t := rest[..ValidLength(rest)];
    assert (quad + rest)[..ValidLength(quad + rest)] == quad + t;
    GroupBack(quad, t);
  }

  lemma PadEnds()
    ensures !InAlphabet(PAD) && !InAlphabet(0)
  {
  }

  /** A text ends at the first character outside the alphabet. */
  lemma TextEnds(chars: Bytes, rest: Bytes)
    requires forall i :: 0 <= i < |chars| ==> InAlphabet(chars[i])
    requires rest != [] && !InAlphabet(rest[0])
    ensures Terminated(chars + rest) && Decoded(chars + rest) == DecodeChars(chars)
  {
    ValidPrefix(chars, rest);
    assert (chars + rest)[..|chars|] == chars;
    hide DecodeChars, InAlphabet;
  }

  lemma NothingBack(end: Bytes)
    requires end != [] && !InAlphabet(end[0])
    ensures Terminated([] + end) && Decoded([] + end) == []
  {
    TextEnds([], end);
  }

  /** The two groups that are shorter than four characters. */
  lemma GroupsBack(a: Byte, b: Byte)
    ensures InAlphabet(Basis(First(a))) && InAlphabet(Basis(Second(a, b))) && InAlphabet(Basis(Third(b, 0)))
    ensures DecodeChars([Basis(First(a)), Basis(Second(a, b)), Basis(Third(b, 0))]) == [a, b]
    ensures DecodeChars([Basis(First(a)), Basis(Second(a, b))]) == [a]
  {
    hide First, Second, Third, Basis, SixBits, InAlphabet, Join1, Join2, Join3;
    var quad := Quad(a, b, 0);
    QuadBack(a, b, 0);
    assert InAlphabet(quad[0]) && InAlphabet(quad[1]) && InAlphabet(quad[2]);
  }

  lemma OneBack(a: Byte, end: Bytes)
    ensures Terminated(Encode([a]) + end) && Decoded(Encode([a]) + end) == [a]
  {
    hide First, Second, Third, Basis, InAlphabet, DecodeChars, Decoded, Terminated;
    PadEnds();
    GroupsBack(a, 0);
    var chars := [Basis(First(a)), Basis(Second(a, 0))];
    assert Encode([a]) + end == chars + ([PAD, PAD] + end);
    TextEnds(chars, [PAD, PAD] + end);
  }

  lemma TwoBack(a: Byte, b: Byte, end: Bytes)
    ensures Terminated(Encode([a, b]) + end) && Decoded(Encode([a, b]) + end) == [a, b]
  {
    hide First, Second, Third, Basis, InAlphabet, DecodeChars, Decoded, Terminated;
    PadEnds();
    GroupsBack(a, b);
    var chars := [Basis(First(a)), Basis(Second(a, b)), Basis(Third(b, 0))];
    assert Encode([a, b]) + end == chars + ([PAD] + end);
    TextEnds(chars, [PAD] + end);
  }

  /** Decoding an encoded text, whatever follows its NUL in memory, gives the bytes and their exact number. */
  lemma {:induction false} DecodeEncode(s: Bytes, tail: Bytes)
    ensures Terminated(Encode(s) + ([0] + tail)) && Decoded(Encode(s) + ([0] + tail)) == s
  {
    hide Quad, InAlphabet, Terminated, Decoded;
    PadEnds();
    var end := [0] + tail;
    if |s| >= 3 {
      DecodeEncode(s[3..], tail);
      QuadThen(s[0], s[1], s[2], Encode(s[3..]) + end);
      assert Encode(s) + end == Quad(s[0], s[1], s[2]) + (Encode(s[3..]) + end);
      assert [s[0], s[1], s[2]] + s[3..] == s;
    } else if |s| == 0 {
      NothingBack(end);
      assert Encode(s) + end == [] + end;
    } else if |s| == 1 {
      OneBack(s[0], end);
      assert s == [s[0]];
    } else {
      TwoBack(s[0], s[1], end);
      assert s == [s[0], s[1]];
    }
  }
}
