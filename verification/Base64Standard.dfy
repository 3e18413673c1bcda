/** The encoding against section 4 of RFC 4648, read off the alphabet and the numbers that digits and bytes form. */
module Base64Standard {
  import opened ByteStrings
  import opened Base64

  // ----- the alphabet -----

  const UPPER: string := "ABCDEFGHIJKLM"
  const UPPER_N: string := "NOPQRSTUVWXYZ"
  const LOWER: string := "abcdefghijklm"
  const LOWER_N: string := "nopqrstuvwxyz"
  const DIGITS: string := "0123456789"
  const ALPHABET: string := UPPER + (UPPER_N + (LOWER + (LOWER_N + (DIGITS + "+/"))))

  /** `c` is character number `v` of the alphabet. */
  predicate IsDigit(c: Byte, v: Byte) {
    v < 64 && ALPHABET[v as int] as int == c as int
  }

  /** From position `v` on, a string holds consecutive characters, the first of all being `first`. */
  predicate Consecutive(s: string, v: nat, first: int)
    decreases |s| - v
  {
    v >= |s| || (s[v] as int == first + v && Consecutive(s, v + 1, first))
  }

  lemma {:induction false} ConsecutiveAt(s: string, from: nat, v: nat, first: int)
    requires from <= v < |s| && Consecutive(s, from, first)
    ensures s[v] as int == first + v
    decreases v - from
  {
    if from < v {
      ConsecutiveAt(s, from + 1, v, first);
    }
  }

  lemma LettersAt(v: nat)
    requires v < 13
    ensures |UPPER| == |UPPER_N| == |LOWER| == |LOWER_N| == 13
    ensures UPPER[v] as int == 65 + v && UPPER_N[v] as int == 78 + v
    ensures LOWER[v] as int == 97 + v && LOWER_N[v] as int == 110 + v
  {
    ConsecutiveAt(UPPER, 0, v, 65);
    ConsecutiveAt(UPPER_N, 0, v, 78);
    ConsecutiveAt(LOWER, 0, v, 97);
    ConsecutiveAt(LOWER_N, 0, v, 110);
  }

  lemma DigitAt(v: nat)
    requires v < 10
    ensures |DIGITS| == 10 && DIGITS[v] as int == 48 + v
  {
    ConsecutiveAt(DIGITS, 0, v, 48);
  }

  lemma AlphabetAt(v: nat)
    requires v < 64
    ensures |ALPHABET| == 64
    ensures ALPHABET[v] as int
      == if v < 26 then v + 65 else if v < 52 then v + 71 else if v < 62 then v - 4 else if v == 62 then 43 else 47
  {
    LettersAt(0);
    DigitAt(0);
    if v < 13 {
      LettersAt(v);
    } else if v < 26 {
      LettersAt(v - 13);
    } else if v < 39 {
      LettersAt(v - 26);
    } else if v < 52 {
      LettersAt(v - 39);
    } else if v < 62 {
      DigitAt(v - 52);
    }
  }

  lemma BasisValue(v: Byte)
    requires v < 64
    ensures Basis(v) as int == var n := v as int;
      if n < 26 then n + 65 else if n < 52 then n + 71 else if n < 62 then n - 4 else if n == 62 then 43 else 47
  {
  }

  /** The table of the encoder is the alphabet. */
  lemma BasisIsDigit(v: Byte)
    requires v < 64
    ensures IsDigit(Basis(v), v)
  {
    AlphabetAt(v as int);
    BasisValue(v);
  }

  lemma SameByte(a: Byte, b: Byte)
    requires a as int == b as int
    ensures a == b
  {
    ByteValues.IntOfByte(a);
    ByteValues.IntOfByte(b);
  }

  lemma BasisOfSixBits(c: Byte)
    ensures InAlphabet(c) ==> Basis(SixBits(c)) == c
  {
  }

  lemma OneDigit(c: Byte, v: Byte)
    requires v < 64
    ensures IsDigit(c, v) <==> SixBits(c) == v
  {
    BasisIsDigit(v);
    SixBitsBack(v);
    BasisOfSixBits(c);
    if IsDigit(c, v) {
      SameByte(c, Basis(v));
    }
  }

  /** The table of the decoder is the alphabet read backwards, and 64 beside it. */
  lemma SixBitsIsDigit(c: Byte, v: Byte)
    ensures v < 64 ==> (IsDigit(c, v) <==> SixBits(c) == v)
    ensures InAlphabet(c) <==> exists d :: IsDigit(c, d)
  {
    if v < 64 {
      OneDigit(c, v);
    }
    if InAlphabet(c) {
      OneDigit(c, SixBits(c));
    }
    if d :| IsDigit(c, d) {
      OneDigit(c, d);
    }
  }

  // ----- numbers -----

  /** The number that three bytes form in base 256. */
  function Value256(a: Byte, b: Byte, c: Byte): bv24 {
    (a as bv24) * 0x10000 + (b as bv24) * 0x100 + (c as bv24)
  }

  /** The number that four digits form in base 64. */
  function Value64(p: Byte, q: Byte, r: Byte, s: Byte): bv24 {
    (p as bv24) * 0x40000 + (q as bv24) * 0x1000 + (r as bv24) * 0x40 + (s as bv24)
  }

  lemma GroupValue(a: Byte, b: Byte, c: Byte)
    ensures Value64(First(a), Second(a, b), Third(b, c), Fourth(c)) == Value256(a, b, c)
    ensures Second(a, 0) & 0xF == 0 && Third(b, 0) & 0x3 == 0 && Fourth(0) == 0
  {
  }

  lemma JoinedValue(p: Byte, q: Byte, r: Byte, s: Byte)
    requires p < 64 && q < 64 && r < 64 && s < 64
    ensures Value256(Join1(p, q), Join2(q, r), Join3(r, s)) == Value64(p, q, r, s)
  {
  }

  // ----- encoding -----

  /**
   Four characters spell three bytes: as digits they form the same number. A shorter group is that of the bytes with
   zeros, and padded in the place of the digits that only zeros make.
   */
  ghost predicate Spells(t: Bytes, b: Bytes) {
    |t| == 4 && 1 <= |b| <= 3
    && exists p, q, r, s ::
         && IsDigit(t[0], p) && IsDigit(t[1], q)
         && (if |b| >= 2 then IsDigit(t[2], r) else t[2] as char == '=' && r == 0)
         && (if |b| == 3 then IsDigit(t[3], s) else t[3] as char == '=' && s == 0)
         && Value64(p, q, r, s) == Value256(b[0], if |b| >= 2 then b[1] else 0, if |b| == 3 then b[2] else 0)
  }

  lemma GroupSpells(a: Byte, b: Byte, c: Byte)
    ensures Spells(Quad(a, b, c), [a, b, c])
    ensures Spells([Basis(First(a)), Basis(Second(a, b)), Basis(Third(b, 0)), PAD], [a, b])
    ensures Spells([Basis(First(a)), Basis(Second(a, 0)), PAD, PAD], [a])
  {
    BasisIsDigit(First(a));
    BasisIsDigit(Second(a, b));
    BasisIsDigit(Second(a, 0));
    BasisIsDigit(Third(b, c));
    BasisIsDigit(Third(b, 0));
    BasisIsDigit(Fourth(c));
    GroupValue(a, b, c);
    GroupValue(a, b, 0);
    GroupValue(a, 0, 0);
    assert Third(0, 0) == 0 && Fourth(0) == 0;
    hide IsDigit, Value64, Value256, Basis, First, Second, Third, Fourth;
  }

  /** Group by group, the text spells the bytes. */
  ghost predicate SpellsAll(t: Bytes, s: Bytes) {
    if s == [] then t == [] else
    var n := Min(3, |s|);
    |t| >= 4 && Spells(t[..4], s[..n]) && SpellsAll(t[4..], s[n..])
  }

  lemma SpelledFirst(t: Bytes, rest: Bytes, b: Bytes, s: Bytes)
    requires |t| == 4 && 1 <= |b| <= 3 && Spells(t, b) && SpellsAll(rest, s) && (|b| < 3 ==> s == [])
    ensures SpellsAll(t + rest, b + s)
  {
    hide Spells;
    assert (t + rest)[..4] == t && (t + rest)[4..] == rest;
    assert (b + s)[..Min(3, |b + s|)] == b && (b + s)[Min(3, |b + s|)..] == s;
  }

  /** The text that is encoded spells the bytes. */
  lemma {:induction false} EncodeSpells(s: Bytes)
    ensures SpellsAll(Encode(s), s)
  {
    hide Spells, Basis, First, Second, Third, Fourth;
    if |s| == 1 {
      GroupSpells(s[0], 0, 0);
      SpelledFirst(Encode(s), [], [s[0]], []);
      assert s == [s[0]] + [] && Encode(s) == Encode(s) + [];
    } else if |s| == 2 {
      GroupSpells(s[0], s[1], 0);
      SpelledFirst(Encode(s), [], [s[0], s[1]], []);
      assert s == [s[0], s[1]] + [] && Encode(s) == Encode(s) + [];
    } else if |s| >= 3 {
      GroupSpells(s[0], s[1], s[2]);
      EncodeSpells(s[3..]);
      SpelledFirst(Quad(s[0], s[1], s[2]), Encode(s[3..]), [s[0], s[1], s[2]], s[3..]);
      assert s == [s[0], s[1], s[2]] + s[3..];
    }
  }

  // ----- decoding -----

  /** The digits of a text over the alphabet. */
  ghost predicate Digits(t: Bytes, d: Bytes) {
    |d| == |t| && forall k :: 0 <= k < |t| ==> IsDigit(t[k], d[k])
  }

  lemma DigitsAre(t: Bytes, d: Bytes)
    requires Digits(t, d)
    ensures forall k :: 0 <= k < |t| ==> d[k] < 64 && SixBits(t[k]) == d[k] && InAlphabet(t[k])
  {
    forall k | 0 <= k < |t|
      ensures d[k] < 64 && SixBits(t[k]) == d[k]
    {
      OneDigit(t[k], d[k]);
    }
  }

  /**
   The bytes of a group of at most four digits: as many as the digits fill, the bits left over being dropped; a single
   digit fills none.
   */
  ghost predicate Fills(d: Bytes, b: Bytes) {
    match |d|
    case 0 => b == []
    case 1 => b == []
    case 2 => |b| == 1 && exists x, y :: Value64(d[0], d[1], 0, 0) == Value256(b[0], x, y)
    case 3 => |b| == 2 && exists x :: Value64(d[0], d[1], d[2], 0) == Value256(b[0], b[1], x)
    case _ => |d| == 4 && |b| == 3 && Value64(d[0], d[1], d[2], d[3]) == Value256(b[0], b[1], b[2])
  }

  /** Group by group, the digits fill the bytes. */
  ghost predicate FillsAll(d: Bytes, b: Bytes) {
    if |d| <= 4 then Fills(d, b) else |b| >= 3 && Fills(d[..4], b[..3]) && FillsAll(d[4..], b[3..])
  }

  lemma TripleFilled(t: Bytes, d: Bytes)
    requires Digits(t, d) && |t| >= 4
    ensures Fills(d[..4], Triple(t))
  {
    DigitsAre(t, d);
    JoinedValue(d[0], d[1], d[2], d[3]);
    hide SixBits, Join1, Join2, Join3, Value64, Value256, IsDigit;
  }

  lemma LastFilled(t: Bytes, d: Bytes)
    requires Digits(t, d) && |t| <= 4
    ensures Fills(d, LastGroup(t))
  {
    DigitsAre(t, d);
    if |t| >= 2 {
      JoinedValue(d[0], d[1], if |t| > 2 then d[2] else 0, if |t| > 3 then d[3] else 0);
    }
    hide SixBits, Join1, Join2, Join3, Value64, Value256, IsDigit;
  }

  /** The bytes that are decoded are what the digits of the text fill. */
  lemma {:induction false} DecodeFills(t: Bytes, d: Bytes)
    requires Digits(t, d)
    ensures FillsAll(d, DecodeChars(t))
  {
    hide Fills, IsDigit, Triple, LastGroup;
    if |t| > 4 {
      TripleFilled(t, d);
      assert forall k :: 0 <= k < |t[4..]| ==> t[4..][k] == t[k + 4] && d[4..][k] == d[k + 4];
      DecodeFills(t[4..], d[4..]);
      assert DecodeChars(t)[..3] == Triple(t) && DecodeChars(t)[3..] == DecodeChars(t[4..]);
    } else {
      LastFilled(t, d);
    }
  }

  /** A text over the alphabet ends at the first other character, and what is stored is what its digits fill. */
  lemma DecodedIs(t: Bytes, d: Bytes, rest: Bytes)
    requires Digits(t, d) && rest != [] && forall v :: !IsDigit(rest[0], v)
    ensures Terminated(t + rest) && FillsAll(d, Decoded(t + rest))
  {
    DigitsAre(t, d);
    SixBitsIsDigit(rest[0], 64);
    hide IsDigit, InAlphabet;
    TextEnds(t, rest);
    DecodeFills(t, d);
  }

  /** 24 ones are four slashes. */
  lemma OnesExample()
    ensures Encode([255, 255, 255]) == [47, 47, 47, 47]
  {
    assert [255, 255, 255][3..] == [];
  }
}
