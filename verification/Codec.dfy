/** Readers over a byte buffer: what is left of the buffer plays the part of the `read` offset. */
module Codec {
  import opened ByteStrings

  /**
   The outcome of a load: a value and the rest of the buffer; `Rejected` where the code returns -1; `Fault` where it
   reads past the buffer or asks `std::string` for an impossible length.
   */
  datatype Parsed<+T> = Done(value: T, rest: Bytes) | Rejected | Fault {
    predicate IsFailure() {
      !Done?
    }

    function PropagateFailure<U>(): Parsed<U>
      requires IsFailure()
    {
      if Rejected? then Rejected else Fault
    }

    function Extract(): (T, Bytes)
      requires Done?
    {
      (value, rest)
    }
  }

  function Take(s: Bytes, n: nat): Parsed<Bytes> {
    if |s| < n then Fault else Done(s[..n], s[n..])
  }

  function TakeNumber(s: Bytes, width: nat): Parsed<nat> {
    var (digits, rest) :- Take(s, width);
    Done(FromLittleEndian(digits), rest)
  }

  function Size(n: nat): (s: Bytes)
    ensures |s| == 8
  {
    LittleEndian(n, 8)
  }

  /** A length-prefixed C string: the length counts the terminating NUL. */
  function Text(t: Bytes): (s: Bytes)
    ensures |s| == 8 + |t| + 1
  {
    Size(|t| + 1) + (t + [0])
  }

  /** `checked`: whether the code compares the announced length, plus `extra`, with what is left. */
  function TakeText(s: Bytes, checked: bool, extra: nat): Parsed<Bytes> {
    var (n, rest) :- TakeNumber(s, 8);
    if checked && |rest| < n + extra then Rejected
    else if n == 0 then Fault
    else
      var (t, rest') :- Take(rest, n);
      Done(t[..n - 1], rest')
  }

  // ----- reading back what was written, whatever follows it -----

  lemma Split(a: Bytes, b: Bytes, s: Bytes)
    requires a + b <= s
    ensures a <= s && b <= s[|a|..] && s[|a|..][|b|..] == s[|a + b|..]
  {
    assert s[..|a + b|] == a + b;
    assert s[..|a|] == (a + b)[..|a|] == a;
    assert s[|a|..][..|b|] == (a + b)[|a|..] == b;
  }

  lemma TakeBack(a: Bytes, s: Bytes)
    requires a <= s
    ensures Take(s, |a|) == Done(a, s[|a|..])
  {
    assert s[..|a|] == a;
  }

  lemma TakeNumberBack(n: nat, width: nat, s: Bytes)
    requires n < Pow256(width) && LittleEndian(n, width) <= s
    ensures TakeNumber(s, width) == Done(n, s[width..])
  {
    TakeBack(LittleEndian(n, width), s);
    LittleEndianRoundTrip(n, width);
  }

  lemma TakeTextBack(t: Bytes, s: Bytes, checked: bool, extra: nat)
    requires |t| + 1 < SIZE_T_LIMIT && Text(t) <= s
    requires checked ==> |Text(t)| + extra <= |s|
    ensures TakeText(s, checked, extra) == Done(t, s[|Text(t)|..])
  {
    Widths();
    Split(Size(|t| + 1), t + [0], s);
    TakeNumberBack(|t| + 1, 8, s);
    TakeBack(t + [0], s[8..]);
    assert (t + [0])[..|t|] == t;
  }

  // ----- lists of records -----

  function EncodeAll<T>(xs: seq<T>, enc: T -> Bytes): Bytes {
    if xs == [] then [] else EncodeAll(xs[..|xs| - 1], enc) + enc(xs[|xs| - 1])
  }

  function DecodeAll<T>(s: Bytes, n: nat, dec: Bytes -> Parsed<T>): Parsed<seq<T>> {
    if n == 0 then Done([], s) else
    var (xs, rest) :- DecodeAll(s, n - 1, dec);
    var (x, rest') :- dec(rest);
    Done(xs + [x], rest')
  }

  /** `dec` reads `x` back from any buffer that starts with its record. */
  ghost predicate ReadsBack<T>(x: T, enc: T -> Bytes, dec: Bytes -> Parsed<T>) {
    forall s: Bytes :: enc(x) <= s ==> dec(s) == Done(x, s[|enc(x)|..])
  }

  lemma {:induction false} DecodeAllBack<T>(xs: seq<T>, enc: T -> Bytes, dec: Bytes -> Parsed<T>, s: Bytes)
    requires forall x :: x in xs ==> ReadsBack(x, enc, dec)
    requires EncodeAll(xs, enc) <= s
    ensures DecodeAll(s, |xs|, dec) == Done(xs, s[|EncodeAll(xs, enc)|..])
  {
    if xs != [] {
      var init, last := xs[..|xs| - 1], xs[|xs| - 1];
      var done := EncodeAll(init, enc);
      Split(done, enc(last), s);
      DecodeAllBack(init, enc, dec, s);
      assert init + [last] == xs;
      assert dec(s[|done|..]) == Done(last, s[|done|..][|enc(last)|..]) by {
        assert ReadsBack(last, enc, dec);
      }
    }
  }
}
