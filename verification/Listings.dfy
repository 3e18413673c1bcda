/** The text that `sgx_readdir` fills and `tokenize` takes apart. */
module Listings {
  import opened ByteStrings
  import opened NodeRecords

  predicate Token(n: Bytes, separator: Byte) {
    n != [] && 0 !in n && separator !in n
  }

  // ----- joining -----

  /** Every name with a separator after it. */
  function Joined(names: seq<Bytes>, separator: Byte): Bytes {
    if names == [] then [] else names[0] + [separator] + Joined(names[1..], separator)
  }

  lemma {:induction false} JoinedSnoc(names: seq<Bytes>, n: Bytes, separator: Byte)
    ensures Joined(names + [n], separator) == Joined(names, separator) + (n + [separator])
  {
    if names == [] {
      assert Joined([n], separator) == n + [separator] + Joined([], separator);
    } else {
      assert (names + [n])[1..] == names[1..] + [n];
      JoinedSnoc(names[1..], n, separator);
    }
  }

  /** `sgx_ls_buffer_size` */
  method BufferSize(names: seq<Bytes>, separator: Byte) returns (size: nat)
    ensures size == |Joined(names, separator)|
  {
    size := 0;
    var i := 0;
    while i < |names|
      invariant 0 <= i <= |names| && size == |Joined(names[..i], separator)|
    {
      assert names[..i + 1] == names[..i] + [names[i]];
      JoinedSnoc(names[..i], names[i], separator);
      size := size + |names[i]| + 1;
      i := i + 1;
    }
    assert names[..|names|] == names;
  }

  /** How many names are written before `size` bytes are reached. */
  function Fitting(names: seq<Bytes>, size: nat): (k: nat)
    ensures k <= |names|
  {
    if names == [] || size == 0 then 0
    else 1 + Fitting(names[1..], if size < |names[0]| + 1 then 0 else size - |names[0]| - 1)
  }

  /**
   The count stops the loop after the first name that reaches the size: it is the least number of names that do, or
   all.
   */
  lemma {:induction false} FittingExact(names: seq<Bytes>, size: nat, separator: Byte)
    ensures var k := Fitting(names, size);
      (k < |names| ==> |Joined(names[..k], separator)| >= size)
      && (forall j :: 0 <= j < k ==> |Joined(names[..j], separator)| < size)
  {
    if names != [] && size > 0 {
      var left := if size < |names[0]| + 1 then 0 else size - |names[0]| - 1;
      FittingExact(names[1..], left, separator);
      var k := Fitting(names, size);
      assert names[..k][1..] == names[1..][..k - 1];
      forall j | 0 <= j < k
        ensures |Joined(names[..j], separator)| < size
      {
        if j > 0 {
          assert names[..j][1..] == names[1..][..j - 1];
        }
      }
    }
  }

  lemma JoinedGrows(names: seq<Bytes>, j: nat, separator: Byte)
    requires j <= |names|
    ensures |Joined(names[..j], separator)| <= |Joined(names, separator)|
  {
    if j > 0 {
      assert names[..j][1..] == names[1..][..j - 1];
      JoinedGrows(names[1..], j - 1, separator);
    }
  }

  /**
   The loop of `sgx_readdir`: it looks at the size before each name, not after. The buffer of `size` bytes is the start
   of `memory`; what lies behind it is written when the names overrun it.
   */
  method JoinNames(names: seq<Bytes>, separator: Byte, size: nat, memory: array<Byte>) returns (count: nat)
    requires |Joined(names[..Fitting(names, size)], separator)| <= memory.Length
    modifies memory
    ensures count == Fitting(names, size)
    ensures memory[..] == Overlay(old(memory[..]), 0, Joined(names[..count], separator))
  {
    ghost var before, k := memory[..], Fitting(names, size);
    var offset: nat := 0;
    count := 0;
    OverlayNothing(before, 0);
    FittingExact(names, size, separator);
    hide Overlay;
    while count < |names| && offset < size
      invariant count <= k && offset == |Joined(names[..count], separator)|
      invariant memory[..] == Overlay(before, 0, Joined(names[..count], separator))
    {
      assert names[..count + 1] == names[..count] + [names[count]];
      JoinedSnoc(names[..count], names[count], separator);
      assert count < k;
      assert names[..k][..count + 1] == names[..count + 1];
      JoinedGrows(names[..k], count + 1, separator);
      offset := Append(memory, 0, before, Joined(names[..count], separator), offset, names[count] + [separator]);
      count := count + 1;
    }
  }

  /** Some number of whole names takes exactly `size` bytes. */
  ghost predicate EndsName(names: seq<Bytes>, separator: Byte, size: nat) {
    exists j: nat :: j <= |names| && |Joined(names[..j], separator)| == size
  }

  /** The names written overrun the announced size exactly when it is too small for all and ends no name. */
  lemma JoinOverruns(names: seq<Bytes>, separator: Byte, size: nat)
    ensures |Joined(names[..Fitting(names, size)], separator)| > size
            <==> size < |Joined(names, separator)| && !EndsName(names, separator, size)
  {
    var k := Fitting(names, size);
    FittingExact(names, size, separator);
    JoinedGrows(names, k, separator);
    assert names[..|names|] == names;
    if EndsName(names, separator, size) {
      var j: nat :| j <= |names| && |Joined(names[..j], separator)| == size;
      if k < j {
        assert names[..j][..k] == names[..k];
        JoinedGrows(names[..j], k, separator);
      }
    }
  }

  /** One name of two letters and an announced size of 1: the name and its separator take 3 bytes. */
  lemma JoinOverrunsExample()
    ensures var names: seq<Bytes> := [[97, 98]];
      Fitting(names, 1) == 1 && |Joined(names[..1], 47)| == 3 && 1 < |Joined(names, 47)| && !EndsName(names, 47, 1)
  {
    var names: seq<Bytes> := [[97, 98]];
    assert names[..1] == names && names[1..] == [] && names[..0] == [];
    assert Joined(names, 47) == names[0] + [47] + Joined([], 47);
  }

  // ----- taking apart -----

  /** `find(separator, pos)` from the start of `text`; -1 for `npos`. */
  function Find(text: Bytes, separator: Byte): (i: int)
    ensures if i >= 0 then i < |text| && text[i] == separator && separator !in text[..i] else separator !in text
  {
    if text == [] then -1
    else if text[0] == separator then 0
    else
      var i := Find(text[1..], separator);
      if i < 0 then -1 else i + 1
  }

  /** The non-empty pieces that a separator ends, up to position `limit`. */
  function Tokens(text: Bytes, limit: int, separator: Byte): seq<Bytes>
    decreases |text|
  {
    var i := Find(text, separator);
    if i < 0 || i > limit then []
    else if i == 0 then Tokens(text[1..], limit - 1, separator)
    else [text[..i]] + Tokens(text[i + 1..], limit - i - 1, separator)
  }

  /** `tokens` are those before `pos`, `all` the tokens of the whole text. */
  predicate Remaining(text: Bytes, pos: nat, limit: int, separator: Byte, tokens: seq<Bytes>, all: seq<Bytes>)
    requires pos <= |text|
  {
    tokens + Tokens(text[pos..], limit, separator) == all
  }

  lemma NothingTaken(text: Bytes, limit: int, separator: Byte)
    ensures Remaining(text, 0, limit, separator, [], Tokens(text, limit, separator))
  {
    hide Tokens;
    assert text[0..] == text && [] + Tokens(text, limit, separator) == Tokens(text, limit, separator);
  }

  lemma TokensStep(text: Bytes, limit: int, separator: Byte)
    ensures var i := Find(text, separator);
      Tokens(text, limit, separator)
      == if i < 0 || i > limit then []
         else (if i > 0 then [text[..i]] else []) + Tokens(text[i + 1..], limit - i - 1, separator)
  {
    hide Find;
  }

  lemma TokensTurn(text: Bytes, pos: nat, limit: int, separator: Byte, tokens: seq<Bytes>, all: seq<Bytes>)
    requires pos <= |text| && Remaining(text, pos, limit, separator, tokens, all)
    ensures var i := Find(text[pos..], separator);
      (if i < 0 || i > limit then tokens == all
       else pos + i < |text| && Remaining(text, pos + i + 1, limit - i - 1, separator,
                                          if i > 0 then tokens + [text[pos..pos + i]] else tokens, all))
  {
    hide Tokens, Find;
    var rest := text[pos..];
    var i := Find(rest, separator);
    TokensStep(rest, limit, separator);
    if 0 <= i <= limit {
      assert rest[i + 1..] == text[pos + i + 1..] && rest[..i] == text[pos..pos + i];
    }
  }

  /** `tokenize`: `npos` is past every buffer size, so a missing separator ends the loop. */
  method Tokenize(size: nat, text: Bytes, separator: Byte) returns (tokens: seq<Bytes>)
    ensures tokens == Tokens(text, size, separator)
  {
    hide Tokens, Find, Remaining;
    tokens := [];
    var pos: nat := 0;
    NothingTaken(text, size, separator);
    ghost var all := Tokens(text, size, separator);
    while true
      invariant pos <= |text| && Remaining(text, pos, size - pos, separator, tokens, all)
      decreases |text| - pos
    {
      TokensTurn(text, pos, size - pos, separator, tokens, all);
      var length := Find(text[pos..], separator);
      if length < 0 || pos + length > size {
        break;
      }
      if length > 0 {
        tokens := tokens + [text[pos..pos + length]];
      }
      pos := pos + length + 1;
    }
  }

  // ----- the two are inverse -----

  lemma FindAfter(n: Bytes, rest: Bytes, separator: Byte)
    requires separator !in n
    ensures Find(n + [separator] + rest, separator) == |n|
  {
    if n != [] {
      assert (n + [separator] + rest)[1..] == n[1..] + [separator] + rest;
      FindAfter(n[1..], rest, separator);
    }
  }

  lemma JoinedFirst(names: seq<Bytes>, separator: Byte)
    requires names != []
    ensures Joined(names, separator) == names[0] + [separator] + Joined(names[1..], separator)
  {
  }

  lemma NoTokens(garbage: Bytes, separator: Byte)
    ensures Tokens(garbage, 0, separator) == []
  {
    if Find(garbage, separator) == 0 {
      assert Tokens(garbage[1..], -1, separator) == [];
    }
  }

  lemma FirstToken(n: Bytes, after: Bytes, garbage: Bytes, limit: nat, separator: Byte)
    requires Token(n, separator)
    ensures Tokens(n + [separator] + after + garbage, |n| + 1 + limit, separator)
      == [n] + Tokens(after + garbage, limit, separator)
  {
    var text, rest := n + [separator] + after + garbage, after + garbage;
    assert text == n + [separator] + rest;
    FindAfter(n, rest, separator);
    assert text[..|n|] == n && text[|n| + 1..] == rest;
    hide Find;
  }

  /** Whatever text follows the names, exactly the names come out. */
  lemma {:induction false} TokensOfJoined(names: seq<Bytes>, separator: Byte, garbage: Bytes)
    requires forall n :: n in names ==> Token(n, separator)
    ensures Tokens(Joined(names, separator) + garbage, |Joined(names, separator)|, separator) == names
  {
    if names == [] {
      NoTokens(garbage, separator);
      assert Joined(names, separator) + garbage == garbage;
    } else {
      var n, after := names[0], Joined(names[1..], separator);
      assert Token(n, separator);
      TokensOfJoined(names[1..], separator, garbage);
      hide Tokens, Joined;
      JoinedFirst(names, separator);
      FirstToken(n, after, garbage, |after|, separator);
      assert [n] + names[1..] == names;
    }
  }

  lemma {:induction false} CStringAfter(text: Bytes, rest: Bytes)
    requires 0 !in text
    ensures CString(text + rest) == text + CString(rest)
  {
    if text != [] {
      assert (text + rest)[1..] == text[1..] + rest;
      CStringAfter(text[1..], rest);
    } else {
      assert text + rest == rest;
    }
  }

  lemma {:induction false} JoinedHasNoNul(names: seq<Bytes>, separator: Byte)
    requires separator != 0 && forall n: Bytes :: n in names ==> 0 !in n
    ensures 0 !in Joined(names, separator)
  {
    if names != [] {
      JoinedHasNoNul(names[1..], separator);
    }
  }

  lemma {:induction false} AllFit(names: seq<Bytes>, separator: Byte)
    ensures Fitting(names, |Joined(names, separator)|) == |names|
  {
    if names != [] {
      AllFit(names[1..], separator);
    }
  }

  /**
   A buffer of exactly the announced size has no terminating NUL: whatever memory lies behind it, `tokenize` gives back
   the names.
   */
  lemma ListingBack(names: seq<Bytes>, separator: Byte, buffer: Bytes, tail: Bytes)
    requires separator != 0 && forall n :: n in names ==> Token(n, separator)
    requires buffer == Joined(names, separator)
    ensures Fitting(names, |buffer|) == |names|
    ensures Tokens(CString(buffer + tail), |buffer|, separator) == names
  {
    JoinedHasNoNul(names, separator);
    CStringAfter(buffer, tail);
    TokensOfJoined(names, separator, CString(tail));
    AllFit(names, separator);
  }
}
