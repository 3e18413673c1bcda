/** `sgx_clean_path` and the four path splitters. */
module Paths {
  import opened ByteStrings

  const SLASH: Byte := 47

  // ----- the names on a path -----

  predicate IsName(n: Bytes) {
    n != [] && SLASH !in n
  }

  predicate Names(cs: seq<Bytes>) {
    forall n :: n in cs ==> IsName(n)
  }

  predicate Absolute(p: Bytes) {
    p != [] && p[0] == SLASH
  }

  /** The non-empty pieces between slashes. */
  function Components(p: Bytes): (cs: seq<Bytes>)
    ensures Names(cs)
    ensures p != [] && p[0] != SLASH ==> cs != []
  {
    if p == [] then [] else
    var rest := Components(p[1..]);
    if p[0] == SLASH then rest
    else if |p| == 1 || p[1] == SLASH then [[p[0]]] + rest
    else
      assert IsName(rest[0]) && Names(rest[1..]);
      [[p[0]] + rest[0]] + rest[1..]
  }

  /** A slash before every name. */
  function Join(cs: seq<Bytes>): (p: Bytes)
    ensures cs != [] ==> Absolute(p)
  {
    if cs == [] then [] else [SLASH] + cs[0] + Join(cs[1..])
  }

  /** The absolute path with these names. */
  function PathOf(cs: seq<Bytes>): (p: Bytes)
    ensures Absolute(p)
  {
    if cs == [] then [SLASH] else Join(cs)
  }

  /** The relative path with these names. */
  function RelativeOf(cs: seq<Bytes>): Bytes {
    if cs == [] then [] else Join(cs)[1..]
  }

  // ----- cleaning -----

  /** One pass over the path that keeps one slash of every run of slashes. */
  function Collapse(p: Bytes): (r: Bytes)
    ensures r == [] <==> p == []
    ensures p != [] ==> r[0] == p[0]
  {
    if |p| < 2 then p
    else if p[0] == SLASH && p[1] == SLASH then Collapse(p[1..])
    else [p[0]] + Collapse(p[1..])
  }

  function TrimEnd(p: Bytes): Bytes {
    if |p| > 1 && p[|p| - 1] == SLASH then TrimEnd(p[..|p| - 1]) else p
  }

  function Clean(p: Bytes): Bytes {
    TrimEnd(Collapse(p))
  }

  predicate DoubleAt(p: Bytes, i: int) {
    0 <= i < |p| - 1 && p[i] == SLASH && p[i + 1] == SLASH
  }

  /** `find("//")`: the position, or -1 for `npos`. */
  function FindDouble(p: Bytes, from: nat): (r: int)
    requires from <= |p| && forall i :: 0 <= i < from ==> !DoubleAt(p, i)
    ensures if r >= 0 then DoubleAt(p, r) else forall i :: !DoubleAt(p, i)
    decreases |p| - from
  {
    if from == |p| then -1 else if DoubleAt(p, from) then from else FindDouble(p, from + 1)
  }

  lemma {:induction false} CollapseReplace(p: Bytes, i: nat)
    requires DoubleAt(p, i)
    ensures Collapse(p[..i] + [SLASH] + p[i + 2..]) == Collapse(p)
    decreases i
  {
    var q := p[..i] + [SLASH] + p[i + 2..];
    if i == 0 {
      assert q == p[1..];
    } else {
      CollapseReplace(p[1..], i - 1);
      assert q[1..] == p[1..][..i - 1] + [SLASH] + p[1..][i - 1 + 2..];
    }
  }

  lemma {:induction false} CollapseNothing(p: Bytes)
    requires forall i :: !DoubleAt(p, i)
    ensures Collapse(p) == p
  {
    if |p| >= 2 {
      assert !DoubleAt(p, 0);
      forall i
        ensures !DoubleAt(p[1..], i)
      {
        assert !DoubleAt(p, i + 1);
      }
      CollapseNothing(p[1..]);
    }
  }

  /** The two loops end, and compute the one-pass collapse without its trailing slash. */
  method CleanPath(path: Bytes) returns (trimmed: Bytes)
    ensures trimmed == Clean(path)
  {
    trimmed := path;
    var position := FindDouble(trimmed, 0);
    while position >= 0
      invariant Collapse(trimmed) == Collapse(path) && position == FindDouble(trimmed, 0)
      decreases |trimmed|
    {
      CollapseReplace(trimmed, position);
      trimmed := trimmed[..position] + [SLASH] + trimmed[position + 2..];
      position := FindDouble(trimmed, 0);
    }
    CollapseNothing(trimmed);
    while |trimmed| > 1 && trimmed[|trimmed| - 1] == SLASH
      invariant TrimEnd(trimmed) == Clean(path)
      decreases |trimmed|
    {
      trimmed := trimmed[..|trimmed| - 1];
    }
  }

  // ----- what a clean path is -----

  lemma {:induction false} CollapseKeepsComponents(p: Bytes)
    ensures Components(Collapse(p)) == Components(p)
  {
    if |p| >= 2 {
      CollapseKeepsComponents(p[1..]);
      if !(p[0] == SLASH && p[1] == SLASH) {
        assert Collapse(p)[1..] == Collapse(p[1..]);
      }
    }
  }

  lemma {:induction false} SlashAtEnd(p: Bytes)
    ensures Components(p + [SLASH]) == Components(p)
  {
    if p != [] {
      assert (p + [SLASH])[1..] == p[1..] + [SLASH];
      SlashAtEnd(p[1..]);
    }
  }

  lemma {:induction false} TrimKeepsComponents(p: Bytes)
    ensures Components(TrimEnd(p)) == Components(p)
    ensures p != [] ==> TrimEnd(p) != [] && TrimEnd(p)[0] == p[0]
    ensures p == [] ==> TrimEnd(p) == []
  {
    if |p| > 1 && p[|p| - 1] == SLASH {
      TrimKeepsComponents(p[..|p| - 1]);
      SlashAtEnd(p[..|p| - 1]);
      assert p[..|p| - 1] + [SLASH] == p;
    }
  }

  ghost predicate Tidy(p: Bytes) {
    (forall i :: !DoubleAt(p, i)) && (|p| > 1 ==> p[|p| - 1] != SLASH)
  }

  lemma {:induction false} CollapseHasNoDouble(p: Bytes)
    ensures forall i :: !DoubleAt(Collapse(p), i)
  {
    if |p| >= 2 {
      CollapseHasNoDouble(p[1..]);
      if !(p[0] == SLASH && p[1] == SLASH) {
        forall i
          ensures !DoubleAt(Collapse(p), i)
        {
          assert !DoubleAt(Collapse(p[1..]), i - 1);
        }
      }
    }
  }

  lemma {:induction false} TrimTidies(p: Bytes)
    requires forall i :: !DoubleAt(p, i)
    ensures Tidy(TrimEnd(p))
  {
    if |p| > 1 && p[|p| - 1] == SLASH {
      var q := p[..|p| - 1];
      forall i
        ensures !DoubleAt(q, i)
      {
        assert !DoubleAt(p, i);
      }
      TrimTidies(q);
    }
  }

  /** The one path with the names of `p` that starts with a slash if and only if `p` does. */
  function Canonical(p: Bytes): Bytes {
    if Absolute(p) then PathOf(Components(p)) else RelativeOf(Components(p))
  }

  lemma RelativeStep(cs: seq<Bytes>)
    requires cs != []
    ensures RelativeOf(cs) == cs[0] + Join(cs[1..]) && Join(cs) == [SLASH] + RelativeOf(cs)
  {
    assert Join(cs) == [SLASH] + (cs[0] + Join(cs[1..]));
  }

  lemma OneByteIsCanonical(p: Bytes)
    requires |p| == 1
    ensures p == Canonical(p)
  {
    assert p == [p[0]] && Components(p[1..]) == [];
    if p[0] != SLASH {
      assert Components(p) == [p];
      RelativeStep([p]);
    }
  }

  lemma NamePrefixed(b: Byte, rest: seq<Bytes>)
    requires rest != []
    ensures RelativeOf([[b] + rest[0]] + rest[1..]) == [b] + RelativeOf(rest)
  {
    var cs := [[b] + rest[0]] + rest[1..];
    RelativeStep(rest);
    RelativeStep(cs);
    assert cs[1..] == rest[1..] && [b] + rest[0] + Join(rest[1..]) == [b] + (rest[0] + Join(rest[1..]));
  }

  lemma CanonicalStep(b: Byte, q: Bytes)
    requires q != [] && q == Canonical(q) && !(b == SLASH && q[0] == SLASH) && q != [SLASH]
    ensures [b] + q == Canonical([b] + q)
  {
    var p, rest := [b] + q, Components(q);
    assert p[1..] == q;
    if q[0] == SLASH {
      RelativeStep([[b]] + rest);
      assert ([[b]] + rest)[1..] == rest;
    } else {
      RelativeStep(rest);
      if b != SLASH {
        NamePrefixed(b, rest);
      }
    }
  }

  lemma {:induction false} TidyIsCanonical(p: Bytes)
    requires Tidy(p)
    ensures p == Canonical(p)
  {
    if |p| >= 2 {
      var q := p[1..];
      assert !DoubleAt(p, 0);
      forall i
        ensures !DoubleAt(q, i)
      {
        assert !DoubleAt(p, i + 1);
      }
      TidyIsCanonical(q);
      assert p == [p[0]] + q;
      CanonicalStep(p[0], q);
    } else if |p| == 1 {
      OneByteIsCanonical(p);
    }
  }

  /** Cleaning gives the canonical path: it depends on nothing but the names and whether the path is absolute. */
  lemma CleanIsCanonical(p: Bytes)
    ensures Clean(p) == Canonical(p)
    ensures Components(Clean(p)) == Components(p)
    ensures Absolute(Clean(p)) <==> Absolute(p)
  {
    CollapseHasNoDouble(p);
    TrimTidies(Collapse(p));
    CollapseKeepsComponents(p);
    TrimKeepsComponents(Collapse(p));
    TidyIsCanonical(Clean(p));
  }

  lemma CleanTwice(p: Bytes)
    ensures Clean(Clean(p)) == Clean(p)
  {
    CleanIsCanonical(p);
    CleanIsCanonical(Clean(p));
  }

  // ----- paths from names and back -----

  lemma {:induction false} NameThen(n: Bytes, rest: Bytes)
    requires IsName(n) && (rest == [] || rest[0] == SLASH)
    ensures Components(n + rest) == [n] + Components(rest)
  {
    var p := n + rest;
    assert n[0] in n && p[0] == n[0];
    if |n| == 1 {
      assert p[1..] == rest && [p[0]] == n;
    } else {
      assert n[1] in n && p[1] == n[1];
      assert p[1..] == n[1..] + rest;
      NameThen(n[1..], rest);
      assert ([n[1..]] + Components(rest))[1..] == Components(rest);
      assert [n[0]] + n[1..] == n;
    }
  }

  lemma SlashFirst(p: Bytes)
    ensures Components([SLASH] + p) == Components(p)
  {
    assert ([SLASH] + p)[1..] == p;
  }

  lemma {:induction false} JoinBack(cs: seq<Bytes>)
    requires Names(cs)
    ensures Components(Join(cs)) == cs
  {
    if cs != [] {
      assert IsName(cs[0]) && Names(cs[1..]);
      var rest := Join(cs[1..]);
      JoinBack(cs[1..]);
      NameThen(cs[0], rest);
      SlashFirst(cs[0] + rest);
      assert Join(cs) == [SLASH] + (cs[0] + rest);
      assert [cs[0]] + cs[1..] == cs;
      hide Components, Join;
    }
  }

  lemma PathBack(cs: seq<Bytes>)
    requires Names(cs)
    ensures Components(PathOf(cs)) == cs && Components(RelativeOf(cs)) == cs
    ensures cs != [] ==> !Absolute(RelativeOf(cs))
    ensures Clean(PathOf(cs)) == PathOf(cs) && Clean(RelativeOf(cs)) == RelativeOf(cs)
  {
    JoinBack(cs);
    if cs != [] {
      RelativeStep(cs);
      SlashFirst(RelativeOf(cs));
      assert IsName(cs[0]) && RelativeOf(cs)[0] == cs[0][0];
      assert cs[0][0] in cs[0];
    }
    CleanIsCanonical(PathOf(cs));
    CleanIsCanonical(RelativeOf(cs));
  }

  lemma {:induction false} JoinSnoc(cs: seq<Bytes>, n: Bytes)
    ensures Join(cs + [n]) == Join(cs) + ([SLASH] + n)
  {
    if cs == [] {
      assert Join([n]) == [SLASH] + n + Join([]);
    } else {
      assert (cs + [n])[1..] == cs[1..] + [n];
      JoinSnoc(cs[1..], n);
    }
  }

  // ----- the splitters -----

  /** `find("/")`, with the length for `npos`. */
  function FirstSlash(p: Bytes): (i: nat)
    ensures i <= |p| && SLASH !in p[..i] && (i < |p| ==> p[i] == SLASH)
  {
    if p == [] || p[0] == SLASH then 0 else 1 + FirstSlash(p[1..])
  }

  /** `find_last_of("/") + 1`: 0 when there is none. */
  function AfterLastSlash(p: Bytes): (i: nat)
    ensures i <= |p| && SLASH !in p[i..] && (i > 0 ==> p[i - 1] == SLASH)
  {
    if p == [] then 0 else if p[|p| - 1] == SLASH then |p| else AfterLastSlash(p[..|p| - 1])
  }

  function DirectoryPath(path: Bytes): Bytes {
    var cleaned := Clean(path);
    Clean(cleaned[..AfterLastSlash(cleaned)])
  }

  function RelativePath(path: Bytes): Bytes {
    var cleaned := Clean(path);
    Clean(cleaned[AfterLastSlash(cleaned)..])
  }

  /** Without a slash in the cleaned path, the path is returned as it is. */
  function ParentPath(path: Bytes): Bytes {
    var cleaned := Clean(path);
    var i := FirstSlash(cleaned);
    if i == |cleaned| then path else Clean(cleaned[..i + 1])
  }

  function ChildPath(path: Bytes): Bytes {
    var cleaned := Clean(path);
    var i := FirstSlash(cleaned);
    if i == |cleaned| then [] else Clean(cleaned[i + 1..])
  }

  lemma CleanName(n: Bytes)
    requires IsName(n)
    ensures Clean(n) == n && Clean(n + [SLASH]) == n
  {
    NameThen(n, []);
    assert n + [] == n;
    SlashAtEnd(n);
    CleanIsCanonical(n);
    CleanIsCanonical(n + [SLASH]);
    assert Join([n]) == [SLASH] + n + [];
  }

  lemma {:induction false} LastSlashAt(dir: Bytes, n: Bytes)
    requires dir != [] && dir[|dir| - 1] == SLASH && SLASH !in n
    ensures AfterLastSlash(dir + n) == |dir| && (dir + n)[..|dir|] == dir && (dir + n)[|dir|..] == n
  {
    if n != [] {
      assert (dir + n)[..|dir + n| - 1] == dir + n[..|n| - 1];
      LastSlashAt(dir, n[..|n| - 1]);
    } else {
      assert dir + n == dir;
    }
  }

  /** A path other than the root splits into the path of its directory and its last name. */
  lemma SplitLast(path: Bytes, cs: seq<Bytes>, n: Bytes)
    requires Absolute(path) && Components(path) == cs + [n]
    ensures DirectoryPath(path) == PathOf(cs) && RelativePath(path) == n
  {
    CleanIsCanonical(path);
    JoinSnoc(cs, n);
    assert Names(cs) by {
      forall m | m in cs ensures IsName(m) { assert m in cs + [n]; }
    }
    assert n in cs + [n];
    var cleaned, dir := Clean(path), Join(cs) + [SLASH];
    assert cleaned == dir + n;
    LastSlashAt(dir, n);
    CleanName(n);
    JoinBack(cs);
    SlashAtEnd(Join(cs));
    CleanIsCanonical(dir);
  }

  lemma SplitAt(n: Bytes, rest: seq<Bytes>)
    ensures var p := n + Join(rest);
      if rest == [] then p == n && RelativeOf(rest) == []
      else |n| < |p| && p[..|n| + 1] == n + [SLASH] && p[|n| + 1..] == RelativeOf(rest)
  {
    if rest != [] {
      RelativeStep(rest);
    }
  }

  lemma {:induction false} FirstSlashAt(n: Bytes, rest: Bytes)
    requires SLASH !in n && (rest == [] || rest[0] == SLASH)
    ensures FirstSlash(n + rest) == |n|
  {
    if n != [] {
      assert (n + rest)[1..] == n[1..] + rest;
      FirstSlashAt(n[1..], rest);
    } else {
      assert n + rest == rest;
    }
  }

  /** A relative path of names splits into its first name and the relative path of the others. */
  lemma SplitFirst(cs: seq<Bytes>)
    requires Names(cs) && cs != []
    ensures ParentPath(RelativeOf(cs)) == cs[0] && ChildPath(RelativeOf(cs)) == RelativeOf(cs[1..])
    ensures |RelativeOf(cs[1..])| < |RelativeOf(cs)|
  {
    PathBack(cs);
    PathBack(cs[1..]);
    RelativeStep(cs);
    assert cs[0] in cs;
    CleanName(cs[0]);
    FirstSlashAt(cs[0], Join(cs[1..]));
    SplitAt(cs[0], cs[1..]);
  }

  /** The child path of an absolute path is the relative path with the same names. */
  lemma ChildOfAbsolute(path: Bytes)
    requires Absolute(path)
    ensures ChildPath(path) == RelativeOf(Components(path))
  {
    CleanIsCanonical(path);
    PathBack(Components(path));
    var cs := Components(path);
    if cs == [] {
      assert Clean(path)[1..] == [];
    }
  }

  /** A relative path loses its first name. */
  lemma ChildOfRelative(path: Bytes)
    requires path != [] && !Absolute(path)
    ensures ChildPath(path) == RelativeOf(Components(path)[1..])
  {
    CleanIsCanonical(path);
    CleanTwice(path);
    SplitFirst(Components(path));
  }

  lemma {:induction false} CollapseIsNoLonger(p: Bytes)
    ensures |Collapse(p)| <= |p|
  {
    if |p| >= 2 {
      CollapseIsNoLonger(p[1..]);
    }
  }

  lemma {:induction false} TrimIsNoLonger(p: Bytes)
    ensures |TrimEnd(p)| <= |p|
  {
    if |p| > 1 && p[|p| - 1] == SLASH {
      TrimIsNoLonger(p[..|p| - 1]);
    }
  }

  lemma {:induction false} CleanIsNoLonger(p: Bytes)
    ensures |Clean(p)| <= |p|
  {
    CollapseIsNoLonger(p);
    TrimIsNoLonger(Collapse(p));
  }

  /** Every step of a path walk shortens the path, whatever it looks like. */
  lemma ChildIsShorter(path: Bytes)
    requires path != []
    ensures |ChildPath(path)| < |path|
  {
    var cleaned := Clean(path);
    CleanIsNoLonger(path);
    if FirstSlash(cleaned) < |cleaned| {
      CleanIsNoLonger(cleaned[FirstSlash(cleaned) + 1..]);
    }
  }

  /** A path as the callers of the filesystem pass it: cleaned, from the root. */
  predicate IsPath(p: Bytes) {
    Absolute(p) && Clean(p) == p
  }

  lemma PathIsItsNames(p: Bytes)
    requires IsPath(p)
    ensures p == PathOf(Components(p)) && Names(Components(p))
    ensures p == [SLASH] <==> Components(p) == []
  {
    CleanIsCanonical(p);
    if Components(p) != [] {
      assert Components(p)[0] in Components(p);
    }
  }

  lemma DirectoryIsPath(p: Bytes)
    requires IsPath(p)
    ensures IsPath(DirectoryPath(p))
    ensures var cs := Components(p);
      if cs == [] then DirectoryPath(p) == [SLASH] && RelativePath(p) == []
      else DirectoryPath(p) == PathOf(cs[..|cs| - 1]) && Components(DirectoryPath(p)) == cs[..|cs| - 1]
           && RelativePath(p) == cs[|cs| - 1]
  {
    var cs := Components(p);
    PathIsItsNames(p);
    if cs == [] {
      assert AfterLastSlash(p) == 1 && p[..1] == p;
    } else {
      assert cs == cs[..|cs| - 1] + [cs[|cs| - 1]];
      SplitLast(p, cs[..|cs| - 1], cs[|cs| - 1]);
      PathBack(cs[..|cs| - 1]);
    }
  }

  /** "/a//b/" is cleaned to "/a/b", whose names are "a" and "b". */
  lemma CleanExample()
    ensures Clean([47, 97, 47, 47, 98, 47]) == [47, 97, 47, 98]
    ensures Components([47, 97, 47, 47, 98, 47]) == [[97], [98]]
  {
  }
}
