/** The order in which `std::map` is traversed: ascending keys. */
module Orders {
  import opened ByteStrings

  ghost predicate TotalOrder<T(!new)>(le: (T, T) -> bool) {
    && (forall x, y :: le(x, y) || le(y, x))
    && (forall x, y :: le(x, y) && le(y, x) ==> x == y)
    && (forall x, y, z :: le(x, y) && le(y, z) ==> le(x, z))
  }

  predicate Least<T(!new)>(m: T, s: set<T>, le: (T, T) -> bool) {
    m in s && forall x | x in s :: le(m, x)
  }

  lemma LeastOfOneMore<T(!new)>(s: set<T>, le: (T, T) -> bool, a: T, b: T)
    requires TotalOrder(le) && a in s && Least(b, s - {a}, le)
    ensures Least(if le(a, b) then a else b, s, le)
  {
    forall x | x in s
      ensures le(if le(a, b) then a else b, x)
    {
      assert x == a || x in s - {a};
    }
  }

  lemma {:induction false} LeastExists<T(!new)>(s: set<T>, le: (T, T) -> bool)
    requires s != {} && TotalOrder(le)
    ensures exists m :: Least(m, s, le)
    decreases |s|
  {
    var a :| a in s;
    if s - {a} != {} {
      LeastExists(s - {a}, le);
      var b :| Least(b, s - {a}, le);
      LeastOfOneMore(s, le, a, b);
    } else {
      assert forall x | x in s :: x == a || x in s - {a};
      assert Least(a, s, le);
    }
  }

  function Ascending<T(!new)>(s: set<T>, le: (T, T) -> bool): seq<T>
    requires TotalOrder(le)
    decreases |s|
  {
    if s == {} then [] else
    LeastExists(s, le);
    var m :| Least(m, s, le);
    [m] + Ascending(s - {m}, le)
  }

  lemma AscendingStep<T(!new)>(s: set<T>, le: (T, T) -> bool)
    requires TotalOrder(le) && s != {}
    ensures var r := Ascending(s, le);
      r != [] && Least(r[0], s, le) && r[1..] == Ascending(s - {r[0]}, le)
  {
    LeastExists(s, le);
  }

  /** Every element of `s`, once, in ascending order. */
  ghost predicate Lists<T(!new)>(r: seq<T>, s: set<T>, le: (T, T) -> bool) {
    && |r| == |s|
    && (forall x :: x in r <==> x in s)
    && (forall i, j :: 0 <= i < j < |r| ==> r[i] != r[j] && le(r[i], r[j]))
  }

  lemma ListsMore<T(!new)>(m: T, r: seq<T>, s: set<T>, le: (T, T) -> bool)
    requires Least(m, s, le) && Lists(r, s - {m}, le)
    ensures Lists([m] + r, s, le)
  {
    var all := [m] + r;
    forall x
      ensures x in all <==> x in s
    {
      assert x in all <==> x == m || x in r;
    }
    forall i, j | 0 <= i < j < |all|
      ensures all[i] != all[j] && le(all[i], all[j])
    {
      assert all[j] == r[j - 1] && r[j - 1] in r;
    }
  }

  lemma {:induction false} AscendingListsAll<T(!new)>(s: set<T>, le: (T, T) -> bool)
    requires TotalOrder(le)
    ensures Lists(Ascending(s, le), s, le)
    decreases |s|
  {
    if s != {} {
      AscendingStep(s, le);
      var r := Ascending(s, le);
      AscendingListsAll(s - {r[0]}, le);
      ListsMore(r[0], r[1..], s, le);
      assert r == [r[0]] + r[1..];
    }
  }

  // ----- strings compare byte by byte -----

  predicate BytesLe(a: Bytes, b: Bytes) {
    a == [] || (b != [] && (a[0] < b[0] || (a[0] == b[0] && BytesLe(a[1..], b[1..]))))
  }

  lemma BytesAntisymmetric(a: Bytes, b: Bytes)
    requires BytesLe(a, b) && BytesLe(b, a)
    ensures a == b
  {
    if a != [] {
      BytesAntisymmetric(a[1..], b[1..]);
      assert a == [a[0]] + a[1..] && b == [b[0]] + b[1..];
    }
  }

  lemma BytesTransitive(a: Bytes, b: Bytes, c: Bytes)
    requires BytesLe(a, b) && BytesLe(b, c)
    ensures BytesLe(a, c)
  {
  }

  lemma BytesTotal(a: Bytes, b: Bytes)
    ensures BytesLe(a, b) || BytesLe(b, a)
  {
  }

  lemma BytesOrder()
    ensures TotalOrder(BytesLe)
  {
    forall x: Bytes, y: Bytes
      ensures BytesLe(x, y) || BytesLe(y, x)
    {
      BytesTotal(x, y);
    }
    forall x: Bytes, y: Bytes | BytesLe(x, y) && BytesLe(y, x)
      ensures x == y
    {
      BytesAntisymmetric(x, y);
    }
    forall x: Bytes, y: Bytes, z: Bytes | BytesLe(x, y) && BytesLe(y, z)
      ensures BytesLe(x, z)
    {
      BytesTransitive(x, y, z);
    }
  }

  // ----- maps as lists -----

  function KeyList<V>(m: map<Bytes, V>): seq<Bytes> {
    BytesOrder();
    Ascending(m.Keys, BytesLe)
  }

  function IndexList<V>(m: map<nat, V>): seq<nat> {
    Ascending(m.Keys, (i: nat, j: nat) => i <= j)
  }

  lemma KeyListAll<V>(m: map<Bytes, V>)
    ensures var ks := KeyList(m);
      && |ks| == |m| && (forall k :: k in ks <==> k in m)
      && (forall i, j :: 0 <= i < j < |ks| ==> ks[i] != ks[j])
  {
    BytesOrder();
    AscendingListsAll(m.Keys, BytesLe);
  }

  /** `std::map::insert`: a key that is there keeps its value. */
  function Insert<K, V>(m: map<K, V>, k: K, v: V): map<K, V> {
    if k in m then m else m[k := v]
  }
}
