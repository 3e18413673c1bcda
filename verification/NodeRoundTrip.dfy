/** What a node dumps is what a fresh node of the same class loads. */
module NodeRoundTrip {
  import opened ByteStrings
  import opened Orders
  import opened Crypto
  import opened Codec
  import opened SealedMetadata
  import opened NodeRecords

  ghost predicate ContiguousKeys(keys: map<nat, CtrContext>) {
    && (forall i: nat :: i in keys <==> i < |keys|)
    && (forall i: nat :: i in keys ==> keys[i].Valid())
  }

  ghost predicate ValidUser(k: Bytes, u: User) {
    k == CString(u.uuid) && ValidUuid(u.uuid) && |u.publicKey| == PUBLIC_KEY_SIZE
  }

  /** `string` of a textual UUID. */
  predicate UuidText(k: Bytes) {
    |k| == UUID_SIZE - 1 && 0 !in k
  }

  /** A well-formed UUID and its text determine each other. */
  lemma NameOfUuid(u: Bytes)
    requires ValidUuid(u)
    ensures CString(u) == u[..UUID_SIZE - 1] && UuidText(CString(u))
  {
    var t := u[..UUID_SIZE - 1];
    assert u == t + ([0] + []);
    CStringBack(t, []);
  }

  /**
   The state of a node object of class `cls` as the filesystem keeps it: the numbers fit a `size_t`, the size of
   the blob an `int`.
   */
  ghost predicate WellFormed(cls: Class, d: NodeData) {
    && d.typ == cls.Code() && |d.uuid| == UUID_SIZE
    && d.atime < SIZE_T_LIMIT && d.mtime < SIZE_T_LIMIT && d.ctime < SIZE_T_LIMIT && d.fileSize < SIZE_T_LIMIT
    && |Sensitive(cls, d)| < SECTION_LIMIT
    && (forall k :: k in d.entries ==> |d.entries[k]| == UUID_SIZE)
    && (forall k :: k in d.entitlements ==> UuidText(k))
    && (if cls == FilenodeClass then d.entries == map[] && ContiguousKeys(d.keys)
        else d.keys == map[] && d.fileSize == 0)
    && (if cls == SupernodeClass then forall k :: k in d.users ==> ValidUser(k, d.users[k]) else d.users == map[])
  }

  lemma UuidFits(cls: Class, d: NodeData)
    requires WellFormed(cls, d)
    ensures |d.uuid| == UUID_SIZE
  {
  }

  /** A node object as its constructor leaves it, before a load. */
  predicate Fresh(cls: Class, d: NodeData) {
    && d.typ == cls.Code() && d.entries == map[] && d.entitlements == map[]
    && d.fileSize == 0 && d.keys == map[] && d.users == map[]
  }

  /** That state. */
  function Blank(cls: Class): (d: NodeData)
    ensures Fresh(cls, d)
  {
    NodeData(cls.Code(), Zeros(UUID_SIZE), 0, 0, 0, [], map[], map[], 0, map[], map[])
  }

  // ----- single records -----

  lemma EntryBack(e: (Bytes, Bytes), s: Bytes)
    requires |e.1| == UUID_SIZE && |e.0| + 1 < SIZE_T_LIMIT && EntryRecord(e) <= s
    ensures TakeEntry(s) == Done(e, s[|EntryRecord(e)|..])
  {
    Split(Text(e.0), e.1, s);
    TakeTextBack(e.0, s, false, 0);
    TakeBack(e.1, s[|Text(e.0)|..]);
  }

  lemma RightsBack(r: Rights)
    ensures DecodeRights(RightsCode(r)) == r
  {
  }

  lemma EntitlementBack(e: (Bytes, Rights), s: Bytes)
    requires UuidText(e.0) && EntitlementRecord(e) <= s
    ensures TakeEntitlement(s) == Done(e, s[|EntitlementRecord(e)|..])
  {
    Widths();
    var uuid, code := UuidOf(e.0), RightsCode(e.1);
    Split(uuid, LittleEndian(code, 4), s);
    TakeBack(uuid, s);
    TakeNumberBack(code, 4, s[UUID_SIZE..]);
    RightsBack(e.1);
    assert uuid == e.0 + ([0] + []);
    CStringBack(e.0, []);
    assert uuid[UUID_SIZE - 1] == 0;
  }

  lemma KeyBack(k: CtrContext, s: Bytes)
    requires k.Valid() && KeyRecord(k) <= s
    ensures TakeKey(s) == Done(k, s[|KeyRecord(k)|..])
  {
    Split(k.key, k.ctr, s);
    TakeBack(k.key, s);
    TakeBack(k.ctr, s[KEY_SIZE..]);
  }

  lemma UserBack(u: User, s: Bytes)
    requires ValidUuid(u.uuid) && |u.publicKey| == PUBLIC_KEY_SIZE && |u.name| + 1 < SIZE_T_LIMIT
    requires UserRecord(u) <= s
    ensures TakeUser(s) == Done(u, s[|UserRecord(u)|..])
  {
    Split(u.uuid, Text(u.name) + u.publicKey, s);
    Split(Text(u.name), u.publicKey, s[UUID_SIZE..]);
    TakeBack(u.uuid, s);
    TakeTextBack(u.name, s[UUID_SIZE..], true, PUBLIC_KEY_SIZE);
    TakeBack(u.publicKey, s[UUID_SIZE..][|Text(u.name)|..]);
    assert u.uuid[UUID_SIZE - 1] == 0;
  }

  // ----- maps -----

  lemma {:induction false} InsertAllBack<K, V>(items: seq<(K, V)>)
    requires forall i, j :: 0 <= i < j < |items| ==> items[i].0 != items[j].0
    ensures var m := InsertAll(map[], items);
      && (forall i :: 0 <= i < |items| ==> items[i].0 in m && m[items[i].0] == items[i].1)
      && (forall k :: k in m ==> exists i :: 0 <= i < |items| && items[i].0 == k)
  {
    if items != [] {
      var init, last := items[..|items| - 1], items[|items| - 1];
      InsertAllBack(init);
      var m, m' := InsertAll(map[], init), InsertAll(map[], items);
      assert last.0 !in m;
      forall k | k in m'
        ensures exists i :: 0 <= i < |items| && items[i].0 == k
      {
        if k == last.0 {
          assert items[|items| - 1].0 == k;
        } else {
          var i :| 0 <= i < |init| && init[i].0 == k;
          assert items[i].0 == k;
        }
      }
    }
  }

  lemma ItemsListed<V>(m: map<Bytes, V>)
    ensures |Items(m)| == |m|
    ensures forall i :: 0 <= i < |Items(m)| ==> Items(m)[i].0 in m && m[Items(m)[i].0] == Items(m)[i].1
    ensures forall i, j :: 0 <= i < j < |Items(m)| ==> Items(m)[i].0 != Items(m)[j].0
    ensures forall k :: k in m ==> exists i :: 0 <= i < |Items(m)| && Items(m)[i].0 == k
  {
    KeyListAll(m);
    hide KeyList;
    forall k | k in m
      ensures exists i :: 0 <= i < |Items(m)| && Items(m)[i].0 == k
    {
      var i :| 0 <= i < |KeyList(m)| && KeyList(m)[i] == k;
      assert Items(m)[i].0 == k;
    }
  }

  lemma ItemsBack<V>(m: map<Bytes, V>)
    ensures InsertAll(map[], Items(m)) == m
    ensures |Items(m)| == |m|
    ensures forall e :: e in Items(m) ==> e.0 in m && m[e.0] == e.1
  {
    hide Items, InsertAll;
    ItemsListed(m);
    InsertAllBack(Items(m));
    forall k | k in m
      ensures k in InsertAll(map[], Items(m)) && InsertAll(map[], Items(m))[k] == m[k]
    {
      var i :| 0 <= i < |Items(m)| && Items(m)[i].0 == k;
    }
  }

  lemma UsersBack(m: map<Bytes, User>)
    requires forall k :: k in m ==> ValidUser(k, m[k])
    ensures InsertAll(map[], ByUuid(Values(m))) == m
    ensures |Values(m)| == |m|
    ensures forall u :: u in Values(m) ==> CString(u.uuid) in m && m[CString(u.uuid)] == u
  {
    hide Items, InsertAll, ValidUuid, CString;
    ItemsBack(m);
    ItemsListed(m);
    var items := Items(m);
    forall i | 0 <= i < |items|
      ensures CString(items[i].1.uuid) == items[i].0
    {
      assert ValidUser(items[i].0, items[i].1);
    }
    assert ByUuid(Values(m)) == items;
  }

  /** Ascending order puts the contiguous indices at their own positions. */
  lemma {:induction false} AscendingFrom(s: set<nat>, lo: nat, n: nat)
    requires forall i: nat :: i in s <==> lo <= i < lo + n
    requires |s| == n
    ensures TotalOrder((i: nat, j: nat) => i <= j)
    ensures var r := Ascending(s, (i: nat, j: nat) => i <= j);
      |r| == n && forall i :: 0 <= i < n ==> r[i] == lo + i
    decreases n
  {
    if n > 0 {
      var le := (i: nat, j: nat) => i <= j;
      LeastExists(s, le);
      assert lo in s;
      var m := Ascending(s, le)[0];
      assert m == lo;
      AscendingFrom(s - {lo}, lo + 1, n - 1);
    }
  }

  lemma IndexedBack(ks: seq<CtrContext>)
    ensures var m := InsertAll(map[], Indexed(ks));
      && (forall i: nat :: i in m <==> i < |ks|)
      && (forall i: nat :: i < |ks| ==> m[i] == ks[i])
  {
    var items := Indexed(ks);
    InsertAllBack(items);
    forall i: nat | i < |ks|
      ensures i in InsertAll(map[], items) && InsertAll(map[], items)[i] == ks[i]
    {
      assert items[i].0 == i;
    }
  }

  lemma BlockKeysAt(keys: map<nat, CtrContext>)
    requires ContiguousKeys(keys)
    ensures |BlockKeys(keys)| == |keys| && forall i: nat :: i < |keys| ==> BlockKeys(keys)[i] == keys[i]
  {
    AscendingFrom(keys.Keys, 0, |keys|);
  }

  lemma KeysBack(keys: map<nat, CtrContext>)
    requires ContiguousKeys(keys)
    ensures InsertAll(map[], Indexed(BlockKeys(keys))) == keys
  {
    BlockKeysAt(keys);
    IndexedBack(BlockKeys(keys));
  }

  // ----- sections -----

  lemma ListBack<T>(xs: seq<T>, enc: T -> Bytes, dec: Bytes -> Parsed<T>, s: Bytes)
    requires |xs| < SIZE_T_LIMIT && List(xs, enc) <= s
    requires forall x :: x in xs ==> ReadsBack(x, enc, dec)
    ensures TakeList(s, dec) == Done(xs, s[|List(xs, enc)|..])
  {
    Widths();
    Split(Size(|xs|), EncodeAll(xs, enc), s);
    TakeNumberBack(|xs|, 8, s);
    DecodeAllBack(xs, enc, dec, s[8..]);
  }

  /** Each record has a byte at least, so a list is no longer than its encoding; each record is a part of it. */
  lemma {:induction false} ListSize<T>(xs: seq<T>, enc: T -> Bytes)
    requires forall x :: x in xs ==> |enc(x)| > 0
    ensures |xs| <= |EncodeAll(xs, enc)|
    ensures forall x :: x in xs ==> |enc(x)| <= |EncodeAll(xs, enc)|
  {
    if xs != [] {
      ListSize(xs[..|xs| - 1], enc);
      assert xs == xs[..|xs| - 1] + [xs[|xs| - 1]];
    }
  }

  lemma EntriesBack(d: NodeData, s: Bytes)
    requires forall k :: k in d.entries ==> |d.entries[k]| == UUID_SIZE
    requires |List(Items(d.entries), EntryRecord)| < SIZE_T_LIMIT && List(Items(d.entries), EntryRecord) <= s
    ensures TakeList(s, TakeEntry) == Done(Items(d.entries), s[|List(Items(d.entries), EntryRecord)|..])
  {
    var items := Items(d.entries);
    ItemsBack(d.entries);
    ListSize(items, EntryRecord);
    forall e | e in items
      ensures ReadsBack(e, EntryRecord, TakeEntry)
    {
      forall t: Bytes | EntryRecord(e) <= t
        ensures TakeEntry(t) == Done(e, t[|EntryRecord(e)|..])
      {
        EntryBack(e, t);
      }
    }
    ListBack(items, EntryRecord, TakeEntry, s);
  }

  lemma EntitlementsBack(d: NodeData, s: Bytes)
    requires forall k :: k in d.entitlements ==> UuidText(k)
    requires |List(Items(d.entitlements), EntitlementRecord)| < SIZE_T_LIMIT
    requires List(Items(d.entitlements), EntitlementRecord) <= s
    ensures TakeList(s, TakeEntitlement)
            == Done(Items(d.entitlements), s[|List(Items(d.entitlements), EntitlementRecord)|..])
  {
    var items := Items(d.entitlements);
    ItemsBack(d.entitlements);
    ListSize(items, EntitlementRecord);
    forall e | e in items
      ensures ReadsBack(e, EntitlementRecord, TakeEntitlement)
    {
      forall t: Bytes | EntitlementRecord(e) <= t
        ensures TakeEntitlement(t) == Done(e, t[|EntitlementRecord(e)|..])
      {
        EntitlementBack(e, t);
      }
    }
    ListBack(items, EntitlementRecord, TakeEntitlement, s);
  }

  lemma BlockKeyListBack(keys: map<nat, CtrContext>, s: Bytes)
    requires ContiguousKeys(keys)
    requires |List(BlockKeys(keys), KeyRecord)| < SIZE_T_LIMIT && List(BlockKeys(keys), KeyRecord) <= s
    ensures TakeList(s, TakeKey) == Done(BlockKeys(keys), s[|List(BlockKeys(keys), KeyRecord)|..])
  {
    var ks := BlockKeys(keys);
    BlockKeysAt(keys);
    ListSize(ks, KeyRecord);
    forall k | k in ks
      ensures ReadsBack(k, KeyRecord, TakeKey)
    {
      forall t: Bytes | KeyRecord(k) <= t
        ensures TakeKey(t) == Done(k, t[|KeyRecord(k)|..])
      {
        KeyBack(k, t);
      }
    }
    ListBack(ks, KeyRecord, TakeKey, s);
  }

  lemma UserListBack(users: map<Bytes, User>, s: Bytes)
    requires forall k :: k in users ==> ValidUser(k, users[k])
    requires |List(Values(users), UserRecord)| < SIZE_T_LIMIT && List(Values(users), UserRecord) <= s
    ensures TakeList(s, TakeUser) == Done(Values(users), s[|List(Values(users), UserRecord)|..])
  {
    var us := Values(users);
    UsersBack(users);
    ListSize(us, UserRecord);
    forall u | u in us
      ensures ReadsBack(u, UserRecord, TakeUser)
    {
      forall t: Bytes | UserRecord(u) <= t
        ensures TakeUser(t) == Done(u, t[|UserRecord(u)|..])
      {
        UserBack(u, t);
      }
    }
    ListBack(us, UserRecord, TakeUser, s);
  }

  lemma NodeSectionBack(cls: Class, d: NodeData, d0: NodeData, s: Bytes)
    requires WellFormed(cls, d) && d0.typ == d.typ && d0.entries == map[] && d0.entitlements == map[]
    requires NodeSection(d) <= s
    ensures TakeNodeSection(d0, s)
            == Done(d0.(path := d.path, entries := d.entries, entitlements := d.entitlements), s[|NodeSection(d)|..])
  {
    var entryList := if d.typ == FILENODE_TYPE then [] else List(Items(d.entries), EntryRecord);
    var rightsList := List(Items(d.entitlements), EntitlementRecord);
    Split(Text(d.path), entryList + rightsList, s);
    var s1 := s[|Text(d.path)|..];
    Split(entryList, rightsList, s1);
    TakeTextBack(d.path, s, true, 0);
    if d.typ != FILENODE_TYPE {
      EntriesBack(d, s1);
    }
    EntitlementsBack(d, s1[|entryList|..]);
    ItemsBack(d.entries);
    ItemsBack(d.entitlements);
  }

  lemma ClassSectionBack(cls: Class, d: NodeData, d0: NodeData, s: Bytes)
    requires WellFormed(cls, d) && d0.keys == map[] && d0.users == map[]
    requires ClassSection(cls, d) <= s
    ensures TakeClassSection(cls, d0, s) == Done(d0.(keys := d.keys, users := d.users), s[|ClassSection(cls, d)|..])
  {
    match cls
    case SupernodeClass =>
      UserListBack(d.users, s);
      UsersBack(d.users);
    case DirnodeClass =>
    case FilenodeClass =>
      BlockKeyListBack(d.keys, s);
      KeysBack(d.keys);
  }

  lemma PreambleBack(cls: Class, d: NodeData, d0: NodeData, s: Bytes)
    requires WellFormed(cls, d) && d0.fileSize == 0 && Preamble(cls, d) <= s
    ensures TakePreamble(cls, d0, s)
            == Done(d0.(typ := d.typ, uuid := d.uuid, atime := d.atime, mtime := d.mtime, ctime := d.ctime,
                        fileSize := d.fileSize), s[|Preamble(cls, d)|..])
  {
    Widths();
    var p5 := if cls == FilenodeClass then Size(d.fileSize) else [];
    var p4 := Size(d.ctime) + p5;
    var p3 := Size(d.mtime) + p4;
    var p2 := Size(d.atime) + p3;
    Split(LittleEndian(d.typ, 4), d.uuid + p2, s);
    var s1 := s[4..];
    Split(d.uuid, p2, s1);
    var s2 := s1[UUID_SIZE..];
    Split(Size(d.atime), p3, s2);
    var s3 := s2[8..];
    Split(Size(d.mtime), p4, s3);
    var s4 := s3[8..];
    Split(Size(d.ctime), p5, s4);
    TakeNumberBack(d.typ, 4, s);
    TakeBack(d.uuid, s1);
    TakeNumberBack(d.atime, 8, s2);
    TakeNumberBack(d.mtime, 8, s3);
    TakeNumberBack(d.ctime, 8, s4);
    if cls == FilenodeClass {
      TakeNumberBack(d.fileSize, 8, s4[8..]);
    }
  }

  lemma SensitiveBack(cls: Class, d: NodeData, d0: NodeData)
    requires WellFormed(cls, d) && d0.typ == d.typ
    requires d0.entries == map[] && d0.entitlements == map[] && d0.keys == map[] && d0.users == map[]
    ensures TakeSensitive(cls, d0, Sensitive(cls, d))
            == Done(d0.(path := d.path, entries := d.entries, entitlements := d.entitlements, keys := d.keys,
                        users := d.users), [])
  {
    var s := Sensitive(cls, d);
    Split(NodeSection(d), ClassSection(cls, d), s);
    NodeSectionBack(cls, d, d0, s);
    var d1 := d0.(path := d.path, entries := d.entries, entitlements := d.entitlements);
    ClassSectionBack(cls, d, d1, s[|NodeSection(d)|..]);
  }

  /**
   Round trip: from a buffer that starts with the blob of `d`, whatever follows it, and whatever tag the shared root key
   held, a fresh node of the same class loads exactly `d`, and the load consumes exactly the blob.
   */
  lemma NodeBack(suite: CipherSuite, root: GcmState, root': GcmState, ctx: GcmState, cls: Class, d: NodeData,
                 d0: NodeData, s: Bytes)
    requires WellFormed(cls, d) && Fresh(cls, d0) && ctx.Valid()
    requires root'.key == root.key && root'.iv == root.iv
    requires SealNode(suite, root, ctx, cls, d) <= s
    ensures var mac := SectionMac(suite, ctx, Preamble(cls, d), Sensitive(cls, d));
      OpenNode(suite, root', cls, d0, s) == Done((d, ctx.(mac := mac)), s[|SealNode(suite, root, ctx, cls, d)|..])
  {
    var pre, sens := Preamble(cls, d), Sensitive(cls, d);
    Split(pre, SealedTail(suite, root, ctx, pre, sens), s);
    PreambleBack(cls, d, d0, s);
    var d1 := d0.(typ := d.typ, uuid := d.uuid, atime := d.atime, mtime := d.mtime, ctime := d.ctime,
                  fileSize := d.fileSize);
    assert Preamble(cls, d1) == pre;
    OpenBack(suite, root, root', ctx, pre, sens, s[|pre|..]);
    SensitiveBack(cls, d, d1);
  }

  // ----- the size functions -----

  function PreambleSize(cls: Class): nat {
    4 + UUID_SIZE + 3 * 8 + (if cls == FilenodeClass then 8 else 0)
  }

  function EntriesSize(items: seq<(Bytes, Bytes)>): nat {
    if items == [] then 0
    else EntriesSize(items[..|items| - 1]) + UUID_SIZE + 8 + |items[|items| - 1].0| + 1
  }

  function UsersSize(users: seq<User>): nat {
    if users == [] then 0
    else UsersSize(users[..|users| - 1]) + UUID_SIZE + 8 + |users[|users| - 1].name| + 1 + PUBLIC_KEY_SIZE
  }

  function NodeSectionSize(d: NodeData): nat {
    8 + |d.path| + 1
    + (if d.typ == FILENODE_TYPE then 0 else 8 + EntriesSize(Items(d.entries)))
    + 8 + |d.entitlements| * (UUID_SIZE + 4)
  }

  function SensitiveSize(cls: Class, d: NodeData): nat {
    NodeSectionSize(d)
    + (match cls
       case SupernodeClass => 8 + UsersSize(Values(d.users))
       case DirnodeClass => 0
       case FilenodeClass => 8 + |d.keys| * CTR_CONTEXT_SIZE)
  }

  lemma {:induction false} EntriesSizeExact(items: seq<(Bytes, Bytes)>)
    requires forall e :: e in items ==> |e.1| == UUID_SIZE
    ensures |EncodeAll(items, EntryRecord)| == EntriesSize(items)
  {
    if items != [] {
      EntriesSizeExact(items[..|items| - 1]);
    }
  }

  lemma {:induction false} UsersSizeExact(users: seq<User>)
    requires forall u :: u in users ==> |u.uuid| == UUID_SIZE && |u.publicKey| == PUBLIC_KEY_SIZE
    ensures |EncodeAll(users, UserRecord)| == UsersSize(users)
  {
    if users != [] {
      UsersSizeExact(users[..|users| - 1]);
    }
  }

  lemma {:induction false} FixedSizeExact<T>(xs: seq<T>, enc: T -> Bytes, n: nat)
    requires forall x :: x in xs ==> |enc(x)| == n
    ensures |EncodeAll(xs, enc)| == |xs| * n
  {
    if xs != [] {
      FixedSizeExact(xs[..|xs| - 1], enc, n);
      assert (|xs| - 1) * n + n == |xs| * n;
    }
  }

  lemma NodeSectionSizeExact(d: NodeData)
    requires forall k :: k in d.entries ==> |d.entries[k]| == UUID_SIZE
    ensures |NodeSection(d)| == NodeSectionSize(d)
  {
    ItemsBack(d.entries);
    ItemsBack(d.entitlements);
    EntriesSizeExact(Items(d.entries));
    FixedSizeExact(Items(d.entitlements), EntitlementRecord, UUID_SIZE + 4);
  }

  lemma SensitiveSizeExact(cls: Class, d: NodeData)
    requires WellFormed(cls, d)
    ensures |Sensitive(cls, d)| == SensitiveSize(cls, d)
  {
    hide NodeSection, NodeSectionSize, Values, BlockKeys;
    NodeSectionSizeExact(d);
    match cls
    case SupernodeClass =>
      UsersBack(d.users);
      UsersSizeExact(Values(d.users));
    case DirnodeClass =>
    case FilenodeClass =>
      BlockKeysAt(d.keys);
      FixedSizeExact(BlockKeys(d.keys), KeyRecord, CTR_CONTEXT_SIZE);
  }

  /** `e_size` */
  function NodeSize(cls: Class, d: NodeData): nat {
    MAC_SIZE + PreambleSize(cls) + (8 + GCM_CONTEXT_SIZE) + (8 + SensitiveSize(cls, d))
  }

  /** Every size function is the number of bytes written. */
  lemma SizesExact(suite: CipherSuite, root: GcmState, ctx: GcmState, cls: Class, d: NodeData)
    requires WellFormed(cls, d) && ctx.Valid()
    ensures |Preamble(cls, d)| == PreambleSize(cls)
    ensures |Sensitive(cls, d)| == SensitiveSize(cls, d)
    ensures |SealNode(suite, root, ctx, cls, d)| == NodeSize(cls, d) == SealedSize(Preamble(cls, d), Sensitive(cls, d))
  {
    hide Sensitive, SensitiveSize, LittleEndian, GcmXor, WellFormed;
    UuidFits(cls, d);
    SensitiveSizeExact(cls, d);
    TailSize(suite, root, ctx, Preamble(cls, d), Sensitive(cls, d));
  }

  lemma SectionFits(cls: Class, d: NodeData)
    requires WellFormed(cls, d)
    ensures |Sensitive(cls, d)| < SECTION_LIMIT
  {
  }

  /** So the `int` that `e_dump` and `e_write_meta_to_disk` return holds the size. */
  lemma SizeFitsInt(cls: Class, d: NodeData)
    requires WellFormed(cls, d)
    ensures NodeSize(cls, d) < 0x8000_0000
  {
    hide SensitiveSize, Sensitive, WellFormed;
    SensitiveSizeExact(cls, d);
    SectionFits(cls, d);
  }
}
