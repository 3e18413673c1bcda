/** The bytes of the records inside a sensitive section, by position. */
module Layouts {
  import opened ByteStrings
  import opened Orders
  import opened Crypto
  import opened Codec
  import opened NodeRecords
  import opened NodeRoundTrip

  lemma {:induction false} SmallNumber(n: nat, width: nat)
    requires n < 256 && width > 0
    ensures LittleEndian(n, width) == [n as Byte] + Zeros(width - 1)
  {
    if width > 1 {
      SmallNumber(0, width - 1);
      assert n / 256 == 0 && [0] + Zeros(width - 2) == Zeros(width - 1);
    }
  }

  function RightsBits(r: Rights): Byte {
    (if r.owner then 1 else 0) | (if r.read then 2 else 0) | (if r.write then 4 else 0) | (if r.exec then 8 else 0)
  }

  lemma CodeBits(r: Rights)
    ensures RightsCode(r) as Byte == RightsBits(r)
  {
  }

  /** Owner, read, write and execute are bits 0 to 3 of the first byte after the UUID and its NUL. */
  lemma RightsBytes(uuid: Bytes, r: Rights)
    requires |uuid| == UUID_SIZE - 1
    ensures EntitlementRecord((uuid, r)) == uuid + [0, RightsBits(r), 0, 0, 0]
  {
    SmallNumber(RightsCode(r), 4);
    CodeBits(r);
    hide RightsCode, RightsBits, LittleEndian;
    assert (uuid + Zeros(UUID_SIZE))[..UUID_SIZE] == uuid + [0];
  }

  /** A name has its length, with its NUL, before it and the UUID behind it. */
  lemma EntryBytes(name: Bytes, uuid: Bytes)
    requires |name| < 255
    ensures EntryRecord((name, uuid)) == [(|name| + 1) as Byte, 0, 0, 0, 0, 0, 0, 0] + name + [0] + uuid
  {
    SmallNumber(|name| + 1, 8);
  }

  /** A block key is followed by its counter. */
  lemma KeyBytes(k: CtrContext)
    requires k.Valid()
    ensures |KeyRecord(k)| == 32 && KeyRecord(k)[..16] == k.key && KeyRecord(k)[16..] == k.ctr
  {
  }

  /** A user: the UUID, the length of the name with its NUL, the name, and the public key. */
  lemma UserBytes(u: User)
    requires ValidUuid(u.uuid) && |u.publicKey| == PUBLIC_KEY_SIZE && |u.name| < 255
    ensures var r, n := UserRecord(u), |u.name|;
      && |r| == 94 + n && r[..21] == u.uuid && r[21..29] == [(n + 1) as Byte, 0, 0, 0, 0, 0, 0, 0]
      && r[29..29 + n] == u.name && r[29 + n] == 0 && r[30 + n..] == u.publicKey
  {
    SmallNumber(|u.name| + 1, 8);
    hide LittleEndian, ValidUuid;
    var n := |u.name|;
    assert UserRecord(u) == u.uuid + Size(n + 1) + u.name + [0] + u.publicKey;
  }

  lemma TextHead(t: Bytes, rest: Bytes)
    requires |t| < 255
    ensures var s, n := Text(t) + rest, |t|;
      && |s| >= 9 + n && s[..8] == [(n + 1) as Byte, 0, 0, 0, 0, 0, 0, 0] && s[8..8 + n] == t && s[8 + n] == 0
      && s[9 + n..] == rest
  {
    SmallNumber(|t| + 1, 8);
    hide LittleEndian;
    assert Text(t) + rest == Size(|t| + 1) + t + [0] + rest;
  }

  /** After the name: the entries unless the node is a file, the entitlements, and what the class adds, all counted. */
  function AfterName(cls: Class, d: NodeData): Bytes {
    (if d.typ == FILENODE_TYPE then [] else Size(|d.entries|) + EncodeAll(Items(d.entries), EntryRecord))
    + (Size(|d.entitlements|) + EncodeAll(Items(d.entitlements), EntitlementRecord))
    + match cls
      case SupernodeClass => Size(|d.users|) + EncodeAll(Values(d.users), UserRecord)
      case DirnodeClass => []
      case FilenodeClass => Size(|d.keys|) + EncodeAll(BlockKeys(d.keys), KeyRecord)
  }

  lemma CountedAll(d: NodeData)
    ensures |Items(d.entries)| == |d.entries| && |Items(d.entitlements)| == |d.entitlements|
    ensures |Values(d.users)| == |d.users| && |BlockKeys(d.keys)| == |d.keys|
  {
    ItemsBack(d.entries);
    ItemsBack(d.entitlements);
    ItemsBack(d.users);
    AscendingListsAll(d.keys.Keys, (i: nat, j: nat) => i <= j);
  }

  lemma SectionParts(cls: Class, d: NodeData)
    ensures Sensitive(cls, d) == Text(d.path) + AfterName(cls, d)
  {
    CountedAll(d);
    hide Text, EncodeAll, Items, Values, BlockKeys, Size;
    var entries := if d.typ == FILENODE_TYPE then [] else List(Items(d.entries), EntryRecord);
    var rights := List(Items(d.entitlements), EntitlementRecord);
    assert Sensitive(cls, d) == Text(d.path) + (entries + rights) + ClassSection(cls, d);
    assert entries + rights + ClassSection(cls, d) == AfterName(cls, d);
  }

  /** A section begins with the name of the node, its length with the NUL before it. */
  lemma SectionFrame(cls: Class, d: NodeData)
    requires |d.path| < 255
    ensures var s, n := Sensitive(cls, d), |d.path|;
      && |s| >= 9 + n && s[..8] == [(n + 1) as Byte, 0, 0, 0, 0, 0, 0, 0] && s[8..8 + n] == d.path && s[8 + n] == 0
      && s[9 + n..] == AfterName(cls, d)
  {
    hide Sensitive, AfterName, Text;
    SectionParts(cls, d);
    TextHead(d.path, AfterName(cls, d));
  }
}
