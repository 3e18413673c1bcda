/** The records inside a node's metadata, and reading them back. */
module NodeRecords {
  import opened ByteStrings
  import opened Orders
  import opened Crypto
  import opened Codec
  import opened SealedMetadata

  const UUID_SIZE := 21
  const PUBLIC_KEY_SIZE := 64
  const FILENODE_TYPE := 2

  /** The fixed UUIDs of the root user and of the supernode, and of the auditor: digits, dashes and a NUL. */
  const ROOT_UUID: Bytes := [48, 48, 48, 48, 45, 48, 48, 45, 48, 48, 45, 48, 48, 45, 48, 48, 48, 48, 48, 48, 0]
  const AUDITOR_UUID: Bytes := [49, 49, 49, 49, 45, 49, 49, 45, 49, 49, 45, 49, 49, 45, 49, 49, 49, 49, 49, 49, 0]

  /** The C++ class of a node: which overrides of the section dumps and loads apply. */
  datatype Class = SupernodeClass | DirnodeClass | FilenodeClass {
    function Code(): nat {
      match this
      case SupernodeClass => 0
      case DirnodeClass => 1
      case FilenodeClass => FILENODE_TYPE
    }
  }

  datatype Rights = Rights(owner: bool, read: bool, write: bool, exec: bool)

  datatype User = User(uuid: Bytes, name: Bytes, publicKey: Bytes)

  /** Everything a node stores, whatever its class. */
  datatype NodeData = NodeData(
    typ: nat, uuid: Bytes, atime: nat, mtime: nat, ctime: nat,
    path: Bytes, entries: map<Bytes, Bytes>, entitlements: map<Bytes, Rights>,
    fileSize: nat, keys: map<nat, CtrContext>, users: map<Bytes, User>)

  /** `string(uuid.v)`: the bytes before the first NUL. */
  function CString(v: Bytes): Bytes {
    if v == [] || v[0] == 0 then [] else [v[0]] + CString(v[1..])
  }

  predicate ValidUuid(u: Bytes) {
    |u| == UUID_SIZE && u[UUID_SIZE - 1] == 0 && forall i :: 0 <= i < UUID_SIZE - 1 ==> u[i] != 0
  }

  lemma {:induction false} CStringBack(t: Bytes, rest: Bytes)
    requires forall i :: 0 <= i < |t| ==> t[i] != 0
    ensures CString(t + ([0] + rest)) == t
  {
    if t != [] {
      assert (t + ([0] + rest))[1..] == t[1..] + ([0] + rest);
      CStringBack(t[1..], rest);
    }
  }

  // ----- single records -----

  function EntryRecord(e: (Bytes, Bytes)): Bytes {
    Text(e.0) + e.1
  }

  function TakeEntry(s: Bytes): Parsed<(Bytes, Bytes)> {
    var (name, rest) :- TakeText(s, false, 0);
    var (uuid, rest') :- Take(rest, UUID_SIZE);
    Done((name, uuid), rest')
  }

  function RightsCode(r: Rights): (n: nat)
    ensures n < 16
  {
    (if r.owner then 1 else 0) + (if r.read then 2 else 0) + (if r.write then 4 else 0) + (if r.exec then 8 else 0)
  }

  function DecodeRights(n: nat): Rights {
    Rights(n % 2 == 1, n / 2 % 2 == 1, n / 4 % 2 == 1, n / 8 % 2 == 1)
  }

  /** The 21 bytes copied from the key of an entitlement, the textual UUID of its user. */
  function UuidOf(key: Bytes): (u: Bytes)
    ensures |u| == UUID_SIZE
  {
    (key + Zeros(UUID_SIZE))[..UUID_SIZE]
  }

  function EntitlementRecord(e: (Bytes, Rights)): Bytes {
    UuidOf(e.0) + LittleEndian(RightsCode(e.1), 4)
  }

  function TakeEntitlement(s: Bytes): Parsed<(Bytes, Rights)> {
    var (uuid, rest) :- Take(s, UUID_SIZE);
    var (code, rest') :- TakeNumber(rest, 4);
    if 0 !in uuid then Fault else Done((CString(uuid), DecodeRights(code)), rest')
  }

  function KeyRecord(k: CtrContext): Bytes {
    k.key + k.ctr
  }

  function TakeKey(s: Bytes): Parsed<CtrContext> {
    var (key, rest) :- Take(s, KEY_SIZE);
    var (ctr, rest') :- Take(rest, CTR_SIZE);
    Done(CtrContext(key, ctr), rest')
  }

  function UserRecord(u: User): Bytes {
    u.uuid + (Text(u.name) + u.publicKey)
  }

  function TakeUser(s: Bytes): Parsed<User> {
    if |s| < UUID_SIZE + 8 then Rejected else
    var (uuid, rest) :- Take(s, UUID_SIZE);
    var (name, rest') :- TakeText(rest, true, PUBLIC_KEY_SIZE);
    var (publicKey, rest'') :- Take(rest', PUBLIC_KEY_SIZE);
    if 0 !in uuid then Fault else Done(User(uuid, name, publicKey), rest'')
  }

  // ----- sections -----

  function Preamble(cls: Class, d: NodeData): Bytes {
    LittleEndian(d.typ, 4) + (d.uuid + (Size(d.atime) + (Size(d.mtime) + (Size(d.ctime)
    + (if cls == FilenodeClass then Size(d.fileSize) else [])))))
  }

  function TakePreamble(cls: Class, d: NodeData, s: Bytes): Parsed<NodeData> {
    var (typ, s1) :- TakeNumber(s, 4);
    var (uuid, s2) :- Take(s1, UUID_SIZE);
    var (atime, s3) :- TakeNumber(s2, 8);
    var (mtime, s4) :- TakeNumber(s3, 8);
    var (ctime, s5) :- TakeNumber(s4, 8);
    var (fileSize, s6) :- if cls == FilenodeClass then TakeNumber(s5, 8) else Done(d.fileSize, s5);
    Done(d.(typ := typ, uuid := uuid, atime := atime, mtime := mtime, ctime := ctime, fileSize := fileSize), s6)
  }

  function Items<V>(m: map<Bytes, V>): seq<(Bytes, V)> {
    KeyListAll(m);
    var ks := KeyList(m);
    seq(|ks|, i requires 0 <= i < |ks| => (ks[i], m[ks[i]]))
  }

  function Values<V>(m: map<Bytes, V>): seq<V> {
    seq(|Items(m)|, i requires 0 <= i < |Items(m)| => Items(m)[i].1)
  }

  /** The keys of the blocks, in block order; the indices are not stored. */
  function BlockKeys(m: map<nat, CtrContext>): seq<CtrContext> {
    AscendingListsAll(m.Keys, (i: nat, j: nat) => i <= j);
    var ks := IndexList(m);
    seq(|ks|, i requires 0 <= i < |ks| => m[ks[i]])
  }

  function List<T>(xs: seq<T>, enc: T -> Bytes): Bytes {
    Size(|xs|) + EncodeAll(xs, enc)
  }

  function TakeList<T>(s: Bytes, dec: Bytes -> Parsed<T>): Parsed<seq<T>> {
    var (n, rest) :- TakeNumber(s, 8);
    DecodeAll(rest, n, dec)
  }

  function InsertAll<K, V>(m: map<K, V>, items: seq<(K, V)>): map<K, V> {
    if items == [] then m else
    var last := items[|items| - 1];
    Insert(InsertAll(m, items[..|items| - 1]), last.0, last.1)
  }

  function Indexed(keys: seq<CtrContext>): seq<(nat, CtrContext)> {
    seq(|keys|, i requires 0 <= i < |keys| => (i, keys[i]))
  }

  function ByUuid(users: seq<User>): seq<(Bytes, User)> {
    seq(|users|, i requires 0 <= i < |users| => (CString(users[i].uuid), users[i]))
  }

  /** `Node::p_dump_sensitive`: a file node does not store entries. */
  function NodeSection(d: NodeData): Bytes {
    Text(d.path) + ((if d.typ == FILENODE_TYPE then [] else List(Items(d.entries), EntryRecord))
                    + List(Items(d.entitlements), EntitlementRecord))
  }

  function TakeNodeSection(d: NodeData, s: Bytes): Parsed<NodeData> {
    if |s| < 8 then Rejected else
    var (path, s1) :- TakeText(s, true, 0);
    var (entries, s2) :- if d.typ == FILENODE_TYPE then Done([], s1) else TakeList(s1, TakeEntry);
    var (entitlements, s3) :- TakeList(s2, TakeEntitlement);
    Done(d.(path := path, entries := InsertAll(d.entries, entries),
            entitlements := InsertAll(d.entitlements, entitlements)), s3)
  }

  /** What the class of the node adds. */
  function ClassSection(cls: Class, d: NodeData): Bytes {
    match cls
    case SupernodeClass => List(Values(d.users), UserRecord)
    case DirnodeClass => []
    case FilenodeClass => List(BlockKeys(d.keys), KeyRecord)
  }

  function TakeClassSection(cls: Class, d: NodeData, s: Bytes): Parsed<NodeData> {
    match cls
    case SupernodeClass =>
      var (users, rest) :- TakeList(s, TakeUser);
      Done(d.(users := InsertAll(d.users, ByUuid(users))), rest)
    case DirnodeClass => Done(d, s)
    case FilenodeClass =>
      var (keys, rest) :- TakeList(s, TakeKey);
      Done(d.(keys := InsertAll(d.keys, Indexed(keys))), rest)
  }

  function Sensitive(cls: Class, d: NodeData): Bytes {
    NodeSection(d) + ClassSection(cls, d)
  }

  /** A supernode does not notice that the node part was refused: its signed test is on an unsigned number. */
  function TakeSensitive(cls: Class, d: NodeData, s: Bytes): Parsed<NodeData> {
    match TakeNodeSection(d, s)
    case Done(d', rest) => TakeClassSection(cls, d', rest)
    case Rejected => if cls == SupernodeClass then Fault else Rejected
    case Fault => Fault
  }

  // ----- whole nodes -----

  function SealNode(suite: CipherSuite, root: GcmState, ctx: GcmState, cls: Class, d: NodeData): Bytes {
    Seal(suite, root, ctx, Preamble(cls, d), Sensitive(cls, d))
  }

  /** `e_load` into a node object whose state is `d`. */
  function OpenNode(suite: CipherSuite, root: GcmState, cls: Class, d: NodeData, s: Bytes): Parsed<(NodeData,
                    GcmState)> {
    var (d1, s1) :- TakePreamble(cls, d, s);
    var (ctx, s2) :- OpenCrypto(suite, root, s1);
    var (plain, s3) :- OpenSection(suite, ctx, Preamble(cls, d1), s2);
    var (d2, left) :- TakeSensitive(cls, d1, plain);
    if left != [] then Rejected else Done((d2, ctx), s3)
  }
}
