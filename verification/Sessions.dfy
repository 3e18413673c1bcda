/** The calls of the enclave: login, user management and remounting, beside the operations by path. */
module Sessions {
  import opened ByteStrings
  import opened Errno
  import opened Options
  import opened Orders
  import opened NodeRecords
  import opened NodeRoundTrip
  import opened Disks
  import opened MetadataFiles
  import opened SealedMetadata
  import opened FileStores
  import opened Trees
  import opened TreeFiles
  import opened NodeCaches
  import opened FileSystemStates
  import opened FileSystems
  import opened FileSystemRuns
  import opened Users

  /** The blob of the supernode loads with these users and these entries. */
  ghost predicate RootHolds(h: Host, users: map<Bytes, User>, entries: map<Bytes, Bytes>) {
    exists d :: LoadsAs(h.suite, h.root, SupernodeClass, FileOf(h.files, MetaDir, ROOT_UUID), d)
                && d.users == users && d.entries == entries
  }

  /** User management and the operations on the root directory write one blob: it holds what both left. */
  lemma RootBlob(h: Host, t: Tree, logs: Logs, supernode: NodeData)
    requires OnHost(h, t, logs, supernode)
    ensures ROOT_UUID in t && RootHolds(h, supernode.users, t[ROOT_UUID].entries)
  {
    hide IsTree, Shown, LoadsAs, WellFormed, BodyShown, FileOf;
    RootIn(t);
  }

  lemma NobodyYet()
    ensures Consistent(Database.Database(map[], None))
  {
  }

  /** Whoever is registered has a well-formed UUID. */
  lemma RegisteredIsValid(db: Database, k: Bytes)
    requires Consistent(db) && k in db.users
    ensures ValidUuid(db.users[k].uuid)
  {
    assert ValidUser(k, db.users[k]);
  }

  /** The calls on users and sessions, and those that forward an operation by path. */
  datatype Call = Manage(event: Event) | Access(op: Op)

  /** The users and who is logged in, and the tree with its bytes and logs. */
  datatype World = World(db: Database, files: State)

  /** Who asks for an operation by path. */
  function SettingIn(db: Database, bs: nat): Setting
    requires db.current.Some?
  {
    Setting(db.current.value.uuid, db.users, bs)
  }

  /** Nobody is served without having logged in. */
  function Respond(s: Signatures, bs: nat, w: World, c: Call): (World, Reply)
    requires bs > 0
  {
    match c
    case Manage(e) => var (db, code) := Next(s, w.db, e); (World(db, w.files), Code(code))
    case Access(op) =>
      if w.db.current.None? then (w, Code(-EACCES)) else
      var (files, reply) := Apply(SettingIn(w.db, bs), w.files, op);
      (World(w.db, files), reply)
  }

  /** Remounting loads no node; other calls on users leave what is loaded. */
  function Loaded(bs: nat, w: World, cached: set<Bytes>, c: Call): set<Bytes>
    requires bs > 0
  {
    match c
    case Manage(e) => if e.Remount? then {} else cached
    case Access(op) =>
      if w.db.current.None? then cached else Cached(SettingIn(w.db, bs), w.files.tree, cached, op)
  }

  /** A drawn UUID is fresh, the users fit the supernode's blob, and an operation of a user is legal. */
  ghost predicate LegalCall(s: Signatures, bs: nat, w: World, cached: set<Bytes>, c: Call)
    requires bs > 0
  {
    match c
    case Manage(e) => Drawn(w.db, e) && TreeFiles.AllFit(Next(s, w.db, e).0.users, bs, w.files.tree)
    case Access(op) => w.db.current.Some? ==> Legal(SettingIn(w.db, bs), w.files.tree, cached, op)
  }

  ghost predicate LegalCalls(s: Signatures, bs: nat, w: World, cached: set<Bytes>, cs: seq<Call>)
    requires bs > 0
    decreases |cs|
  {
    cs == [] || (LegalCall(s, bs, w, cached, cs[0])
                 && LegalCalls(s, bs, Respond(s, bs, w, cs[0]).0, Loaded(bs, w, cached, cs[0]), cs[1..]))
  }

  function RespondAll(s: Signatures, bs: nat, w: World, cs: seq<Call>): (World, seq<Reply>)
    requires bs > 0
    decreases |cs|
  {
    if cs == [] then (w, []) else
    var (w1, reply) := Respond(s, bs, w, cs[0]);
    var (w2, replies) := RespondAll(s, bs, w1, cs[1..]);
    (w2, [reply] + replies)
  }

  // ----- what runs keep -----

  /** The calls on users and sessions among all calls. */
  function Events(cs: seq<Call>): seq<Event> {
    if cs == [] then [] else (if cs[0].Manage? then [cs[0].event] else []) + Events(cs[1..])
  }

  /** Operations by path leave users and sessions alone: these go through the states that their own calls make. */
  lemma {:induction false} UsersApart(s: Signatures, bs: nat, w: World, cs: seq<Call>)
    requires bs > 0
    ensures RespondAll(s, bs, w, cs).0.db == After(s, w.db, Events(cs))
    decreases |cs|
  {
    hide Next, Apply;
    if cs != [] {
      UsersApart(s, bs, Respond(s, bs, w, cs[0]).0, cs[1..]);
      if cs[0].Manage? {
        assert Events(cs)[0] == cs[0].event && Events(cs)[1..] == Events(cs[1..]);
      } else {
        assert Events(cs) == Events(cs[1..]);
      }
    }
  }

  lemma CallsDrawn(s: Signatures, bs: nat, w: World, cached: set<Bytes>, cs: seq<Call>)
    requires bs > 0 && LegalCalls(s, bs, w, cached, cs)
    ensures DrawnRun(s, w.db, Events(cs))
    decreases |cs|
  {
    hide Next, Apply, Drawn, Legal, TreeFiles.AllFit, Cached;
    if cs != [] {
      CallsDrawn(s, bs, Respond(s, bs, w, cs[0]).0, Loaded(bs, w, cached, cs[0]), cs[1..]);
      if cs[0].Manage? {
        assert Events(cs)[0] == cs[0].event && Events(cs)[1..] == Events(cs[1..]);
      } else {
        assert Events(cs) == Events(cs[1..]);
      }
    }
  }

  /** Over every run of calls, whoever is logged in at the end was already, or has proved his key since remounting. */
  lemma WhoIsIn(s: Signatures, bs: nat, w: World, cached: set<Bytes>, cs: seq<Call>)
    requires bs > 0 && Consistent(w.db) && LegalCalls(s, bs, w, cached, cs)
    ensures var current := RespondAll(s, bs, w, cs).0.db.current;
      current.Some? ==>
        || (w.db.current == current && forall e :: e in Events(cs) ==> !e.Remount?)
        || exists i: nat :: LetIn(s, Events(cs), i, current.value)
  {
    hide LegalCalls, RespondAll, Consistent, Events, LetIn;
    UsersApart(s, bs, w, cs);
    CallsDrawn(s, bs, w, cached, cs);
    if RespondAll(s, bs, w, cs).0.db.current.Some? {
      LoggedInProved(s, w.db, Events(cs));
    }
  }

  /** While nobody proves the key of root, no user is lost and root is not let in, whatever is called. */
  lemma RootKeyGuardsCalls(s: Signatures, bs: nat, w: World, cached: set<Bytes>, cs: seq<Call>)
    requires bs > 0 && Consistent(w.db) && LegalCalls(s, bs, w, cached, cs) && w.db.users != map[]
    requires w.db.current.Some? ==> w.db.current.value.uuid != ROOT_UUID
    requires forall e :: e in Events(cs) ==> !Proves(s, e, w.db.users[ROOT_NAME])
    ensures var db := RespondAll(s, bs, w, cs).0.db;
      && (db.current.Some? ==> db.current.value.uuid != ROOT_UUID)
      && forall k :: k in w.db.users ==> k in db.users && db.users[k] == w.db.users[k]
  {
    hide LegalCalls, RespondAll, Events, Proves, CString, ValidUser;
    UsersApart(s, bs, w, cs);
    CallsDrawn(s, bs, w, cached, cs);
    RootKeyGuards(s, w.db, Events(cs));
  }

  lemma CallKeeps(s: Signatures, bs: nat, w: World, cached: set<Bytes>, c: Call)
    requires bs > 0 && Consistent(w.db) && IsTree(w.files.tree) && LegalCall(s, bs, w, cached, c)
    ensures var w' := Respond(s, bs, w, c).0; Consistent(w'.db) && IsTree(w'.files.tree)
  {
    hide Consistent, IsTree, Next, ApplyTree, ApplyLogs, Drawn, Legal;
    match c
    case Manage(e) => NextKeepsConsistent(s, w.db, e);
    case Access(op) =>
      if w.db.current.Some? {
        StepKeepsTree(SettingIn(w.db, bs), w.files.tree, cached, op);
      }
  }

  /** Every run keeps the users consistent and the namespace a tree. */
  lemma {:induction false} CallsKeep(s: Signatures, bs: nat, w: World, cached: set<Bytes>, cs: seq<Call>)
    requires bs > 0 && Consistent(w.db) && IsTree(w.files.tree) && LegalCalls(s, bs, w, cached, cs)
    ensures var w' := RespondAll(s, bs, w, cs).0; Consistent(w'.db) && IsTree(w'.files.tree)
    decreases |cs|
  {
    hide Consistent, IsTree, Respond, Loaded, LegalCall;
    if cs != [] {
      CallKeeps(s, bs, w, cached, cs[0]);
      CallsKeep(s, bs, Respond(s, bs, w, cs[0]).0, Loaded(bs, w, cached, cs[0]), cs[1..]);
    }
  }

  /** Nobody is served before a login: every operation by path is refused, and nothing changes. */
  lemma {:induction false} LoggedOutRefused(s: Signatures, bs: nat, w: World, cs: seq<Call>)
    requires bs > 0 && w.db.current.None? && forall c :: c in cs ==> c.Access?
    ensures RespondAll(s, bs, w, cs).0 == w
    ensures |RespondAll(s, bs, w, cs).1| == |cs|
    ensures forall i :: 0 <= i < |cs| ==> RespondAll(s, bs, w, cs).1[i] == Code(-13)
    decreases |cs|
  {
    hide Next, Apply;
    if cs != [] {
      assert cs[0] in cs;
      LoggedOutRefused(s, bs, w, cs[1..]);
    }
  }

  // ----- the enclave -----

  lemma RemountSucceeds(s: Signatures, db: Database)
    ensures Next(s, db, Users.Remount).1 == 0
  {
  }

  class Session {
    const fs: FileSystem
    const signatures: Signatures
    /** Whether there is a current user; the store says who. */
    var loggedIn: bool

    function Current(): Option<User>
      reads this, fs.store
    {
      if loggedIn then Some(fs.store.currentUser) else None
    }

    function Db(): Database
      reads this, fs, fs.store
    {
      Database.Database(fs.supernode.users, Current())
    }

    ghost function Now(): World
      reads this, fs, fs.store
    {
      World(Db(), StateOf(fs))
    }

    /** The filesystem and its cache are those of the host, and the users are consistent. */
    ghost predicate Valid()
      reads this, fs, fs.store, fs.store.disk, fs.store.rootKey, fs.store.auditRootKey
    {
      fs.Valid() && Consistent(Db())
    }

    /** `sgx_new_filesystem`: the empty supernode is written before any user exists. */
    constructor (store: FileStore, signatures: Signatures)
      requires store.Valid() && ValidUuid(store.currentUser.uuid) && store.disk.files == map[]
      requires TreeFiles.SectionSize(map[], store.blockSize, EMPTY_ROOT) < SECTION_LIMIT
      modifies store.disk, store.rootKey
      ensures Valid() && fresh(fs) && fs.store == store && this.signatures == signatures && fs.loaded == map[]
      ensures Now() == World(Database.Database(map[], None), State(NEW_TREE, map[ROOT_UUID := []]))
    {
      hide FileSystem.Valid, TreeFiles.SectionSize, Consistent;
      var files := new FileSystem(store, map[]);
      fs, this.signatures, loggedIn := files, signatures, false;
      new;
      NobodyYet();
    }

    /** `sgx_login` */
    method Login(secretKey: Bytes, uuid: Bytes) returns (r: int)
      requires Valid()
      modifies this`loggedIn, fs.store`currentUser
      ensures Valid() && (Db(), r) == Next(signatures, old(Db()), Users.Login(secretKey, uuid))
    {
      hide OnHost, InMemory, FileSystem.OnStore, CString, ValidUser, ValidUuid, Consistent;
      NextKeepsConsistent(signatures, Db(), Users.Login(secretKey, uuid));
      if CString(uuid) !in fs.supernode.users {
        return -EACCES;
      }
      RegisteredIsValid(Db(), CString(uuid));
      var user := fs.supernode.users[CString(uuid)];
      if !signatures.signs(secretKey) {
        return -1;
      }
      if !signatures.validates(secretKey, user.publicKey) {
        return -EACCES;
      }
      fs.store.currentUser, loggedIn := user, true;
      r := 0;
    }

    /** `Supernode::check_user`: whether an equal user is registered. */
    method CheckUser(user: User) returns (found: bool)
      ensures found <==> user in fs.supernode.users.Values
    {
      KeyListAll(fs.supernode.users);
      var ks, i := KeyList(fs.supernode.users), 0;
      while i < |ks|
        invariant 0 <= i <= |ks|
        invariant forall j :: 0 <= j < i ==> fs.supernode.users[ks[j]] != user
      {
        if fs.supernode.users[ks[i]] == user {
          return true;
        }
        i := i + 1;
      }
      found := false;
      forall k | k in fs.supernode.users
        ensures fs.supernode.users[k] != user
      {
        assert k in ks;
      }
    }

    /** `Supernode::add_user`: what the users become. */
    method Register(name: Bytes, publicKey: Bytes, drawn: Bytes) returns (users: Option<map<Bytes, User>>)
      ensures users == AddUserIn(fs.supernode.users, Users.Add(name, publicKey, drawn))
    {
      var user := User(drawn, name, publicKey);
      var found := CheckUser(user);
      if found {
        return None;
      }
      if |fs.supernode.users| == 0 {
        user := user.(uuid := ROOT_UUID);
      }
      if |fs.supernode.users| == 1 {
        user := user.(uuid := AUDITOR_UUID);
      }
      users := Some(Insert(fs.supernode.users, CString(user.uuid), user));
    }

    /** `sgx_add_user`, under a drawn UUID that is nobody's yet; the users must fit the supernode's blob. */
    method AddUser(name: Bytes, publicKey: Bytes, drawn: Bytes) returns (r: int)
      requires Valid() && LegalCall(signatures, fs.store.blockSize, Now(), {}, Manage(Add(name, publicKey, drawn)))
      modifies fs`supernode, fs.store.disk, fs.store.rootKey
      ensures Valid() && (Db(), r) == Next(signatures, old(Db()), Users.Add(name, publicKey, drawn))
    {
      hide FileSystem.Valid, TreeFiles.AllFit, CString, ValidUuid, ValidUser, Registered, AddUserIn;
      NextKeepsConsistent(signatures, Db(), Users.Add(name, publicKey, drawn));
      if loggedIn && fs.store.currentUser.uuid != ROOT_UUID {
        return -EACCES;
      }
      var added := Register(name, publicKey, drawn);
      if added.None? {
        return -EEXIST;
      }
      fs.SaveUsers(added.value);
      r := 0;
    }

    /** `sgx_remove_user` */
    method RemoveUser(uuid: Bytes) returns (r: int)
      requires Valid() && LegalCall(signatures, fs.store.blockSize, Now(), {}, Manage(Remove(uuid)))
      modifies fs`supernode, fs.store.disk, fs.store.rootKey
      ensures Valid() && (Db(), r) == Next(signatures, old(Db()), Users.Remove(uuid))
    {
      hide FileSystem.Valid, TreeFiles.AllFit, CString, ValidUser;
      NextKeepsConsistent(signatures, Db(), Users.Remove(uuid));
      if !loggedIn || fs.store.currentUser.uuid != ROOT_UUID {
        return -EACCES;
      }
      var removed := RemoveUserIn(fs.supernode.users, uuid);
      if removed.None? {
        return -EEXIST;
      }
      fs.SaveUsers(removed.value);
      r := 0;
    }

    /**
     `sgx_destroy_filesystem` and `sgx_load_filesystem`: the supernode comes back from the host, nothing is loaded, and
     nobody is logged in.
     */
    method RemountFilesystem()
      requires Valid()
      modifies this`loggedIn, fs`supernode, fs`loaded, fs`cache, fs.store.rootKey
      ensures Valid() && fs.loaded == map[] && Db() == Next(signatures, old(Db()), Users.Remount).0
    {
      hide OnHost, InMemory, Consistent;
      NextKeepsConsistent(signatures, Db(), Users.Remount);
      fs.Remount();
      loggedIn := false;
    }

    /** A call that forwards an operation by path. */
    method Forward(op: Op) returns (reply: Reply)
      requires Valid() && LegalCall(signatures, fs.store.blockSize, Now(), fs.loaded.Keys, Access(op))
      modifies fs, fs.store.disk, fs.store.rootKey, fs.store.auditRootKey
      ensures Valid() && (Now(), reply) == Respond(signatures, fs.store.blockSize, old(Now()), Access(op))
      ensures fs.loaded.Keys == Loaded(fs.store.blockSize, old(Now()), old(fs.loaded.Keys), Access(op))
    {
      hide FileSystem.Valid, Consistent, Apply, Cached, Legal;
      if !loggedIn {
        return Code(-EACCES);
      }
      reply := FileSystemRuns.Step(fs, op);
    }

    method ManageUsers(e: Event) returns (reply: Reply)
      requires Valid() && LegalCall(signatures, fs.store.blockSize, Now(), fs.loaded.Keys, Manage(e))
      modifies this`loggedIn, fs, fs.store`currentUser, fs.store.disk, fs.store.rootKey
      ensures Valid() && (Now(), reply) == Respond(signatures, fs.store.blockSize, old(Now()), Manage(e))
      ensures fs.loaded.Keys == Loaded(fs.store.blockSize, old(Now()), old(fs.loaded.Keys), Manage(e))
    {
      hide Valid, Next, Drawn, TreeFiles.AllFit;
      var code;
      match e {
        case Add(name, publicKey, drawn) => code := AddUser(name, publicKey, drawn);
        case Remove(uuid) => code := RemoveUser(uuid);
        case Login(secretKey, uuid) => code := Login(secretKey, uuid);
        case Remount =>
          RemountSucceeds(signatures, Db());
          RemountFilesystem();
          code := 0;
      }
      reply := Code(code);
    }
  }

  /** One call: its reply, users, session, tree, bytes and logs after it, and which paths are loaded. */
  method Step(session: Session, c: Call) returns (reply: Reply)
    requires session.Valid()
    requires LegalCall(session.signatures, session.fs.store.blockSize, session.Now(), session.fs.loaded.Keys, c)
    modifies session, session.fs, session.fs.store, session.fs.store.disk, session.fs.store.rootKey,
             session.fs.store.auditRootKey
    ensures session.Valid()
    ensures (session.Now(), reply)
      == Respond(session.signatures, session.fs.store.blockSize, old(session.Now()), c)
    ensures session.fs.loaded.Keys
      == Loaded(session.fs.store.blockSize, old(session.Now()), old(session.fs.loaded.Keys), c)
  {
    hide Session.Valid, LegalCall, Respond, Loaded;
    match c
    case Manage(e) => reply := session.ManageUsers(e);
    case Access(op) => reply := session.Forward(op);
  }

  /**
   Any run of calls by any users, with remountings, gives the replies and ends in the users, session, tree, bytes and
   logs of the pure state machine; the supernode's blob on the host then loads with these users and with the entries
   of the root directory.
   */
  method Run(session: Session, cs: seq<Call>) returns (replies: seq<Reply>)
    requires session.Valid()
    requires LegalCalls(session.signatures, session.fs.store.blockSize, session.Now(), session.fs.loaded.Keys, cs)
    modifies session, session.fs, session.fs.store, session.fs.store.disk, session.fs.store.rootKey,
             session.fs.store.auditRootKey
    ensures session.Valid()
    ensures (session.Now(), replies)
      == RespondAll(session.signatures, session.fs.store.blockSize, old(session.Now()), cs)
    ensures Shown(session.fs.OnStore(), session.Now().files.tree, session.Now().files.logs)
    ensures ROOT_UUID in session.Now().files.tree
    ensures RootHolds(session.fs.OnStore(), session.Db().users, session.Now().files.tree[ROOT_UUID].entries)
    decreases |cs|
  {
    hide LegalCall, Respond, Loaded, InMemory, Consistent, IsTree, Shown, NodeShown, RootHolds, FileSystem.OnStore;
    if cs == [] {
      RootBlob(session.fs.OnStore(), session.fs.tree, session.fs.logs, session.fs.supernode);
      return [];
    }
    var reply := Step(session, cs[0]);
    var rest := Run(session, cs[1..]);
    replies := [reply] + rest;
  }

  /** The life of a filesystem, from an empty host and no user on. */
  method NewAndRun(store: FileStore, signatures: Signatures, cs: seq<Call>)
      returns (session: Session, replies: seq<Reply>)
    requires store.Valid() && ValidUuid(store.currentUser.uuid) && store.disk.files == map[]
    requires TreeFiles.SectionSize(map[], store.blockSize, EMPTY_ROOT) < SECTION_LIMIT
    requires LegalCalls(signatures, store.blockSize,
                        World(Database.Database(map[], None), State(NEW_TREE, map[ROOT_UUID := []])), {}, cs)
    modifies store, store.disk, store.rootKey, store.auditRootKey
    ensures fresh(session) && session.fs.store == store && session.Valid()
    ensures (session.Now(), replies)
      == RespondAll(signatures, store.blockSize,
                    World(Database.Database(map[], None), State(NEW_TREE, map[ROOT_UUID := []])), cs)
  {
    hide LegalCalls, RespondAll, Session.Valid, TreeFiles.SectionSize, RootHolds, Shown;
    session := new Session(store, signatures);
    assert session.fs.loaded.Keys == {};
    replies := Run(session, cs);
  }
}
