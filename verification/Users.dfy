/** The user database of the supernode and the session, as a state machine on values. */
module Users {
  import opened ByteStrings
  import opened Errno
  import opened Options
  import opened Orders
  import opened NodeRecords
  import opened NodeRoundTrip

  /** The registered users by textual UUID, and who is logged in. */
  datatype Database = Database(users: map<Bytes, User>, current: Option<User>)

  /** Signing and validating a challenge: foreign code. */
  datatype Signatures = Signatures(signs: Bytes -> bool, validates: (Bytes, Bytes) -> bool)

  datatype Event =
    | Add(name: Bytes, publicKey: Bytes, drawn: Bytes)
    | Remove(uuid: Bytes)
    | Login(secretKey: Bytes, uuid: Bytes)
    | Remount

  const ROOT_NAME: Bytes := CString(ROOT_UUID)
  const AUDITOR_NAME: Bytes := CString(AUDITOR_UUID)

  /**
   The first user becomes root, the one added to a single user becomes the auditor, the others keep the drawn UUID.
   */
  function Registered(users: map<Bytes, User>, e: Event): User
    requires e.Add?
  {
    User(if |users| == 0 then ROOT_UUID else if |users| == 1 then AUDITOR_UUID else e.drawn, e.name, e.publicKey)
  }

  /** `Supernode::add_user`: nothing when an equal user is there; an occupied key keeps its user. */
  function AddUserIn(users: map<Bytes, User>, e: Event): Option<map<Bytes, User>>
    requires e.Add?
  {
    if User(e.drawn, e.name, e.publicKey) in users.Values then None
    else Some(Insert(users, CString(Registered(users, e).uuid), Registered(users, e)))
  }

  /** `Supernode::remove_user_from_uuid`: root cannot be removed. */
  function RemoveUserIn(users: map<Bytes, User>, uuid: Bytes): Option<map<Bytes, User>> {
    if CString(uuid) !in users || users[CString(uuid)].uuid == ROOT_UUID then None
    else Some(users - {CString(users[CString(uuid)].uuid)})
  }

  /** One call and its return code. */
  function Next(s: Signatures, db: Database, e: Event): (Database, int) {
    match e
    case Add(_, _, _) =>
      if db.current.Some? && db.current.value.uuid != ROOT_UUID then (db, -EACCES) else
      (match AddUserIn(db.users, e)
       case None => (db, -EEXIST)
       case Some(users) => (db.(users := users), 0))
    case Remove(uuid) =>
      if db.current.None? || db.current.value.uuid != ROOT_UUID then (db, -EACCES) else
      (match RemoveUserIn(db.users, uuid)
       case None => (db, -EEXIST)
       case Some(users) => (db.(users := users), 0))
    case Login(secretKey, uuid) =>
      if CString(uuid) !in db.users then (db, -EACCES)
      else if !s.signs(secretKey) then (db, -1)
      else if !s.validates(secretKey, db.users[CString(uuid)].publicKey) then (db, -EACCES)
      else (db.(current := Some(db.users[CString(uuid)])), 0)
    case Remount => (db.(current := None), 0)
  }

  /** Once a user exists, root does; every key is its user's UUID; whoever is logged in is registered. */
  ghost predicate Consistent(db: Database) {
    && (forall k :: k in db.users ==> ValidUser(k, db.users[k]))
    && (db.users != map[] ==> ROOT_NAME in db.users && db.users[ROOT_NAME].uuid == ROOT_UUID)
    && (db.current.Some? ==> CString(db.current.value.uuid) in db.users
                             && db.users[CString(db.current.value.uuid)] == db.current.value)
  }

  /** A drawn UUID is well-formed and nobody's yet. */
  ghost predicate Drawn(db: Database, e: Event) {
    e.Add? ==> ValidUuid(e.drawn) && CString(e.drawn) !in db.users && |e.publicKey| == PUBLIC_KEY_SIZE
  }

  lemma FixedAreValid()
    ensures ValidUuid(ROOT_UUID) && ValidUuid(AUDITOR_UUID)
  {
  }

  lemma FixedUuids()
    ensures ValidUuid(ROOT_UUID) && ValidUuid(AUDITOR_UUID) && ROOT_NAME != AUDITOR_NAME
    ensures UuidText(ROOT_NAME) && UuidText(AUDITOR_NAME)
  {
    hide CString, ValidUuid, UuidText;
    FixedAreValid();
    NameOfUuid(ROOT_UUID);
    NameOfUuid(AUDITOR_UUID);
    assert ROOT_NAME[0] == 48 && AUDITOR_NAME[0] == 49;
  }

  lemma OneUser(users: map<Bytes, User>, k: Bytes)
    requires |users| == 1 && ROOT_NAME in users && k != ROOT_NAME
    ensures k !in users
  {
    assert |users.Keys - {ROOT_NAME}| == 0;
    assert k in users.Keys ==> k in users.Keys - {ROOT_NAME};
  }

  /** The only user there can be alone is root, so the auditor's key is free when it is taken. */
  lemma KeyIsFree(db: Database, e: Event)
    requires Consistent(db) && e.Add? && Drawn(db, e)
    ensures CString(Registered(db.users, e).uuid) !in db.users && ValidUuid(Registered(db.users, e).uuid)
    ensures AddUserIn(db.users, e) == Some(db.users[CString(Registered(db.users, e).uuid) := Registered(db.users, e)])
  {
    hide CString, ValidUuid;
    FixedUuids();
    if |db.users| == 1 {
      assert db.users != map[];
      OneUser(db.users, AUDITOR_NAME);
    }
    var u := User(e.drawn, e.name, e.publicKey);
    forall k | k in db.users
      ensures db.users[k] != u
    {
      assert ValidUser(k, db.users[k]);
    }
  }

  /** Removing a user who is not root: neither root nor the one who is logged in goes. */
  lemma RemovalSpares(db: Database, uuid: Bytes)
    requires Consistent(db) && db.current.Some? && db.current.value.uuid == ROOT_UUID
    requires RemoveUserIn(db.users, uuid).Some?
    ensures CString(uuid) in db.users && CString(uuid) != ROOT_NAME
    ensures RemoveUserIn(db.users, uuid).value == db.users - {CString(uuid)}
  {
    var k := CString(uuid);
    assert ValidUser(k, db.users[k]);
    assert ValidUser(ROOT_NAME, db.users[ROOT_NAME]);
  }

  lemma RootFirst(db: Database, e: Event)
    requires Consistent(db) && e.Add? && Drawn(db, e)
    ensures var u := Registered(db.users, e);
      ValidUser(CString(u.uuid), u) && (db.users == map[] ==> u.uuid == ROOT_UUID)
  {
    FixedAreValid();
  }

  lemma NextKeepsConsistent(s: Signatures, db: Database, e: Event)
    requires Consistent(db) && Drawn(db, e)
    ensures Consistent(Next(s, db, e).0)
  {
    hide CString, ValidUuid, AddUserIn, RemoveUserIn, Registered;
    FixedUuids();
    match e
    case Add(_, _, _) =>
      KeyIsFree(db, e);
      RootFirst(db, e);
    case Remove(uuid) =>
      if db.current.Some? && db.current.value.uuid == ROOT_UUID && RemoveUserIn(db.users, uuid).Some? {
        RemovalSpares(db, uuid);
      }
    case Login(_, uuid) =>
      assert CString(uuid) in db.users ==> ValidUser(CString(uuid), db.users[CString(uuid)]);
    case Remount =>
  }

  // ----- runs -----

  ghost predicate DrawnRun(s: Signatures, db: Database, es: seq<Event>)
    decreases |es|
  {
    es == [] || (Drawn(db, es[0]) && DrawnRun(s, Next(s, db, es[0]).0, es[1..]))
  }

  function After(s: Signatures, db: Database, es: seq<Event>): Database
    decreases |es|
  {
    if es == [] then db else After(s, Next(s, db, es[0]).0, es[1..])
  }

  lemma RootStays(s: Signatures, db: Database, e: Event)
    requires Consistent(db) && Drawn(db, e) && db.users != map[]
    ensures var users := Next(s, db, e).0.users; ROOT_NAME in users && users[ROOT_NAME] == db.users[ROOT_NAME]
  {
    hide CString, ValidUuid, AddUserIn, RemoveUserIn, Registered;
    match e
    case Add(_, _, _) =>
      KeyIsFree(db, e);
    case Remove(uuid) =>
      if db.current.Some? && db.current.value.uuid == ROOT_UUID && RemoveUserIn(db.users, uuid).Some? {
        RemovalSpares(db, uuid);
      }
    case Login(_, _) =>
    case Remount =>
  }

  /** Every run with fresh UUIDs keeps the database consistent, and root, once there, is the same user for ever. */
  lemma {:induction false} RunKeepsConsistent(s: Signatures, db: Database, es: seq<Event>)
    requires Consistent(db) && DrawnRun(s, db, es)
    ensures Consistent(After(s, db, es))
    ensures db.users != map[] ==>
      ROOT_NAME in After(s, db, es).users && After(s, db, es).users[ROOT_NAME] == db.users[ROOT_NAME]
    decreases |es|
  {
    hide Next;
    if es != [] {
      NextKeepsConsistent(s, db, es[0]);
      if db.users != map[] {
        RootStays(s, db, es[0]);
      }
      RunKeepsConsistent(s, Next(s, db, es[0]).0, es[1..]);
    }
  }

  // ----- who is let in, and what it takes to change the users -----

  /** A login with a key whose signature validates against the public key of that very user. */
  predicate Proves(s: Signatures, e: Event, u: User) {
    e.Login? && s.signs(e.secretKey) && s.validates(e.secretKey, u.publicKey) && CString(e.uuid) == CString(u.uuid)
  }

  /** `sgx_login`: the codes, and that a login that fails leaves users and session. */
  lemma LoginExactly(s: Signatures, db: Database, secretKey: Bytes, uuid: Bytes)
    requires Consistent(db)
    ensures var (db', code) := Next(s, db, Login(secretKey, uuid));
      && db'.users == db.users && (code != 0 ==> db' == db)
      && (code == 0 <==> exists k :: k in db.users && Proves(s, Login(secretKey, uuid), db.users[k]))
      && (code == 0 ==> db'.current.Some? && Proves(s, Login(secretKey, uuid), db'.current.value)
                        && CString(db'.current.value.uuid) in db.users)
      && (code == -1 <==> CString(uuid) in db.users && !s.signs(secretKey))
  {
    hide CString, ValidUuid;
    assert forall k :: k in db.users ==> ValidUser(k, db.users[k]);
    if CString(uuid) in db.users {
      assert CString(uuid) == CString(db.users[CString(uuid)].uuid);
    }
  }

  /** Event `i` let the user in, and the filesystem was not remounted since. */
  ghost predicate LetIn(s: Signatures, es: seq<Event>, i: nat, u: User) {
    i < |es| && Proves(s, es[i], u) && forall j :: i < j < |es| ==> !es[j].Remount?
  }

  lemma LetInLater(s: Signatures, es: seq<Event>, i: nat, u: User)
    requires es != [] && LetIn(s, es[1..], i, u)
    ensures LetIn(s, es, i + 1, u)
  {
    hide Proves;
    assert es[1..][i] == es[i + 1];
    forall j | i + 1 < j < |es|
      ensures !es[j].Remount?
    {
      assert es[1..][j - 1] == es[j];
    }
  }

  lemma LetInNow(s: Signatures, es: seq<Event>, u: User)
    requires es != [] && Proves(s, es[0], u) && forall j :: 0 <= j < |es[1..]| ==> !es[1..][j].Remount?
    ensures LetIn(s, es, 0, u)
  {
    hide Proves;
    forall j | 0 < j < |es|
      ensures !es[j].Remount?
    {
      assert es[1..][j - 1] == es[j];
    }
  }

  lemma CurrentAfter(s: Signatures, db: Database, e: Event)
    requires Consistent(db) && Next(s, db, e).0.current.Some?
    ensures var u := Next(s, db, e).0.current.value; Proves(s, e, u) || (db.current == Some(u) && !e.Remount?)
  {
    hide CString, ValidUuid, AddUserIn, RemoveUserIn;
    if e.Login? && CString(e.uuid) in db.users {
      assert ValidUser(CString(e.uuid), db.users[CString(e.uuid)]);
    }
  }

  /** Over every run, whoever is logged in at the end was already, or has proved his key since the last remounting. */
  lemma {:induction false} LoggedInProved(s: Signatures, db: Database, es: seq<Event>)
    requires Consistent(db) && DrawnRun(s, db, es) && After(s, db, es).current.Some?
    ensures var u := After(s, db, es).current.value;
      || (db.current == Some(u) && forall j :: 0 <= j < |es| ==> !es[j].Remount?)
      || exists i: nat :: LetIn(s, es, i, u)
    decreases |es|
  {
    hide Next, Proves, Consistent, Drawn;
    if es != [] {
      var u, db1 := After(s, db, es).current.value, Next(s, db, es[0]).0;
      NextKeepsConsistent(s, db, es[0]);
      LoggedInProved(s, db1, es[1..]);
      if i: nat :| LetIn(s, es[1..], i, u) {
        LetInLater(s, es, i, u);
      } else {
        CurrentAfter(s, db, es[0]);
        if Proves(s, es[0], u) {
          LetInNow(s, es, u);
        } else {
          assert forall j :: 0 < j < |es| ==> es[j] == es[1..][j - 1];
        }
      }
    }
  }

  lemma SameName(u: Bytes, v: Bytes)
    requires ValidUuid(u) && ValidUuid(v)
    ensures CString(u) == CString(v) <==> u == v
  {
    NameOfUuid(u);
    NameOfUuid(v);
    hide CString;
    assert u == u[..UUID_SIZE - 1] + [0] && v == v[..UUID_SIZE - 1] + [0];
  }

  lemma UuidsDiffer(k: Bytes, u: User)
    requires ValidUser(k, u)
    ensures k == ROOT_NAME <==> u.uuid == ROOT_UUID
  {
    FixedAreValid();
    SameName(u.uuid, ROOT_UUID);
    hide CString, ValidUuid;
  }

  /** `sgx_add_user` and `sgx_remove_user`: the codes, in the state before them. */
  lemma ManagementExactly(s: Signatures, db: Database, e: Event)
    requires Consistent(db) && (e.Add? || e.Remove?)
    ensures var (db', code) := Next(s, db, e);
      && db'.current == db.current && (code != 0 ==> db' == db)
      && (code == -13 <==> if e.Add? then db.current.Some? && db.current.value.uuid != ROOT_UUID
                           else db.current.None? || db.current.value.uuid != ROOT_UUID)
      && (e.Add? && code != -13 ==>
            (code == -17 <==> exists k :: k in db.users && db.users[k] == User(e.drawn, e.name, e.publicKey)))
      && (e.Remove? && code != -13 ==>
            (code == -17 <==> CString(e.uuid) !in db.users || CString(e.uuid) == ROOT_NAME))
      && (code == 0 || code == -13 || code == -17)
  {
    FixedUuids();
    hide CString, ValidUuid, UuidText;
    forall k | k in db.users
      ensures ValidUser(k, db.users[k])
    {
    }
    if e.Remove? && CString(e.uuid) in db.users {
      UuidsDiffer(CString(e.uuid), db.users[CString(e.uuid)]);
    }
  }

  /** Who is added: the first as root, to one user the auditor, to more under the UUID that was drawn. */
  lemma AddedExactly(s: Signatures, db: Database, name: Bytes, publicKey: Bytes, drawn: Bytes)
    requires Consistent(db) && Drawn(db, Add(name, publicKey, drawn))
    requires Next(s, db, Add(name, publicKey, drawn)).1 == 0
    ensures var users := Next(s, db, Add(name, publicKey, drawn)).0.users;
            var uuid := if |db.users| == 0 then ROOT_UUID else if |db.users| == 1 then AUDITOR_UUID else drawn;
      CString(uuid) !in db.users && users == db.users[CString(uuid) := User(uuid, name, publicKey)]
  {
    KeyIsFree(db, Add(name, publicKey, drawn));
    hide CString, ValidUuid;
  }

  lemma OnlyRootRemoves(s: Signatures, db: Database, e: Event)
    requires Consistent(db) && Drawn(db, e) && db.users != map[]
    requires db.current.Some? ==> db.current.value.uuid != ROOT_UUID
    ensures forall k :: k in db.users ==> k in Next(s, db, e).0.users && Next(s, db, e).0.users[k] == db.users[k]
  {
    hide CString, ValidUuid, AddUserIn, RemoveUserIn, Registered;
    if e.Add? {
      KeyIsFree(db, e);
    }
  }

  /** Who is logged in as root is the registered root. */
  lemma RootIsRegistered(db: Database)
    requires Consistent(db) && db.current.Some? && db.current.value.uuid == ROOT_UUID
    ensures ROOT_NAME in db.users && db.current.value == db.users[ROOT_NAME]
  {
  }

  lemma RootNotIn(s: Signatures, db: Database, e: Event)
    requires Consistent(db) && Drawn(db, e) && db.users != map[] && !Proves(s, e, db.users[ROOT_NAME])
    requires db.current.Some? ==> db.current.value.uuid != ROOT_UUID
    ensures var current := Next(s, db, e).0.current; current.Some? ==> current.value.uuid != ROOT_UUID
  {
    NextKeepsConsistent(s, db, e);
    RootStays(s, db, e);
    var db' := Next(s, db, e).0;
    if db'.current.Some? {
      CurrentAfter(s, db, e);
      if db'.current.value.uuid == ROOT_UUID {
        hide Consistent, CString, Next, Proves;
        RootIsRegistered(db');
      }
    }
  }

  /** While nobody proves the key of root, root is not let in and no user is lost. */
  lemma {:induction false} RootKeyGuards(s: Signatures, db: Database, es: seq<Event>)
    requires Consistent(db) && DrawnRun(s, db, es) && db.users != map[]
    requires db.current.Some? ==> db.current.value.uuid != ROOT_UUID
    requires forall e :: e in es ==> !Proves(s, e, db.users[ROOT_NAME])
    ensures var db' := After(s, db, es);
      && (db'.current.Some? ==> db'.current.value.uuid != ROOT_UUID)
      && forall k :: k in db.users ==> k in db'.users && db'.users[k] == db.users[k]
    decreases |es|
  {
    hide Next, Proves, Consistent, Drawn;
    if es != [] {
      assert es[0] in es;
      NextKeepsConsistent(s, db, es[0]);
      RootStays(s, db, es[0]);
      OnlyRootRemoves(s, db, es[0]);
      RootNotIn(s, db, es[0]);
      RootKeyGuards(s, Next(s, db, es[0]).0, es[1..]);
    }
  }
}
