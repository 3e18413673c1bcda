/** What the operations answer and bring about, in the bits of the entitlements and in numbers. */
module Answers {
  import opened ByteStrings
  import opened Options
  import opened NodeRecords
  import opened AccessRights
  import opened FlatFiles
  import opened Trees
  import opened TreeChanges
  import opened NodeCaches

  // ----- who may do what -----

  datatype Access = Reading | Writing | Owning

  /** In bits: the three together count as ownership; everyone reads the supernode; root may do everything. */
  predicate May(node: Node, access: Access, user: Bytes) {
    || user == ROOT_UUID
    || (node.kind == RootKind && access == Reading)
    || (node.kind != RootKind && CString(user) in node.rights
        && var r := node.rights[CString(user)];
           r.owner || match access
                      case Reading => r.read
                      case Writing => r.write
                      case Owning => r.read && r.write && r.exec)
  }

  function RightFor(access: Access): Rights {
    match access
    case Reading => READ_RIGHT
    case Writing => WRITE_RIGHT
    case Owning => OWNER_RIGHT
  }

  /** The rights that the operations ask for are these bits. */
  lemma AllowedExactly(node: Node, access: Access, user: Bytes)
    ensures Allows(node, RightFor(access), user) <==> May(node, access, user)
  {
  }

  lemma AllowedBits(node: Node, user: Bytes)
    ensures Allows(node, READ_RIGHT, user) <==> May(node, Reading, user)
    ensures Allows(node, WRITE_RIGHT, user) <==> May(node, Writing, user)
    ensures Allows(node, OWNER_RIGHT, user) <==> May(node, Owning, user)
  {
    AllowedExactly(node, Reading, user);
    AllowedExactly(node, Writing, user);
    AllowedExactly(node, Owning, user);
  }

  /** Every bit that is asked, or ownership; the owner bit that is asked is not looked at. */
  predicate MayAll(node: Node, asked: Rights, user: Bytes) {
    || user == ROOT_UUID
    || (node.kind == RootKind && !asked.write && !asked.exec)
    || (node.kind != RootKind && CString(user) in node.rights
        && var r := node.rights[CString(user)];
           r.owner || ((asked.read ==> r.read) && (asked.write ==> r.write) && (asked.exec ==> r.exec)))
  }

  /** Who sees an entry in a listing: execution alone does not do. */
  lemma SeenExactly(node: Node, user: Bytes)
    ensures Sees(node, user) <==> May(node, Reading, user) || May(node, Writing, user)
  {
    AllowedBits(node, user);
    hide Allows;
  }

  // ----- files by path -----

  /** `read_file`: 13 exactly for want of the owner or the read bit. */
  lemma ReadAnswer(t: Tree, bs: nat, cs: seq<Bytes>, offset: nat, length: nat, user: Bytes)
    requires bs > 0
    ensures var (code, data) := ReadIn(t, bs, cs, offset, length, user);
            var u := FileAt(t, cs);
      && (code == -2 <==> u.None?)
      && (code == -13 <==> u.Some? && !May(t[u.value], Reading, user))
      && (u.Some? && May(t[u.value], Reading, user) ==> (code, data) == ReadFlat(bs, t[u.value].bytes, offset, length))
  {
    hide Resolve, Allows, FileAt, May;
    if FileAt(t, cs).Some? {
      AllowedBits(t[FileAt(t, cs).value], user);
    }
  }

  /** `write_file`: 13 exactly for want of the owner or the write bit, and whatever is refused leaves the bytes. */
  lemma WriteAnswer(t: Tree, bs: nat, cs: seq<Bytes>, offset: nat, data: Bytes, user: Bytes)
    requires bs > 0
    ensures var (code, t') := WriteIn(t, bs, cs, offset, data, user);
            var u := FileAt(t, cs);
      && (code == -2 <==> u.None?)
      && (code == -13 <==> u.Some? && !May(t[u.value], Writing, user))
      && t'.Keys == t.Keys && (forall v :: v in t && (code < 0 || u != Some(v)) ==> t'[v].bytes == t[v].bytes)
      && (u.Some? && May(t[u.value], Writing, user) ==>
            u.value in t' && (code, t'[u.value].bytes) == WriteFlat(bs, t[u.value].bytes, offset, data))
  {
    hide Resolve, Allows, FileAt, May;
    if FileAt(t, cs).Some? {
      var u := FileAt(t, cs).value;
      AllowedBits(t[u], user);
    }
  }

  /** `truncate_file` to a size that is not larger. */
  lemma TruncateAnswer(t: Tree, cs: seq<Bytes>, newSize: nat, user: Bytes)
    ensures var (code, t') := TruncateIn(t, cs, newSize, user);
            var u := FileAt(t, cs);
      && (code == -2 <==> u.None?)
      && (code == -13 <==> u.Some? && !May(t[u.value], Writing, user))
      && (code == 0 <==> u.Some? && May(t[u.value], Writing, user) && newSize == 0)
      && (code < 0 ==> t' == t) && (code == 0 ==> u.value in t' && t'[u.value].bytes == [])
  {
    hide Resolve, Allows, FileAt, May;
    if FileAt(t, cs).Some? {
      var u := FileAt(t, cs).value;
      AllowedBits(t[u], user);
      assert t[u := t[u]] == t;
    }
  }

  /** `open_file` asks for the bits of the mode. */
  lemma OpenAnswer(t: Tree, cs: seq<Bytes>, asked: Rights, user: Bytes)
    ensures var code, u := OpenCode(t, cs, asked, user), FileAt(t, cs);
      && (code == -2 <==> u.None?) && (code == 0 || code == -2 || code == -13)
      && (code == 0 <==> u.Some? && MayAll(t[u.value], asked, user))
  {
    hide Resolve, CString;
  }

  lemma SameMay(node: Node, node': Node, access: Access, user: Bytes)
    requires node'.kind == node.kind && node'.rights == node.rights
    ensures May(node', access, user) <==> May(node, access, user)
  {
  }

  /** A user who has just written reads it back by path, if he may read, and the size covers it. */
  lemma WrittenIsRead(t: Tree, bs: nat, cs: seq<Bytes>, offset: nat, data: Bytes, user: Bytes, reader: Bytes)
    requires IsTree(t) && bs > 0 && WriteIn(t, bs, cs, offset, data, user).0 >= 0
    ensures var t' := WriteIn(t, bs, cs, offset, data, user).1;
      && FileAt(t', cs) == FileAt(t, cs) && FileAt(t, cs).Some?
      && (May(t[FileAt(t, cs).value], Reading, reader) ==>
            ReadIn(t', bs, cs, offset, |data|, reader) == (|data|, data))
      && SizeIn(t', cs) == if SizeIn(t, cs) < offset + |data| then offset + |data| else SizeIn(t, cs)
  {
    WriteKeepsTree(t, bs, cs, offset, data, user, cs);
    hide IsTree, Resolve;
    var u, t' := FileAt(t, cs).value, WriteIn(t, bs, cs, offset, data, user).1;
    hide May, Allows;
    AllowedBits(t'[u], reader);
    SameMay(t[u], t'[u], Reading, reader);
    ReadsOwnWrite(bs, t[u].bytes, offset, data);
  }

  // ----- the namespace by path -----

  /** What a path leads to: the kind of its node. */
  function KindAt(t: Tree, cs: seq<Bytes>): Option<Kind> {
    var u := Resolve(t, cs);
    if u.Some? && u.value in t then Some(t[u.value].kind) else None
  }

  /** `entry_type`: 17 for a file, 21 for a directory, the root included, and 2, negated, for nothing. */
  lemma TypeAnswer(t: Tree, cs: seq<Bytes>)
    ensures TypeCode(t, cs) == match KindAt(t, cs)
                               case None => -2
                               case Some(kind) => if kind == FileKind then 17 else 21
  {
    hide Resolve;
  }

  lemma EntryIsResolved(t: Tree, cs: seq<Bytes>)
    requires IsTree(t)
    ensures var dir := Resolve(t, Init(cs));
      if cs != [] && dir.Some? && Last(cs) in t[dir.value].entries
      then Resolve(t, cs) == Some(t[dir.value].entries[Last(cs)]) && Resolve(t, cs).value in t
           && t[Resolve(t, cs).value].kind != RootKind
      else (cs != [] ==> Resolve(t, cs).None?)
           && (cs == [] ==> dir == Some(ROOT_UUID) == Resolve(t, cs) && Last(cs) !in t[ROOT_UUID].entries)
  {
    RootAlone(t, cs);
    hide Resolve;
    var dir := Resolve(t, Init(cs));
    if cs != [] {
      ResolveLast(t, cs);
      if dir.Some? {
        EntryLooksUp(t, dir.value, Last(cs));
        if Last(cs) in t[dir.value].entries {
          EntryFacts(t, dir.value, Last(cs), dir.value, Last(cs));
        }
      }
    } else if Last(cs) in t[ROOT_UUID].entries {
      EntryFacts(t, ROOT_UUID, Last(cs), ROOT_UUID, Last(cs));
    }
  }

  /** `unlink` answers by what the path leads to: only the owner of a file removes it. */
  lemma UnlinkAnswer(t: Tree, cs: seq<Bytes>, user: Bytes)
    requires IsTree(t)
    ensures UnlinkIn(t, cs, user).0 == if KindAt(t, cs) != Some(FileKind) then -2
                                       else if !May(t[Resolve(t, cs).value], Owning, user) then -13 else 0
  {
    EntryIsResolved(t, cs);
    RootAlone(t, cs);
    hide IsTree, Resolve, Allows, May, Trees.Remove;
    if KindAt(t, cs).Some? {
      AllowedBits(t[Resolve(t, cs).value], user);
    }
  }

  /** `rm_directory` likewise, and only when nothing is in it. */
  lemma RmdirAnswer(t: Tree, cs: seq<Bytes>, user: Bytes)
    requires IsTree(t)
    ensures RmdirIn(t, cs, user).0 == if KindAt(t, cs) != Some(DirKind) then -2
                                      else if !May(t[Resolve(t, cs).value], Owning, user) then -13
                                      else if t[Resolve(t, cs).value].entries != map[] then -39 else 0
  {
    EntryIsResolved(t, cs);
    RootAlone(t, cs);
    hide IsTree, Resolve, Allows, May, Trees.Remove;
    if KindAt(t, cs).Some? {
      AllowedBits(t[Resolve(t, cs).value], user);
    }
  }

  lemma RenameAnswer(t: Tree, was: seq<Bytes>, now: seq<Bytes>)
    requires IsTree(t)
    ensures RenameIn(t, was, now).0 == if Init(was) != Init(now) then -71
                                       else if Resolve(t, Init(was)).None? then -2
                                       else if Resolve(t, now).Some? then -17
                                       else if was == [] || Resolve(t, was).None? then -2 else 0
  {
    EntryIsResolved(t, was);
    RootAlone(t, was);
    hide IsTree, Resolve, Save;
  }

  lemma EditAnswer(t: Tree, cs: seq<Bytes>, rights: Rights, target: Bytes, known: bool, user: Bytes)
    requires IsTree(t)
    ensures EditIn(t, cs, rights, target, known, user).0
      == if Resolve(t, cs).None? || !known then -2
         else if !May(t[Resolve(t, cs).value], Owning, user) then -13
         else if KindAt(t, cs) == Some(RootKind) then -71 else 0
  {
    RootAlone(t, cs);
    hide IsTree, Resolve, Allows, May, Save, CString;
    if Resolve(t, cs).Some? {
      AllowedBits(t[Resolve(t, cs).value], user);
    }
  }

  /** After a creation the path leads to an empty node of its kind, that its creator and root alone may use. */
  lemma CreatedIs(t: Tree, cs: seq<Bytes>, kind: Kind, uuid: Bytes, user: Bytes, who: Bytes, access: Access)
    requires IsTree(t) && uuid !in t && kind != RootKind && KindAt(t, Init(cs)) != Some(FileKind)
    ensures var (code, t') := CreateIn(t, cs, kind, uuid, user);
      && code == (if Resolve(t, cs).Some? then -17 else if Resolve(t, Init(cs)).None? then -2 else 0)
      && (code == 0 ==>
            && Resolve(t', cs) == Some(uuid) && uuid in t' && t'[uuid].kind == kind && t'[uuid].bytes == []
            && (May(t'[uuid], access, who) <==> who == ROOT_UUID || CString(who) == CString(user)))
  {
    RootAlone(t, cs);
    hide IsTree, Resolve, CString;
    if CreateIn(t, cs, kind, uuid, user).0 == 0 {
      CreateResolves(t, cs, kind, uuid, user, cs);
      CreatedNode(t, cs, kind, uuid, user);
    }
  }

  /** After a change of rights, who may do what is as before, but for the user whose rights they are. */
  lemma EditedMay(t: Tree, cs: seq<Bytes>, rights: Rights, target: Bytes, user: Bytes, who: Bytes, access: Access)
    requires IsTree(t) && EditIn(t, cs, rights, target, true, user).0 == 0
    ensures var u, t' := Resolve(t, cs).value, EditIn(t, cs, rights, target, true, user).1;
      && u in t && u in t' && (forall v :: v in t && v != u ==> v in t' && t'[v] == t[v])
      && if CString(who) != CString(target) || who == ROOT_UUID
         then May(t'[u], access, who) <==> May(t[u], access, who)
         else May(t'[u], access, who) <==> || rights.owner
                                           || match access
                                              case Reading => rights.read
                                              case Writing => rights.write
                                              case Owning => rights.read && rights.write && rights.exec
  {
    hide IsTree, Resolve, CString;
  }
}
