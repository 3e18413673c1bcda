/** Every operation keeps the namespace a tree, and what resolves afterwards. */
module TreeChanges {
  import opened ByteStrings
  import opened Options
  import opened Orders
  import opened Paths
  import opened NodeRecords
  import opened Trees

  // ----- one path changes -----

  /** `n` in `u` now is `w`; every other lookup is as before. */
  ghost predicate LooksUp(t: Tree, t': Tree, u: Bytes, n: Bytes, w: Option<Bytes>) {
    forall v, m :: Lookup(t', v, m) == if v == u && m == n then w else Lookup(t, v, m)
  }

  /** Nothing lies below a node without entries. */
  ghost predicate Leaf(t: Tree, u: Bytes) {
    forall m :: Lookup(t, u, m) == None
  }

  lemma SameLast(a: seq<Bytes>, b: seq<Bytes>)
    requires a != [] && b != []
    ensures a == b <==> Init(a) == Init(b) && Last(a) == Last(b)
  {
    assert a == Init(a) + [Last(a)] && b == Init(b) + [Last(b)];
  }

  /** One lookup changes between nothing and a leaf: one path changes with it, and no other. */
  lemma {:induction false} OnePathChanges(t: Tree, t': Tree, cs: seq<Bytes>, u: Bytes, w: Option<Bytes>,
                                          path: seq<Bytes>)
    requires IsTree(t) && cs != [] && Resolve(t, Init(cs)) == Some(u) && LooksUp(t, t', u, Last(cs), w)
    requires w.Some? ==> Resolve(t, cs) == None && w.value !in t && Leaf(t', w.value)
    requires w.None? ==> Resolve(t, cs).Some? && Leaf(t, Resolve(t, cs).value)
    ensures Resolve(t', path) == if path == cs then w else Resolve(t, path)
    decreases |path|
  {
    if path != [] {
      var before := Init(path);
      OnePathChanges(t, t', cs, u, w, before);
      ResolveLast(t, path);
      ResolveLast(t', path);
      SameLast(path, cs);
      if Resolve(t, before) == Some(u) {
        PathsAreUnique(t, before, Init(cs));
      }
    }
  }

  // ----- creating -----

  /** `t` with the entry `n` of `u`, naming the new node `w`. */
  function Add(t: Tree, u: Bytes, n: Bytes, w: Bytes, node: Node): Tree
    requires u in t
  {
    t[u := t[u].(entries := t[u].entries[n := w])][w := node]
  }

  lemma AddLookup(t: Tree, u: Bytes, n: Bytes, w: Bytes, node: Node, v: Bytes, m: Bytes)
    requires IsTree(t) && u in t && n !in t[u].entries && w !in t && node.entries == map[] && node.kind != RootKind
    ensures Lookup(Add(t, u, n, w, node), v, m) == if v == u && m == n then Some(w) else Lookup(t, v, m)
  {
    if v in t && m in t[v].entries {
      assert Edge(t, v, m, t[v].entries[m]);
      assert GoodEdge(t, v, m, t[v].entries[m]);
    }
    hide IsTree;
  }

  lemma AddLooksUp(t: Tree, u: Bytes, n: Bytes, w: Bytes, node: Node)
    requires IsTree(t) && u in t && n !in t[u].entries && w !in t && node.entries == map[] && node.kind != RootKind
    ensures LooksUp(t, Add(t, u, n, w, node), u, n, Some(w)) && Leaf(Add(t, u, n, w, node), w)
  {
    var t' := Add(t, u, n, w, node);
    forall v, m
      ensures Lookup(t', v, m) == if v == u && m == n then Some(w) else Lookup(t, v, m)
    {
      AddLookup(t, u, n, w, node, v, m);
    }
  }

  lemma CreateEdges(t: Tree, cs: seq<Bytes>, kind: Kind, uuid: Bytes, user: Bytes)
    requires IsTree(t) && uuid !in t && kind != RootKind && CreateIn(t, cs, kind, uuid, user).0 == 0
    ensures Resolve(t, Init(cs)).Some? && Resolve(t, Init(cs)).value in t && cs != []
    ensures Resolve(t, cs) == None && Last(cs) !in t[Resolve(t, Init(cs)).value].entries
    ensures t[Resolve(t, Init(cs)).value].kind != FileKind ==>
      var t', u := CreateIn(t, cs, kind, uuid, user).1, Resolve(t, Init(cs)).value;
      t' == Add(t, u, Last(cs), uuid, NewNode(kind, Last(cs), user))
  {
    var u := Resolve(t, Init(cs)).value;
    if cs != [] {
      ResolveLast(t, cs);
    }
    EntryLooksUp(t, u, Last(cs));
  }

  /** After a creation in a directory the new path resolves to the new node, and every other path as before. */
  lemma CreateResolves(t: Tree, cs: seq<Bytes>, kind: Kind, uuid: Bytes, user: Bytes, path: seq<Bytes>)
    requires IsTree(t) && uuid !in t && kind != RootKind && CreateIn(t, cs, kind, uuid, user).0 == 0
    requires t[Resolve(t, Init(cs)).value].kind != FileKind
    ensures Resolve(CreateIn(t, cs, kind, uuid, user).1, path) == if path == cs then Some(uuid) else Resolve(t, path)
  {
    hide IsTree, Add, LooksUp, Leaf, CreateIn, Resolve;
    CreateEdges(t, cs, kind, uuid, user);
    var u := Resolve(t, Init(cs)).value;
    AddLooksUp(t, u, Last(cs), uuid, NewNode(kind, Last(cs), user));
    OnePathChanges(t, CreateIn(t, cs, kind, uuid, user).1, cs, u, Some(uuid), path);
  }

  lemma AddEdge(t: Tree, u: Bytes, n: Bytes, w: Bytes, node: Node, v: Bytes, m: Bytes, x: Bytes)
    requires u in t && n !in t[u].entries && w !in t && node.entries == map[]
    ensures Edge(Add(t, u, n, w, node), v, m, x) <==> Edge(t, v, m, x) || (v == u && m == n && x == w)
  {
  }

  lemma AddGoodEdges(t: Tree, u: Bytes, n: Bytes, w: Bytes, node: Node)
    requires IsTree(t) && u in t && n !in t[u].entries && w !in t && IsName(n) && t[u].kind != FileKind
    requires node.entries == map[] && node.name == n
    ensures GoodEdges(Add(t, u, n, w, node))
  {
    hide Edge;
    var t' := Add(t, u, n, w, node);
    forall v, m, x | Edge(t', v, m, x)
      ensures GoodEdge(t', v, m, x)
    {
      AddEdge(t, u, n, w, node, v, m, x);
      if Edge(t, v, m, x) {
        assert GoodEdge(t, v, m, x);
      }
    }
    forall v, m, v', m', x | Edge(t', v, m, x) && Edge(t', v', m', x)
      ensures v == v' && m == m'
    {
      AddEdge(t, u, n, w, node, v, m, x);
      AddEdge(t, u, n, w, node, v', m', x);
      assert Edge(t, v, m, x) ==> GoodEdge(t, v, m, x);
      assert Edge(t, v', m', x) ==> GoodEdge(t, v', m', x);
    }
  }

  lemma AddIsTree(t: Tree, u: Bytes, n: Bytes, w: Bytes, node: Node)
    requires IsTree(t) && u in t && w !in t && node.kind != RootKind && GoodEdges(Add(t, u, n, w, node))
    requires forall v :: v in t || v == w ==> Reachable(Add(t, u, n, w, node), v)
    ensures IsTree(Add(t, u, n, w, node))
  {
    hide Edge, GoodEdge, Reachable;
  }

  lemma CreateReaches(t: Tree, cs: seq<Bytes>, kind: Kind, uuid: Bytes, user: Bytes)
    requires IsTree(t) && uuid !in t && kind != RootKind && CreateIn(t, cs, kind, uuid, user).0 == 0
    requires t[Resolve(t, Init(cs)).value].kind != FileKind
    ensures var t' := CreateIn(t, cs, kind, uuid, user).1; forall v :: v in t || v == uuid ==> Reachable(t', v)
  {
    hide CreateIn, Resolve;
    var t' := CreateIn(t, cs, kind, uuid, user).1;
    CreateEdges(t, cs, kind, uuid, user);
    forall v | v in t || v == uuid
      ensures Reachable(t', v)
    {
      CreateResolves(t, cs, kind, uuid, user, cs);
      if v in t {
        assert Reachable(t, v);
        var path :| Resolve(t, path) == Some(v);
        CreateResolves(t, cs, kind, uuid, user, path);
      }
    }
  }

  /** A file node does not store the entry. */
  lemma NothingLeadsTo(t: Tree, cs: seq<Bytes>, kind: Kind, uuid: Bytes, user: Bytes)
    requires IsTree(t) && uuid !in t && kind != RootKind && CreateIn(t, cs, kind, uuid, user).0 == 0
    requires t[Resolve(t, Init(cs)).value].kind == FileKind
    ensures var t' := CreateIn(t, cs, kind, uuid, user).1;
      uuid in t' && uuid != ROOT_UUID && forall v, m :: !Edge(t', v, m, uuid)
  {
    hide Resolve;
    var t' := CreateIn(t, cs, kind, uuid, user).1;
    forall v, m
      ensures !Edge(t', v, m, uuid)
    {
      if v in t && m in t[v].entries {
        assert Edge(t, v, m, t[v].entries[m]);
      }
    }
  }

  /** Nothing leads to the blob of a node created in a file. */
  lemma CreateLoses(t: Tree, cs: seq<Bytes>, kind: Kind, uuid: Bytes, user: Bytes)
    requires IsTree(t) && uuid !in t && kind != RootKind && CreateIn(t, cs, kind, uuid, user).0 == 0
    requires t[Resolve(t, Init(cs)).value].kind == FileKind
    ensures !IsTree(CreateIn(t, cs, kind, uuid, user).1)
  {
    var t', u := CreateIn(t, cs, kind, uuid, user).1, Resolve(t, Init(cs)).value;
    CreateEdges(t, cs, kind, uuid, user);
    NothingLeadsTo(t, cs, kind, uuid, user);
    if IsTree(t') {
      assert Reachable(t', uuid);
      var path :| Resolve(t', path) == Some(uuid);
      RootResolves(t');
      hide IsTree, CreateIn, Resolve, Edge;
      LastEdge(t', path);
    }
  }

  /** A creation keeps the tree exactly when its parent is a directory: a file node does not store the entry. */
  lemma CreateKeepsTree(t: Tree, cs: seq<Bytes>, kind: Kind, uuid: Bytes, user: Bytes)
    requires IsTree(t) && Names(cs) && uuid !in t && kind != RootKind && CreateIn(t, cs, kind, uuid, user).0 == 0
    ensures IsTree(CreateIn(t, cs, kind, uuid, user).1) <==> t[Resolve(t, Init(cs)).value].kind != FileKind
  {
    var t', u, n := CreateIn(t, cs, kind, uuid, user).1, Resolve(t, Init(cs)).value, Last(cs);
    CreateEdges(t, cs, kind, uuid, user);
    hide IsTree, CreateIn, Resolve, Add;
    if t[u].kind != FileKind {
      assert n in cs;
      AddGoodEdges(t, u, n, uuid, NewNode(kind, n, user));
      CreateReaches(t, cs, kind, uuid, user);
      AddIsTree(t, u, n, uuid, NewNode(kind, n, user));
    } else {
      CreateLoses(t, cs, kind, uuid, user);
    }
  }

  // ----- removing -----

  lemma RemoveLookup(t: Tree, u: Bytes, n: Bytes, w: Bytes, v: Bytes, m: Bytes)
    requires IsTree(t) && Edge(t, u, n, w) && t[w].entries == map[]
    ensures Lookup(Remove(t, u, n, w), v, m) == if v == u && m == n then None else Lookup(t, v, m)
  {
    hide IsTree;
    EntryFacts(t, u, n, u, n);
    if v in t && m in t[v].entries {
      EntryFacts(t, u, n, v, m);
    }
  }

  lemma RemoveEdge(t: Tree, u: Bytes, n: Bytes, w: Bytes, v: Bytes, m: Bytes, x: Bytes)
    requires u in t && Edge(t, u, n, w) && w in t && t[w].entries == map[] && t[u].kind != FileKind
    ensures Edge(Remove(t, u, n, w), v, m, x) <==> Edge(t, v, m, x) && !(v == u && m == n)
  {
  }

  /** After a removal the path of the removed leaf resolves to nothing, and every other path as before. */
  lemma RemoveResolves(t: Tree, cs: seq<Bytes>, u: Bytes, w: Bytes, path: seq<Bytes>)
    requires IsTree(t) && cs != [] && Resolve(t, Init(cs)) == Some(u) && Edge(t, u, Last(cs), w)
    requires t[w].entries == map[]
    ensures Resolve(Remove(t, u, Last(cs), w), path) == if path == cs then None else Resolve(t, path)
  {
    var t' := Remove(t, u, Last(cs), w);
    ResolveLast(t, cs);
    EntryLooksUp(t, u, Last(cs));
    assert Leaf(t, w);
    hide IsTree, Remove, Lookup, Resolve;
    forall v, m
      ensures Lookup(t', v, m) == if v == u && m == Last(cs) then None else Lookup(t, v, m)
    {
      RemoveLookup(t, u, Last(cs), w, v, m);
    }
    OnePathChanges(t, t', cs, u, None, path);
  }

  lemma EdgeFrom(t: Tree, u: Bytes, n: Bytes, w: Bytes)
    requires Edge(t, u, n, w)
    ensures u in t
  {
  }

  lemma RemoveEdgeKept(t: Tree, u: Bytes, n: Bytes, w: Bytes, v: Bytes, m: Bytes, x: Bytes)
    requires GoodEdge(t, u, n, w) && Edge(t, u, n, w) && t[w].entries == map[] && Edge(Remove(t, u, n, w), v, m, x)
    ensures Edge(t, v, m, x) && !(v == u && m == n)
  {
    RemoveEdge(t, u, n, w, v, m, x);
  }

  lemma RemoveGoodEdge(t: Tree, u: Bytes, n: Bytes, w: Bytes, v: Bytes, m: Bytes, x: Bytes)
    requires IsTree(t) && Edge(t, u, n, w) && t[w].entries == map[] && Edge(Remove(t, u, n, w), v, m, x)
    ensures GoodEdge(Remove(t, u, n, w), v, m, x)
  {
    hide IsTree;
    EntryFacts(t, u, n, u, n);
    RemoveEdge(t, u, n, w, v, m, x);
    EntryFacts(t, u, n, v, m);
  }

  lemma RemoveGoodEdges(t: Tree, u: Bytes, n: Bytes, w: Bytes)
    requires IsTree(t) && Edge(t, u, n, w) && t[w].entries == map[]
    ensures GoodEdges(Remove(t, u, n, w))
  {
    hide IsTree, Edge, Remove, GoodEdge;
    TreeEdges(t);
    assert GoodEdge(t, u, n, w);
    EdgeFrom(t, u, n, w);
    var t' := Remove(t, u, n, w);
    forall v, m, x | Edge(t', v, m, x)
      ensures GoodEdge(t', v, m, x)
    {
      RemoveGoodEdge(t, u, n, w, v, m, x);
    }
    forall v, m, v', m', x | Edge(t', v, m, x) && Edge(t', v', m', x)
      ensures v == v' && m == m'
    {
      RemoveEdgeKept(t, u, n, w, v, m, x);
      RemoveEdgeKept(t, u, n, w, v', m', x);
    }
  }

  lemma RemoveKeepsTree(t: Tree, cs: seq<Bytes>, u: Bytes, w: Bytes)
    requires IsTree(t) && cs != [] && Resolve(t, Init(cs)) == Some(u) && Edge(t, u, Last(cs), w)
    requires t[w].entries == map[]
    ensures IsTree(Remove(t, u, Last(cs), w))
  {
    var t', n := Remove(t, u, Last(cs), w), Last(cs);
    assert GoodEdge(t, u, n, w);
    RemoveGoodEdges(t, u, n, w);
    hide Edge, GoodEdge;
    forall v | v in t'
      ensures Reachable(t', v)
    {
      assert Reachable(t, v);
      var path :| Resolve(t, path) == Some(v);
      RemoveResolves(t, cs, u, w, path);
      ResolveLast(t, cs);
      EntryLooksUp(t, u, n);
    }
  }

  /** What both kinds of removal need: the child is the leaf at the path. */
  lemma UnlinkRemoves(t: Tree, cs: seq<Bytes>, user: Bytes)
    requires IsTree(t)
    requires UnlinkIn(t, cs, user).0 == 0
    ensures cs != [] && Resolve(t, Init(cs)).Some? && Resolve(t, cs).Some?
    ensures var u, w := Resolve(t, Init(cs)).value, Resolve(t, cs).value;
      Edge(t, u, Last(cs), w) && t[w].entries == map[] && UnlinkIn(t, cs, user).1 == Remove(t, u, Last(cs), w)
  {
    var u := Resolve(t, Init(cs)).value;
    var w := t[u].entries[Last(cs)];
    assert GoodEdge(t, u, Last(cs), w);
    ResolveLast(t, cs);
    EntryLooksUp(t, u, Last(cs));
    FilesAreLeaves(t, w);
  }

  lemma RmdirRemoves(t: Tree, cs: seq<Bytes>, user: Bytes)
    requires IsTree(t)
    requires RmdirIn(t, cs, user).0 == 0
    ensures cs != [] && Resolve(t, Init(cs)).Some? && Resolve(t, cs).Some?
    ensures var u, w := Resolve(t, Init(cs)).value, Resolve(t, cs).value;
      Edge(t, u, Last(cs), w) && t[w].entries == map[] && RmdirIn(t, cs, user).1 == Remove(t, u, Last(cs), w)
  {
    var u := Resolve(t, Init(cs)).value;
    var w := t[u].entries[Last(cs)];
    assert GoodEdge(t, u, Last(cs), w);
    ResolveLast(t, cs);
    EntryLooksUp(t, u, Last(cs));
  }

  lemma RefusedUnlink(t: Tree, cs: seq<Bytes>, user: Bytes)
    ensures UnlinkIn(t, cs, user).0 != 0 ==> UnlinkIn(t, cs, user).1 == t
    ensures RmdirIn(t, cs, user).0 != 0 ==> RmdirIn(t, cs, user).1 == t
  {
  }

  lemma UnlinkKeepsTree(t: Tree, cs: seq<Bytes>, user: Bytes, path: seq<Bytes>)
    requires IsTree(t)
    ensures var (r, t') := UnlinkIn(t, cs, user);
      IsTree(t') && Resolve(t', path) == if r == 0 && path == cs then None else Resolve(t, path)
  {
    hide IsTree, UnlinkIn, Resolve;
    if UnlinkIn(t, cs, user).0 == 0 {
      UnlinkRemoves(t, cs, user);
      RemoveKeepsTree(t, cs, Resolve(t, Init(cs)).value, Resolve(t, cs).value);
      RemoveResolves(t, cs, Resolve(t, Init(cs)).value, Resolve(t, cs).value, path);
    } else {
      RefusedUnlink(t, cs, user);
    }
  }

  lemma RmdirKeepsTree(t: Tree, cs: seq<Bytes>, user: Bytes, path: seq<Bytes>)
    requires IsTree(t)
    ensures var (r, t') := RmdirIn(t, cs, user);
      IsTree(t') && Resolve(t', path) == if r == 0 && path == cs then None else Resolve(t, path)
  {
    hide IsTree, RmdirIn, Resolve;
    if RmdirIn(t, cs, user).0 == 0 {
      RmdirRemoves(t, cs, user);
      RemoveKeepsTree(t, cs, Resolve(t, Init(cs)).value, Resolve(t, cs).value);
      RemoveResolves(t, cs, Resolve(t, Init(cs)).value, Resolve(t, cs).value, path);
    } else {
      RefusedUnlink(t, cs, user);
    }
  }

  // ----- renaming -----

  /** The path under the new name of a renamed node, as it was under the old one; the old name leads nowhere. */
  function Moved(t: Tree, was: seq<Bytes>, now: seq<Bytes>, path: seq<Bytes>): Option<Bytes> {
    if now <= path then Resolve(t, was + path[|now|..]) else if was <= path then None else Resolve(t, path)
  }

  ghost predicate Relabelled(t: Tree, t': Tree, u: Bytes, a: Bytes, b: Bytes) {
    forall v, m :: Lookup(t', v, m)
      == if v != u then Lookup(t, v, m) else if m == b then Lookup(t, u, a)
         else if m == a then None else Lookup(t, u, m)
  }

  lemma MovesBelow(t: Tree, t': Tree, was: seq<Bytes>, now: seq<Bytes>, u: Bytes, before: seq<Bytes>, n: Bytes)
    requires IsTree(t) && was != [] && |was| == |now| && now <= before
    requires Resolve(t, Init(was)) == Some(u) && Relabelled(t, t', u, Last(was), Last(now))
    requires Resolve(t', before) == Resolve(t, was + before[|now|..])
    ensures Resolve(t', before + [n]) == Resolve(t, was + (before + [n])[|now|..])
  {
    hide IsTree, Lookup;
    var back := was + before[|now|..];
    assert was + (before + [n])[|now|..] == back + [n];
    ResolveSnoc(t, back, n);
    ResolveSnoc(t', before, n);
    if Resolve(t, back) == Some(u) {
      PathsAreUnique(t, back, Init(was));
    }
  }

  lemma MovesBeside(t: Tree, t': Tree, was: seq<Bytes>, now: seq<Bytes>, u: Bytes, before: seq<Bytes>, n: Bytes)
    requires IsTree(t) && was != [] && now != [] && Init(was) == Init(now) && was != now
    requires Resolve(t, Init(was)) == Some(u) && Relabelled(t, t', u, Last(was), Last(now))
    requires !(now <= before) && Resolve(t', before) == if was <= before then None else Resolve(t, before)
    ensures Resolve(t', before + [n])
      == if before + [n] == now then Resolve(t, was) else if was <= before + [n] then None else Resolve(t, before + [n])
  {
    hide IsTree, Lookup;
    var path := before + [n];
    assert Init(path) == before && Last(path) == n;
    SameLast(path, was);
    SameLast(path, now);
    SameLast(was, now);
    ResolveSnoc(t, before, n);
    ResolveSnoc(t', before, n);
    ResolveLast(t, was);
    if Resolve(t, before) == Some(u) {
      PathsAreUnique(t, before, Init(was));
    }
    assert was <= path <==> was <= before || was == path;
  }

  lemma PrefixSnoc(a: seq<Bytes>, before: seq<Bytes>, n: Bytes)
    ensures a <= before + [n] <==> a <= before || a == before + [n]
  {
  }

  lemma MovesNext(t: Tree, t': Tree, was: seq<Bytes>, now: seq<Bytes>, u: Bytes, before: seq<Bytes>, n: Bytes)
    requires IsTree(t) && was != [] && now != [] && Init(was) == Init(now) && was != now
    requires Resolve(t, Init(was)) == Some(u) && Relabelled(t, t', u, Last(was), Last(now))
    requires Resolve(t', before) == Moved(t, was, now, before)
    ensures Resolve(t', before + [n]) == Moved(t, was, now, before + [n])
  {
    hide IsTree, Relabelled, Resolve, Last;
    PrefixSnoc(now, before, n);
    if now <= before {
      MovesBelow(t, t', was, now, u, before, n);
    } else {
      MovesBeside(t, t', was, now, u, before, n);
      assert before + [n] == now ==> was + (before + [n])[|now|..] == was;
    }
  }

  /** A rename moves a whole subtree: all of it, and nothing else. */
  lemma {:induction false} SubtreeMoves(t: Tree, t': Tree, was: seq<Bytes>, now: seq<Bytes>, u: Bytes, path: seq<Bytes>)
    requires IsTree(t) && was != [] && now != [] && Init(was) == Init(now) && was != now
    requires Resolve(t, Init(was)) == Some(u) && Relabelled(t, t', u, Last(was), Last(now))
    ensures Resolve(t', path) == Moved(t, was, now, path)
    decreases |path|
  {
    hide IsTree, Lookup, Relabelled;
    if path != [] {
      SubtreeMoves(t, t', was, now, u, Init(path));
      MovesNext(t, t', was, now, u, Init(path), Last(path));
      assert path == Init(path) + [Last(path)];
    }
  }

  /** `t` with the entry `a` of `u` renamed to `b`. */
  function Relabel(t: Tree, u: Bytes, a: Bytes, b: Bytes): Tree
    requires u in t && a in t[u].entries && t[u].entries[a] in t
  {
    var w := t[u].entries[a];
    t[u := t[u].(entries := (t[u].entries - {a})[b := w])][w := t[w].(name := b)]
  }

  lemma RelabelLookup(t: Tree, u: Bytes, a: Bytes, b: Bytes, v: Bytes, m: Bytes)
    requires IsTree(t) && u in t && a in t[u].entries && t[u].entries[a] in t && a != b
    ensures Lookup(Relabel(t, u, a, b), v, m)
      == if v != u then Lookup(t, v, m) else if m == b then Lookup(t, u, a)
         else if m == a then None else Lookup(t, u, m)
  {
    hide IsTree;
    EntryFacts(t, u, a, u, a);
    NoLoop(t, u, a);
    if v in t && m in t[v].entries {
      EntryFacts(t, u, a, v, m);
    }
  }

  /** A rename that succeeds relabels one entry of the parent. */
  lemma RenameRelabels(t: Tree, was: seq<Bytes>, now: seq<Bytes>)
    requires IsTree(t) && RenameIn(t, was, now).0 == 0
    ensures was != [] && now != [] && was != now && Init(was) == Init(now) && Last(was) != Last(now)
    ensures Resolve(t, Init(was)).Some? && Resolve(t, was).Some? && Resolve(t, now).None?
    ensures var u := Resolve(t, Init(was)).value;
      && u in t && Last(was) in t[u].entries && Last(now) !in t[u].entries
      && t[u].entries[Last(was)] in t && Resolve(t, was).value == t[u].entries[Last(was)]
      && RenameIn(t, was, now).1 == Relabel(t, u, Last(was), Last(now))
  {
    var u := Resolve(t, Init(was)).value;
    var w := t[u].entries[Last(was)];
    EntryFacts(t, u, Last(was), u, Last(was));
    ResolveLast(t, was);
    EntryLooksUp(t, u, Last(was));
    if now != [] {
      ResolveLast(t, now);
      EntryLooksUp(t, u, Last(now));
    }
    NoLoop(t, u, Last(was));
    if t[w].kind == FileKind {
      FilesAreLeaves(t, w);
    }
  }

  /**
   A rename moves a whole subtree by changing one entry: what was below the old path is below the new one, the old path
   leads nowhere, and every other path resolves as before.
   */
  lemma RenameMoves(t: Tree, was: seq<Bytes>, now: seq<Bytes>, path: seq<Bytes>)
    requires IsTree(t) && RenameIn(t, was, now).0 == 0
    ensures Resolve(RenameIn(t, was, now).1, path) == Moved(t, was, now, path)
  {
    hide IsTree, RenameIn, Resolve, Lookup, Relabel;
    RenameRelabels(t, was, now);
    var u, a, b := Resolve(t, Init(was)).value, Last(was), Last(now);
    var t' := Relabel(t, u, a, b);
    forall v, m
      ensures Lookup(t', v, m)
        == if v != u then Lookup(t, v, m) else if m == b then Lookup(t, u, a)
         else if m == a then None else Lookup(t, u, m)
    {
      RelabelLookup(t, u, a, b, v, m);
    }
    SubtreeMoves(t, t', was, now, u, path);
  }

  lemma RelabelEdge(t: Tree, u: Bytes, a: Bytes, b: Bytes, v: Bytes, m: Bytes, x: Bytes)
    requires u in t && a in t[u].entries && t[u].entries[a] in t && t[u].entries[a] != u && b !in t[u].entries
    ensures Edge(Relabel(t, u, a, b), v, m, x)
      <==> if v == u && m == b then x == t[u].entries[a] else Edge(t, v, m, x) && !(v == u && m == a)
  {
  }

  lemma RelabelGoodEdge(t: Tree, u: Bytes, a: Bytes, b: Bytes, v: Bytes, m: Bytes, x: Bytes)
    requires IsTree(t) && u in t && a in t[u].entries && t[u].entries[a] in t && b !in t[u].entries && IsName(b)
    requires Edge(Relabel(t, u, a, b), v, m, x)
    ensures GoodEdge(Relabel(t, u, a, b), v, m, x)
  {
    hide IsTree;
    EntryFacts(t, u, a, u, a);
    NoLoop(t, u, a);
    RelabelEdge(t, u, a, b, v, m, x);
    if !(v == u && m == b) {
      EntryFacts(t, u, a, v, m);
    }
  }

  lemma RelabelOneParent(t: Tree, u: Bytes, a: Bytes, b: Bytes, v: Bytes, m: Bytes, v': Bytes, m': Bytes, x: Bytes)
    requires IsTree(t) && u in t && a in t[u].entries && t[u].entries[a] in t && b !in t[u].entries
    requires Edge(Relabel(t, u, a, b), v, m, x) && Edge(Relabel(t, u, a, b), v', m', x)
    ensures v == v' && m == m'
  {
    NoLoop(t, u, a);
    RelabelEdge(t, u, a, b, v, m, x);
    RelabelEdge(t, u, a, b, v', m', x);
    assert Edge(t, u, a, t[u].entries[a]);
    hide Relabel;
  }

  lemma RelabelGoodEdges(t: Tree, u: Bytes, a: Bytes, b: Bytes)
    requires IsTree(t) && u in t && a in t[u].entries && t[u].entries[a] in t && b !in t[u].entries && IsName(b)
    ensures GoodEdges(Relabel(t, u, a, b))
  {
    hide IsTree, Edge, GoodEdge, Relabel;
    var t' := Relabel(t, u, a, b);
    forall v, m, x | Edge(t', v, m, x)
      ensures GoodEdge(t', v, m, x)
    {
      RelabelGoodEdge(t, u, a, b, v, m, x);
    }
    forall v, m, v', m', x | Edge(t', v, m, x) && Edge(t', v', m', x)
      ensures v == v' && m == m'
    {
      RelabelOneParent(t, u, a, b, v, m, v', m', x);
    }
  }

  lemma RelabelIsTree(t: Tree, u: Bytes, a: Bytes, b: Bytes)
    requires IsTree(t) && u in t && a in t[u].entries && t[u].entries[a] in t && GoodEdges(Relabel(t, u, a, b))
    requires forall v :: v in t ==> Reachable(Relabel(t, u, a, b), v)
    ensures IsTree(Relabel(t, u, a, b))
  {
    EntryFacts(t, u, a, u, a);
    hide Edge, GoodEdge, Reachable;
  }

  lemma RenameReaches(t: Tree, was: seq<Bytes>, now: seq<Bytes>)
    requires IsTree(t) && RenameIn(t, was, now).0 == 0
    ensures forall v :: v in t ==> Reachable(RenameIn(t, was, now).1, v)
  {
    hide RenameIn, Resolve;
    RenameRelabels(t, was, now);
    var t' := RenameIn(t, was, now).1;
    forall v | v in t
      ensures Reachable(t', v)
    {
      assert Reachable(t, v);
      var path :| Resolve(t, path) == Some(v);
      var path' := if was <= path then now + path[|was|..] else path;
      RenameMoves(t, was, now, path');
      if was <= path {
        assert path'[|now|..] == path[|was|..] && was + path[|was|..] == path;
      } else if now <= path {
        NothingBelow(t, now, path);
      }
    }
  }

  lemma RenameKeepsTree(t: Tree, was: seq<Bytes>, now: seq<Bytes>)
    requires IsTree(t) && Names(now)
    ensures IsTree(RenameIn(t, was, now).1)
  {
    if RenameIn(t, was, now).0 == 0 {
      RenameRelabels(t, was, now);
      hide IsTree, RenameIn, Resolve, Relabel;
      var u, a, b := Resolve(t, Init(was)).value, Last(was), Last(now);
      assert b in now;
      RelabelGoodEdges(t, u, a, b);
      RenameReaches(t, was, now);
      RelabelIsTree(t, u, a, b);
    }
  }

  // ----- rights and listings -----

  lemma {:induction false} SameWalks(t: Tree, t': Tree, u: Bytes, cs: seq<Bytes>)
    requires forall v, m :: Lookup(t', v, m) == Lookup(t, v, m)
    ensures Walk(t', u, cs) == Walk(t, u, cs)
    decreases |cs|
  {
    if cs != [] && Lookup(t, u, cs[0]).Some? {
      SameWalks(t, t', Lookup(t, u, cs[0]).value, cs[1..]);
    }
  }

  /** The two differ in rights and content only. */
  predicate SameShape(a: Node, b: Node) {
    a.kind == b.kind && a.name == b.name && a.entries == b.entries
  }

  lemma ShapeResolves(t: Tree, u: Bytes, node: Node, path: seq<Bytes>)
    requires u in t && SameShape(t[u], node)
    ensures Resolve(t[u := node], path) == Resolve(t, path)
  {
    var t' := t[u := node];
    assert forall v, m :: Lookup(t', v, m) == Lookup(t, v, m);
    SameWalks(t, t', ROOT_UUID, path);
  }

  lemma ShapeEdges(t: Tree, u: Bytes, node: Node)
    requires IsTree(t) && u in t && SameShape(t[u], node)
    ensures GoodEdges(t[u := node])
  {
    var t' := t[u := node];
    assert forall v, m, x :: Edge(t', v, m, x) <==> Edge(t, v, m, x);
    assert forall v, m, x :: Edge(t, v, m, x) ==> GoodEdge(t, v, m, x);
    hide Reachable;
  }

  /** Rights and content of a node are not part of the tree. */
  lemma ShapeKeepsTree(t: Tree, u: Bytes, node: Node, path: seq<Bytes>)
    requires IsTree(t) && u in t && SameShape(t[u], node)
    ensures IsTree(t[u := node]) && Resolve(t[u := node], path) == Resolve(t, path)
  {
    var t' := t[u := node];
    ShapeResolves(t, u, node, path);
    ShapeEdges(t, u, node);
    forall v | v in t'
      ensures Reachable(t', v)
    {
      assert Reachable(t, v);
      var p :| Resolve(t, p) == Some(v);
      ShapeResolves(t, u, node, p);
    }
    hide Edge, GoodEdge, Reachable, Resolve;
  }

  lemma EditKeepsTree(t: Tree, cs: seq<Bytes>, rights: Rights, target: Bytes, known: bool, user: Bytes,
                      path: seq<Bytes>)
    requires IsTree(t)
    ensures var t' := EditIn(t, cs, rights, target, known, user).1; IsTree(t') && Resolve(t', path) == Resolve(t, path)
  {
    if EditIn(t, cs, rights, target, known, user).0 == 0 {
      var u := Resolve(t, cs).value;
      if t[u].kind == FileKind {
        FilesAreLeaves(t, u);
      }
      hide IsTree;
      ShapeKeepsTree(t, u, t[u].(rights := t[u].rights[CString(target) := rights]), path);
    }
  }

  lemma WriteKeepsShape(node: Node, bs: nat, offset: nat, data: Bytes, user: Bytes)
    requires bs > 0
    ensures SameShape(node, WriteTo(node, bs, offset, data, user).1)
  {
  }

  lemma TruncateKeepsShape(node: Node, newSize: nat, user: Bytes)
    ensures SameShape(node, TruncateTo(node, newSize, user).1)
  {
  }

  /** A write or a truncation keeps the tree and every resolution, and changes no node but the file. */
  lemma WriteKeepsTree(t: Tree, bs: nat, cs: seq<Bytes>, offset: nat, data: Bytes, user: Bytes, path: seq<Bytes>)
    requires IsTree(t) && bs > 0
    ensures var t' := WriteIn(t, bs, cs, offset, data, user).1;
      && IsTree(t') && Resolve(t', path) == Resolve(t, path) && t'.Keys == t.Keys
      && forall u :: u in t && FileAt(t, cs) != Some(u) ==> t'[u] == t[u]
  {
    hide IsTree, Resolve, Allows;
    if FileAt(t, cs).Some? {
      var u := FileAt(t, cs).value;
      ShapeKeepsTree(t, u, WriteTo(t[u], bs, offset, data, user).1, path);
    }
  }

  lemma TruncateKeepsTree(t: Tree, cs: seq<Bytes>, newSize: nat, user: Bytes, path: seq<Bytes>)
    requires IsTree(t)
    ensures var t' := TruncateIn(t, cs, newSize, user).1;
      && IsTree(t') && Resolve(t', path) == Resolve(t, path) && t'.Keys == t.Keys
      && forall u :: u in t && FileAt(t, cs) != Some(u) ==> t'[u] == t[u]
  {
    hide IsTree, Resolve, Allows;
    if FileAt(t, cs).Some? {
      var u := FileAt(t, cs).value;
      ShapeKeepsTree(t, u, TruncateTo(t[u], newSize, user).1, path);
    }
  }

  lemma EntryName(t: Tree, u: Bytes, n: Bytes)
    requires IsTree(t) && u in t && n in t[u].entries
    ensures t[u].entries[n] in t && t[t[u].entries[n]].name == n
  {
    EntryFacts(t, u, n, u, n);
  }

  lemma {:induction false} VisibleExact(t: Tree, u: Bytes, ks: seq<Bytes>, user: Bytes)
    requires IsTree(t) && u in t && forall k :: k in ks ==> k in t[u].entries && t[u].entries[k] in t
    requires forall i, j :: 0 <= i < j < |ks| ==> ks[i] != ks[j]
    ensures var r := Visible(t, t[u].entries, ks, user);
      && (forall k :: k in r <==> k in ks && Sees(t[t[u].entries[k]], user))
      && (forall i, j :: 0 <= i < j < |r| ==> r[i] != r[j])
  {
    hide IsTree, Sees, GoodEdge;
    if ks != [] {
      var init, last := ks[..|ks| - 1], ks[|ks| - 1];
      VisibleExact(t, u, init, user);
      EntryName(t, u, last);
      assert ks == init + [last];
    }
  }

  /** A listing has every entry that the user may see, once, under the name it is looked up by. */
  lemma ListingExact(t: Tree, u: Bytes, user: Bytes)
    requires IsTree(t) && u in t
    ensures forall k :: k in KeyList(t[u].entries) ==> k in t[u].entries && t[u].entries[k] in t
    ensures var r := Visible(t, t[u].entries, KeyList(t[u].entries), user);
      && (forall n :: n in r <==> Lookup(t, u, n).Some? && Sees(t[Lookup(t, u, n).value], user))
      && (forall i, j :: 0 <= i < j < |r| ==> r[i] != r[j])
  {
    KeyListAll(t[u].entries);
    forall k | k in t[u].entries
      ensures t[u].entries[k] in t && Lookup(t, u, k) == Some(t[u].entries[k])
    {
      EntryFacts(t, u, k, u, k);
      EntryLooksUp(t, u, k);
    }
    hide IsTree, Sees;
    VisibleExact(t, u, KeyList(t[u].entries), user);
  }
}
