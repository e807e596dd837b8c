/** How db/file.c lays the database out in directories, and what the layout stands for. */
module ShisaTree {
  import opened MachineInts
  import opened Strings
  import opened Escape
  import opened FileSystem
  import opened KeyFile
  import opened ShisaDatabase

  // ----- The layout -----

  /** The files in the keys directory of a principal, by name. */
  type Files = map<string, ShisaKey>

  /** The directory of a principal, without or with its keys directory. */
  datatype Entry = Bare | Keyed(files: Files)

  /** Directories of realms, and in them directories of principals, by file name. */
  type Tree = map<string, map<string, Entry>>

  /** The node at a place below the location of the database. */
  function NodeAt(t: Tree, q: Place): Option<Node> {
    if q == [] then Some(Dir)
    else if q[0] !in t then None
    else if |q| == 1 then Some(Dir)
    else if q[1] !in t[q[0]] then None
    else NodeIn(t[q[0]][q[1]], q[2..])
  }

  /** The node at a place below the directory of a principal. */
  function NodeIn(e: Entry, q: Place): Option<Node> {
    if q == [] then Some(Dir)
    else if e.Bare? || q[0] != "keys" then None
    else if |q| == 1 then Some(Dir)
    else if |q| == 2 && q[1] in e.files then Some(File(Encoded(e.files[q[1]])))
    else None
  }

  /** The file system contains this tree, and nothing else, below the place r. */
  ghost predicate Mirrors(nodes: Nodes, r: Place, t: Tree) {
    forall q :: At(nodes, r + q) == NodeAt(t, q)
  }

  function WithEntry(t: Tree, x: string, y: string, e: Entry): Tree
    requires x in t
  {
    t[x := t[x][y := e]]
  }

  /** Where the trees differ the file system has been changed accordingly. */
  lemma MirrorsChange(nodes: Nodes, nodes': Nodes, r: Place, t: Tree, t': Tree, q0: Place)
    requires Mirrors(nodes, r, t)
    requires forall p :: p != r + q0 ==> At(nodes', p) == At(nodes, p)
    requires At(nodes', r + q0) == NodeAt(t', q0)
    requires forall q :: q != q0 ==> NodeAt(t', q) == NodeAt(t, q)
    ensures Mirrors(nodes', r, t')
  {
    hide NodeAt, At;
    forall q
      ensures At(nodes', r + q) == NodeAt(t', q)
    {
      assert (r + q)[|r|..] == q && (r + q0)[|r|..] == q0;
    }
  }

  // How each change of the tree shows in its nodes.

  lemma RealmNode(t: Tree, x: string)
    requires x !in t || t[x] == map[]
    ensures forall q :: q != [x] ==> NodeAt(t[x := map[]], q) == NodeAt(t - {x}, q) == NodeAt(t, q)
    ensures NodeAt(t[x := map[]], [x]) == Some(Dir) && NodeAt(t - {x}, [x]) == None
  {
    hide NodeIn;
  }

  lemma BareNode(t: Tree, x: string, y: string)
    requires x in t && (y !in t[x] || t[x][y] == Bare)
    ensures forall q :: q != [x, y] ==>
              NodeAt(WithEntry(t, x, y, Bare), q) == NodeAt(t[x := t[x] - {y}], q) == NodeAt(t, q)
    ensures NodeAt(WithEntry(t, x, y, Bare), [x, y]) == Some(Dir) && NodeAt(t[x := t[x] - {y}], [x, y]) == None
  {
    forall q | q != [x, y]
      ensures NodeAt(WithEntry(t, x, y, Bare), q) == NodeAt(t[x := t[x] - {y}], q) == NodeAt(t, q)
    {
      if |q| >= 2 && q[0] == x && q[1] == y {
        assert q[2..] == [] ==> q == [x, y];
      }
    }
  }

  /** A change of an entry that is there before and after. */
  lemma EntryNode(t: Tree, x: string, y: string, e: Entry, q0: Place)
    requires x in t && y in t[x] && q0 != []
    requires forall q :: q != q0 ==> NodeIn(e, q) == NodeIn(t[x][y], q)
    ensures forall q :: q != [x, y] + q0 ==> NodeAt(WithEntry(t, x, y, e), q) == NodeAt(t, q)
    ensures NodeAt(WithEntry(t, x, y, e), [x, y] + q0) == NodeIn(e, q0)
  {
    hide NodeIn;
    forall q | q != [x, y] + q0
      ensures NodeAt(WithEntry(t, x, y, e), q) == NodeAt(t, q)
    {
      if |q| >= 2 && q[0] == x && q[1] == y {
        assert q == [x, y] + q[2..];
      }
    }
    assert ([x, y] + q0)[2..] == q0;
  }

  lemma KeysNode()
    ensures forall q :: q != ["keys"] ==> NodeIn(Keyed(map[]), q) == NodeIn(Bare, q)
    ensures NodeIn(Keyed(map[]), ["keys"]) == Some(Dir) && NodeIn(Bare, ["keys"]) == None
  {
  }

  lemma FileNode(files: Files, f: string, k: ShisaKey)
    ensures forall q :: q != ["keys", f] ==>
              NodeIn(Keyed(files[f := k]), q) == NodeIn(Keyed(files), q) == NodeIn(Keyed(files - {f}), q)
    ensures NodeIn(Keyed(files[f := k]), ["keys", f]) == Some(File(Encoded(k)))
    ensures NodeIn(Keyed(files - {f}), ["keys", f]) == None
  {
    hide Encoded;
  }

  // The same for the file system: what is where, and how making and removing it changes the tree.

  lemma MirrorsPut(nodes: Nodes, r: Place, t: Tree, t': Tree, q: Place, n: Node)
    requires Mirrors(nodes, r, t) && NodeAt(t', q) == Some(n)
    requires forall q' :: q' != q ==> NodeAt(t', q') == NodeAt(t, q')
    ensures Mirrors(nodes[r + q := n], r, t')
  {
    hide NodeAt, Mirrors;
    MirrorsChange(nodes, nodes[r + q := n], r, t, t', q);
  }

  lemma MirrorsDrop(nodes: Nodes, r: Place, t: Tree, t': Tree, q: Place)
    requires Mirrors(nodes, r, t) && NodeAt(t', q) == None
    requires forall q' :: q' != q ==> NodeAt(t', q') == NodeAt(t, q')
    ensures Mirrors(nodes - {r + q}, r, t')
  {
    hide NodeAt, Mirrors;
    MirrorsChange(nodes, nodes - {r + q}, r, t, t', q);
  }

  lemma MirrorsAt(nodes: Nodes, r: Place, t: Tree, q: Place, last: string)
    requires Mirrors(nodes, r, t)
    ensures At(nodes, r + q) == NodeAt(t, q)
    ensures r + (q + [last]) == r + q + [last] && At(nodes, r + q + [last]) == NodeAt(t, q + [last])
    ensures r + q + [last] != [] && (HasParent(nodes, r + q + [last]) <==> NodeAt(t, q) == Some(Dir))
  {
    hide NodeAt;
    assert r + (q + [last]) == r + q + [last];
    assert (r + q + [last])[..|r + q + [last]| - 1] == r + q;
  }

  /** No node below an empty directory. */
  lemma MirrorsEmpty(nodes: Nodes, r: Place, t: Tree, q: Place)
    requires Mirrors(nodes, r, t) && NodeAt(t, q) == Some(Dir)
    requires forall name :: NodeAt(t, q + [name]) == None
    ensures IsEmptyDir(nodes, r + q)
  {
    hide NodeAt, Mirrors;
    MirrorsAt(nodes, r, t, q, "");
    forall name
      ensures r + q + [name] !in nodes
    {
      MirrorsAt(nodes, r, t, q, name);
    }
  }

  /** The directory of a realm. */
  lemma RealmDir(nodes: Nodes, r: Place, t: Tree, x: string)
    requires Mirrors(nodes, r, t)
    ensures At(nodes, r + [x]) == (if x in t then Some(Dir) else None) && HasParent(nodes, r + [x])
    ensures x !in t ==> Mirrors(nodes[r + [x] := Dir], r, t[x := map[]])
    ensures x in t && t[x] == map[] ==> IsEmptyDir(nodes, r + [x]) && Mirrors(nodes - {r + [x]}, r, t - {x})
  {
    hide Mirrors, NodeIn;
    MirrorsAt(nodes, r, t, [], x);
    assert [] + [x] == [x] && r + [] == r;
    if x !in t {
      RealmNode(t, x);
      MirrorsPut(nodes, r, t, t[x := map[]], [x], Dir);
    } else if t[x] == map[] {
      RealmNode(t, x);
      MirrorsEmpty(nodes, r, t, [x]);
      MirrorsDrop(nodes, r, t, t - {x}, [x]);
    }
  }

  /** The directory of a principal. */
  lemma PrincipalDir(nodes: Nodes, r: Place, t: Tree, x: string, y: string)
    requires Mirrors(nodes, r, t)
    ensures At(nodes, r + [x, y]) == (if x in t && y in t[x] then Some(Dir) else None)
    ensures x in t ==> HasParent(nodes, r + [x, y])
    ensures x in t && y !in t[x] ==> Mirrors(nodes[r + [x, y] := Dir], r, WithEntry(t, x, y, Bare))
    ensures x in t && y in t[x] && t[x][y] == Bare ==>
              IsEmptyDir(nodes, r + [x, y]) && Mirrors(nodes - {r + [x, y]}, r, t[x := t[x] - {y}])
  {
    hide Mirrors;
    MirrorsAt(nodes, r, t, [x], y);
    assert [x] + [y] == [x, y] && r + [x, y] == r + [x] + [y];
    if x in t && y !in t[x] {
      BareNode(t, x, y);
      MirrorsPut(nodes, r, t, WithEntry(t, x, y, Bare), [x, y], Dir);
    } else if x in t && t[x][y] == Bare {
      BareNode(t, x, y);
      MirrorsEmpty(nodes, r, t, [x, y]);
      MirrorsDrop(nodes, r, t, t[x := t[x] - {y}], [x, y]);
    }
  }

  /** The keys directory of a principal. */
  lemma KeysDir(nodes: Nodes, r: Place, t: Tree, x: string, y: string)
    requires Mirrors(nodes, r, t)
    ensures !(x in t && y in t[x]) ==> At(nodes, r + [x, y, "keys"]) == None && !HasParent(nodes, r + [x, y, "keys"])
    ensures x in t && y in t[x] ==>
              && HasParent(nodes, r + [x, y, "keys"])
              && At(nodes, r + [x, y, "keys"]) == (if t[x][y].Keyed? then Some(Dir) else None)
              && (t[x][y] == Bare ==> Mirrors(nodes[r + [x, y, "keys"] := Dir], r, WithEntry(t, x, y, Keyed(map[]))))
              && (t[x][y] == Keyed(map[]) ==>
                    && IsEmptyDir(nodes, r + [x, y, "keys"])
                    && Mirrors(nodes - {r + [x, y, "keys"]}, r, WithEntry(t, x, y, Bare)))
  {
    hide Mirrors;
    var q := [x, y, "keys"];
    MirrorsAt(nodes, r, t, [x, y], "keys");
    assert [x, y] + ["keys"] == q && r + q == r + [x, y] + ["keys"];
    KeysNode();
    if x in t && y in t[x] {
      if t[x][y] == Bare {
        EntryNode(t, x, y, Keyed(map[]), ["keys"]);
        MirrorsPut(nodes, r, t, WithEntry(t, x, y, Keyed(map[])), q, Dir);
      } else if t[x][y] == Keyed(map[]) {
        EntryNode(t, x, y, Bare, ["keys"]);
        MirrorsEmpty(nodes, r, t, q);
        MirrorsDrop(nodes, r, t, WithEntry(t, x, y, Bare), q);
      }
    }
  }

  /** The file of a key. */
  lemma KeyFileAt(nodes: Nodes, r: Place, t: Tree, x: string, y: string, f: string, k: ShisaKey)
    requires Mirrors(nodes, r, t) && x in t && y in t[x] && t[x][y].Keyed?
    ensures HasParent(nodes, r + [x, y, "keys", f])
    ensures var files := t[x][y].files;
            && At(nodes, r + [x, y, "keys", f]) == (if f in files then Some(File(Encoded(files[f]))) else None)
            && (f !in files ==>
                  Mirrors(nodes[r + [x, y, "keys", f] := File(Encoded(k))], r,
                          WithEntry(t, x, y, Keyed(files[f := k]))))
            && (f in files ==> Mirrors(nodes - {r + [x, y, "keys", f]}, r, WithEntry(t, x, y, Keyed(files - {f}))))
  {
    hide Mirrors, Encoded;
    var q, files := [x, y, "keys", f], t[x][y].files;
    MirrorsAt(nodes, r, t, [x, y, "keys"], f);
    assert [x, y, "keys"] + [f] == q && r + q == r + [x, y, "keys"] + [f] && q == [x, y] + ["keys", f];
    FileNode(files, f, k);
    if f !in files {
      EntryNode(t, x, y, Keyed(files[f := k]), ["keys", f]);
      MirrorsPut(nodes, r, t, WithEntry(t, x, y, Keyed(files[f := k])), q, File(Encoded(k)));
    } else {
      EntryNode(t, x, y, Keyed(files - {f}), ["keys", f]);
      MirrorsDrop(nodes, r, t, WithEntry(t, x, y, Keyed(files - {f})), q);
    }
  }

  /** What a listing shows: the files of the keys, and the directories of the principals. */
  lemma Listed(nodes: Nodes, r: Place, t: Tree, x: string, y: string, names: seq<string>)
    requires Mirrors(nodes, r, t) && x in t
    ensures IsListing(nodes, r + [x], names) ==>
              && (forall n :: n in names <==> n in t[x])
              && forall n :: n in names ==> At(nodes, r + [x] + [n]) == Some(Dir)
    ensures y in t[x] && t[x][y].Keyed? && IsListing(nodes, r + [x, y, "keys"], names) ==>
              Distinct(names) && forall n :: n in names <==> n in t[x][y].files
  {
    hide Mirrors;
    if IsListing(nodes, r + [x], names) {
      forall n
        ensures n in names <==> n in t[x]
        ensures n in names ==> At(nodes, r + [x] + [n]) == Some(Dir)
      {
        MirrorsAt(nodes, r, t, [x], n);
      }
    }
    if y in t[x] && t[x][y].Keyed? && IsListing(nodes, r + [x, y, "keys"], names) {
      forall n
        ensures n in names <==> n in t[x][y].files
      {
        MirrorsAt(nodes, r, t, [x, y, "keys"], n);
      }
    }
  }

  // ----- The bag in a directory of keys -----

  /** The keys in the files. */
  ghost function KeysIn(files: Files): multiset<ShisaKey>
    decreases |files|
  {
    if files == map[] then multiset{}
    else
      var f :| f in files;
      multiset{files[f]} + KeysIn(files - {f})
  }

  lemma KeysPick(files: Files) returns (g: string)
    requires files != map[]
    ensures g in files && KeysIn(files) == multiset{files[g]} + KeysIn(files - {g})
  {
    g :| g in files && KeysIn(files) == multiset{files[g]} + KeysIn(files - {g});
  }

  lemma {:induction false} KeysWithout(files: Files, f: string)
    requires f in files
    ensures KeysIn(files) == multiset{files[f]} + KeysIn(files - {f})
    decreases |files|
  {
    hide KeysIn;
    var g := KeysPick(files);
    if g != f {
      var both := KeysIn(files - {g} - {f});
      KeysWithout(files - {g}, f);
      SmallerWithout(files, f);
      KeysWithout(files - {f}, g);
      assert files - {g} - {f} == files - {f} - {g};
      assert multiset{files[g]} + (multiset{files[f]} + both) == multiset{files[f]} + (multiset{files[g]} + both);
    }
  }

  lemma SmallerWithout(files: Files, f: string)
    requires f in files
    ensures |files - {f}| < |files|
  {
    assert (files - {f})[f := files[f]] == files;
  }

  lemma KeysWith(files: Files, f: string, k: ShisaKey)
    requires f !in files
    ensures KeysIn(files[f := k]) == KeysIn(files) + multiset{k}
  {
    KeysWithout(files[f := k], f);
    assert files[f := k] - {f} == files;
  }

  /** The keys in these files. */
  function KeysNamed(files: Files, names: seq<string>): (keys: seq<ShisaKey>)
    requires forall i :: 0 <= i < |names| ==> names[i] in files
    ensures |keys| == |names| && forall i :: 0 <= i < |names| ==> keys[i] == files[names[i]]
  {
    seq(|names|, i requires 0 <= i < |names| => files[names[i]])
  }

  predicate Distinct(names: seq<string>) {
    forall i, j :: 0 <= i < j < |names| ==> names[i] != names[j]
  }

  /** Listing every file once lists every key as often as it is there. */
  lemma {:induction false} KeysListed(files: Files, names: seq<string>)
    requires Distinct(names) && forall f :: f in files <==> f in names
    ensures multiset(KeysNamed(files, names)) == KeysIn(files)
    decreases |names|
  {
    hide KeysIn;
    if names == [] {
      assert files == map[];
      NoKeysIn();
    } else {
      var n := |names| - 1;
      var f, rest := names[n], names[..n];
      var files' := files - {f};
      KeysWithout(files, f);
      assert forall g :: g in files' <==> g in rest;
      KeysListed(files', rest);
      assert KeysNamed(files, names) == KeysNamed(files', rest) + [files[f]];
    }
  }

  lemma NoKeysIn()
    ensures KeysIn(map[]) == multiset{}
  {
  }

  // ----- What the tree stands for -----

  ghost function BagFor(e: Entry): Bag {
    match e
    case Bare => None
    case Keyed(files) => Some(KeysIn(files))
  }

  /** Each good name is in d exactly when its file name is in t, and what they lead to is related. */
  ghost predicate Stands<A, B>(t: map<string, A>, d: map<string, B>, related: (A, B) -> bool) {
    && (forall n :: n in d ==> GoodName(n) && Escaped(n) in t && related(t[Escaped(n)], d[n]))
    && (forall x :: x in t ==> exists n :: n in d && GoodName(n) && Escaped(n) == x)
  }

  ghost predicate SameBag(e: Entry, b: Bag) {
    BagFor(e) == b
  }

  ghost predicate SameRealm(t: map<string, Entry>, d: Realm) {
    Stands(t, d, SameBag)
  }

  /** The tree stands for the database. */
  ghost predicate Represents(t: Tree, db: Database) {
    Stands(t, db, SameRealm)
  }

  /** Looking for the file name is looking for the name: here the escaping must be injective. */
  lemma StandsLookup<A, B>(t: map<string, A>, d: map<string, B>, related: (A, B) -> bool, n: string)
    requires Stands(t, d, related) && GoodName(n)
    ensures Escaped(n) in t <==> n in d
    ensures n in d ==> related(t[Escaped(n)], d[n])
  {
    if Escaped(n) in t {
      var m :| m in d && GoodName(m) && Escaped(m) == Escaped(n);
      EscapedInjective(m, n);
    }
  }

  lemma StandsEmpty<A, B>(t: map<string, A>, d: map<string, B>, related: (A, B) -> bool)
    requires Stands(t, d, related)
    ensures t == map[] <==> d == map[]
  {
    if d != map[] {
      var n :| n in d;
      assert Escaped(n) in t;
    }
    if t != map[] {
      var x :| x in t;
      var n :| n in d && GoodName(n) && Escaped(n) == x;
    }
  }

  lemma StandsWith<A, B>(t: map<string, A>, d: map<string, B>, related: (A, B) -> bool, n: string, a: A, b: B)
    requires Stands(t, d, related) && GoodName(n) && related(a, b)
    ensures Stands(t[Escaped(n) := a], d[n := b], related)
  {
    hide Escaped;
    var t', d' := t[Escaped(n) := a], d[n := b];
    forall m | m in d'
      ensures GoodName(m) && Escaped(m) in t' && related(t'[Escaped(m)], d'[m])
    {
      if m != n && Escaped(m) == Escaped(n) {
        EscapedInjective(m, n);
      }
    }
    forall x | x in t'
      ensures exists m :: m in d' && GoodName(m) && Escaped(m) == x
    {
      if x == Escaped(n) {
        assert n in d';
      } else {
        var m :| m in d && GoodName(m) && Escaped(m) == x;
        assert m in d';
      }
    }
  }

  lemma StandsWithout<A, B>(t: map<string, A>, d: map<string, B>, related: (A, B) -> bool, n: string)
    requires Stands(t, d, related) && GoodName(n)
    ensures Stands(t - {Escaped(n)}, d - {n}, related)
  {
    hide Escaped;
    var t', d' := t - {Escaped(n)}, d - {n};
    forall m | m in d'
      ensures GoodName(m) && Escaped(m) in t' && related(t'[Escaped(m)], d'[m])
    {
      if Escaped(m) == Escaped(n) {
        EscapedInjective(m, n);
      }
    }
    forall x | x in t'
      ensures exists m :: m in d' && GoodName(m) && Escaped(m) == x
    {
      var m :| m in d && GoodName(m) && Escaped(m) == x;
      assert m in d';
    }
  }

  // The changes of the tree against the changes of the database.

  lemma EmptyRepresents()
    ensures Represents(map[], map[]) && SameRealm(map[], map[])
  {
  }

  lemma RealmLookup(t: Tree, db: Database, realm: string)
    requires Represents(t, db) && GoodName(realm)
    ensures Escaped(realm) in t <==> realm in db
    ensures realm in db ==> (t[Escaped(realm)] == map[] <==> db[realm] == map[])
  {
    hide Escaped, Stands;
    StandsLookup(t, db, SameRealm, realm);
    if realm in db {
      StandsEmpty(t[Escaped(realm)], db[realm], SameBag);
    }
  }

  lemma PrincipalLookup(t: Tree, db: Database, realm: string, principal: string)
    requires Represents(t, db) && GoodName(realm) && GoodName(principal)
    ensures var x, y := Escaped(realm), Escaped(principal);
            && ((x in t && y in t[x]) <==> BagOf(db, realm, principal).Some?)
            && (x in t && y in t[x] ==> BagOf(db, realm, principal) == Some(BagFor(t[x][y])))
  {
    hide Escaped, Stands, BagFor;
    StandsLookup(t, db, SameRealm, realm);
    if realm in db {
      StandsLookup(t[Escaped(realm)], db[realm], SameBag, principal);
    }
  }

  lemma RealmChange(t: Tree, db: Database, realm: string)
    requires Represents(t, db) && GoodName(realm)
    ensures Represents(t[Escaped(realm) := map[]], db[realm := map[]])
    ensures Represents(t - {Escaped(realm)}, db - {realm})
  {
    hide Escaped, Stands;
    EmptyRepresents();
    StandsWith(t, db, SameRealm, realm, map[], map[]);
    StandsWithout(t, db, SameRealm, realm);
  }

  lemma PrincipalChange(t: Tree, db: Database, realm: string, principal: string, e: Entry, b: Bag)
    requires Represents(t, db) && GoodName(realm) && GoodName(principal) && realm in db && BagFor(e) == b
    ensures Escaped(realm) in t
    ensures Represents(WithEntry(t, Escaped(realm), Escaped(principal), e), WithBag(db, realm, principal, b))
    ensures Represents(t[Escaped(realm) := t[Escaped(realm)] - {Escaped(principal)}],
                       db[realm := db[realm] - {principal}])
  {
    hide Escaped, Stands, BagFor;
    var x, y := Escaped(realm), Escaped(principal);
    StandsLookup(t, db, SameRealm, realm);
    StandsWith(t[x], db[realm], SameBag, principal, e, b);
    StandsWith(t, db, SameRealm, realm, t[x][y := e], db[realm][principal := b]);
    StandsWithout(t[x], db[realm], SameBag, principal);
    StandsWith(t, db, SameRealm, realm, t[x] - {y}, db[realm] - {principal});
  }
}
