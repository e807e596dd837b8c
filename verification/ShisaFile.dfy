/** db/file.c: the operations of the file backend, on a file system. */
module ShisaFile {
  import opened MachineInts
  import opened Numerals
  import opened Strings
  import opened Escape
  import opened FileSystem
  import opened KeyFile
  import opened ShisaDatabase
  import opened ShisaTree

  // ----- Path names -----

  lemma EscapedIsEntry(name: string)
    requires GoodName(name)
    ensures IsEntryName(Escaped(name))
  {
    hide Escaped;
    EscapedIsComponent(name);
  }

  /** asprintf (&tmp, "%s/%s", path1, saferealm) */
  method Path2(path: string, realm: string) returns (tmp: string)
    requires GoodName(realm)
    ensures Resolve(tmp) == Resolve(path) + [Escaped(realm)]
  {
    hide Resolve, Escaped;
    var safe, n := EscapeFilename(realm);
    tmp := path + "/" + safe[..n];
    EscapedIsEntry(realm);
    ResolveEntry(path, Escaped(realm));
  }

  /** asprintf (&tmp, "%s/%s/%s", path1, saferealm, safeprincipal) */
  method Path3(path: string, realm: string, principal: string) returns (tmp: string)
    requires GoodName(realm) && GoodName(principal)
    ensures Resolve(tmp) == Resolve(path) + [Escaped(realm), Escaped(principal)]
  {
    hide Resolve, Escaped;
    var safe, n := EscapeFilename(principal);
    tmp := Path2(path, realm);
    EscapedIsEntry(principal);
    ResolveEntry(tmp, Escaped(principal));
    tmp := tmp + "/" + safe[..n];
  }

  /** asprintf (&tmp, "%s/%s/%s/%s", path1, saferealm, safeprincipal, path4), where path4 may have two parts. */
  method Path4(path: string, realm: string, principal: string, path4: string) returns (tmp: string)
    requires GoodName(realm) && GoodName(principal)
    ensures var p := Resolve(path) + [Escaped(realm), Escaped(principal)];
            && (IsEntryName(path4) ==> Resolve(tmp) == p + [path4])
            && forall name {:trigger KeyPath(name)} ::
                 IsEntryName(name) && path4 == KeyPath(name) ==> Resolve(tmp) == p + ["keys", name]
  {
    hide Resolve, Escaped;
    var dir := Path3(path, realm, principal);
    tmp := dir + "/" + path4;
    if IsEntryName(path4) {
      ResolveEntry(dir, path4);
    }
    forall name | IsEntryName(name) && path4 == KeyPath(name)
      ensures Resolve(tmp) == Resolve(dir) + ["keys", name]
    {
      ResolveKey(dir, name);
    }
  }

  /** keys/NAME */
  function KeyPath(name: string): string { "keys/" + name }

  lemma ResolveKey(dir: string, name: string)
    requires IsEntryName(name)
    ensures Resolve(dir + "/" + KeyPath(name)) == Resolve(dir) + ["keys", name]
  {
    hide Resolve;
    ResolveEntry(dir, "keys");
    ResolveEntry(dir + "/" + "keys", name);
    assert dir + "/" + "keys" + "/" + name == dir + "/" + KeyPath(name);
  }

  // ----- Listing -----

  /** `ls` with onlydir == 0: the names are read back from their escaped form. */
  method Ls(fs: System, path: string) returns (files: Option<seq<string>>, ghost raw: seq<string>)
    ensures files.None? <==> At(fs.nodes, Resolve(path)) != Some(Dir)
    ensures files.Some? ==> IsListing(fs.nodes, Resolve(path), raw) && |files.value| == |raw|
    ensures files.Some? ==> forall i :: 0 <= i < |raw| ==> files.value[i] == Unescaped(raw[i])
  {
    var names := fs.List(path);
    if names.None? {
      return None, [];
    }
    raw := names.value;
    var list := [];
    for i := 0 to |names.value|
      invariant |list| == i && forall j :: 0 <= j < i ==> list[j] == Unescaped(raw[j])
    {
      var name, n := UnescapeFilename(names.value[i]);
      list := list + [name[..n]];
    }
    files := Some(list);
  }

  /** `ls` with onlydir == 1 and no list wanted: how many of the entries are directories. */
  method CountDirs(fs: System, path: string) returns (count: Option<nat>, ghost raw: seq<string>)
    ensures count.None? <==> At(fs.nodes, Resolve(path)) != Some(Dir)
    ensures count.Some? ==> IsListing(fs.nodes, Resolve(path), raw)
    ensures count.Some? && (forall i :: 0 <= i < |raw| ==> At(fs.nodes, Resolve(path + "/" + raw[i])) == Some(Dir)) ==>
              count.value == |raw|
  {
    hide Resolve;
    var names := fs.List(path);
    if names.None? {
      return None, [];
    }
    raw := names.value;
    var n := 0;
    for i := 0 to |names.value|
      invariant n <= i
      invariant (forall j :: 0 <= j < i ==> At(fs.nodes, Resolve(path + "/" + raw[j])) == Some(Dir)) ==> n == i
    {
      var dir := fs.IsDir(path + "/" + names.value[i]);
      if dir {
        n := n + 1;
      }
    }
    count := Some(n);
  }

  // ----- Names of key files -----

  /** keys/%d-%d-%zu.key without the directory */
  function FileName(kvno: UInt32, etype: Int32, num: nat): string {
    Printed(Wrap32(kvno)) + "-" + Printed(etype) + "-" + (Numeral(num, 10) + ".key")
  }

  lemma FileNameInjective(kvno: UInt32, etype: Int32, m: nat, n: nat)
    requires FileName(kvno, etype, m) == FileName(kvno, etype, n)
    ensures m == n
  {
    hide Numeral, Printed;
    var head := Printed(Wrap32(kvno)) + "-" + Printed(etype) + "-";
    var s, t := Numeral(m, 10) + ".key", Numeral(n, 10) + ".key";
    assert (head + s)[|head|..] == s && (head + t)[|head|..] == t;
    assert s[..|s| - 4] == Numeral(m, 10) && t[..|t| - 4] == Numeral(n, 10);
    ValueOfNumeral(m, 10);
    ValueOfNumeral(n, 10);
  }

  /** Such a name is one entry, and reading it back does not change it. */
  predicate IsKeyFileName(f: string) {
    IsEntryName(f) && '%' !in f
  }

  lemma DigitsAlone(s: string)
    requires AllDigits(s, 10)
    ensures '/' !in s && '%' !in s
  {
  }

  lemma PrintedAlone(x: int)
    ensures '/' !in Printed(x) && '%' !in Printed(x)
  {
    hide Numeral;
    var n := if x < 0 then -x else x;
    ValueOfNumeral(n, 10);
    DigitsAlone(Numeral(n, 10));
  }

  lemma FileNameIsKeyFileName(kvno: UInt32, etype: Int32, num: nat)
    ensures IsKeyFileName(FileName(kvno, etype, num))
  {
    hide Numeral, Printed;
    PrintedAlone(Wrap32(kvno));
    PrintedAlone(etype);
    ValueOfNumeral(num, 10);
    DigitsAlone(Numeral(num, 10));
    assert |FileName(kvno, etype, num)| > 2;
  }

  /** As many different names are taken as have been tried. */
  lemma {:induction false} NamesTried(files: Files, kvno: UInt32, etype: Int32, num: nat)
    requires forall m :: 0 <= m < num ==> FileName(kvno, etype, m) in files
    ensures num <= |files|
    decreases num
  {
    hide FileName;
    if num > 0 {
      var f := FileName(kvno, etype, num - 1);
      forall m | 0 <= m < num - 1
        ensures FileName(kvno, etype, m) in files - {f}
      {
        if FileName(kvno, etype, m) == f {
          FileNameInjective(kvno, etype, m, num - 1);
        }
      }
      NamesTried(files - {f}, kvno, etype, num - 1);
      SmallerWithout(files, f);
    }
  }

  // ----- Selected keys -----

  /** `key_match`; None where strcmp is called with a null pointer. */
  method KeyMatch(hint: ShisaKey, key: ShisaKey) returns (r: Option<bool>)
    ensures r == Compared(hint, key)
  {
    var ok := true;
    if hint.kvno != 0 {
      ok := ok && hint.kvno == key.kvno;
    }
    if hint.etype != 0 {
      ok := ok && hint.etype == key.etype;
    }
    if hint.key != "" {
      ok := ok && hint.key == key.key;
    }
    if hint.salt != "" {
      ok := ok && hint.salt == key.salt;
    }
    if hint.str2keyparam != "" {
      ok := ok && hint.str2keyparam == key.str2keyparam;
    }
    if hint.password.Some? && ok {
      if key.password.None? {
        return None;
      }
      ok := hint.password == key.password;
    }
    r := Some(ok);
  }

  /** hint == NULL || key_match (hint, tmpkey) */
  method Wanted(hint: Option<ShisaKey>, key: ShisaKey) returns (r: Option<bool>)
    ensures r.Some? <==> Comparable(hint, key)
    ensures r.Some? ==> r.value == Selected(hint, key)
  {
    hide Agrees;
    if hint.None? {
      return Some(true);
    }
    r := KeyMatch(hint.value, key);
  }

  /** The keys that the hint can be compared with. */
  ghost predicate AllComparable(hint: Option<ShisaKey>, keys: seq<ShisaKey>) {
    forall k :: k in keys ==> Comparable(hint, k)
  }

  lemma ComparableOneMore(hint: Option<ShisaKey>, keys: seq<ShisaKey>, n: nat)
    requires n < |keys|
    ensures AllComparable(hint, keys[..n + 1]) <==> AllComparable(hint, keys[..n]) && Comparable(hint, keys[n])
    ensures AllComparable(hint, keys) ==> AllComparable(hint, keys[..n + 1])
  {
    hide Comparable;
    assert keys[..n + 1] == keys[..n] + [keys[n]];
    assert keys[n] in keys[..n + 1];
  }

  lemma NoneToCompare(hint: Option<ShisaKey>, keys: seq<ShisaKey>)
    requires keys == []
    ensures AllComparable(hint, keys)
  {
  }

  lemma ComparableBag(hint: Option<ShisaKey>, keys: seq<ShisaKey>)
    ensures AllComparable(hint, keys) <==> Defined(hint, multiset(keys))
  {
    hide Comparable;
    assert forall k :: k in keys <==> k in multiset(keys);
  }

  function Filter(hint: Option<ShisaKey>, keys: seq<ShisaKey>): seq<ShisaKey> {
    if keys == [] then []
    else
      var n := |keys| - 1;
      Filter(hint, keys[..n]) + if Selected(hint, keys[n]) then [keys[n]] else []
  }

  lemma {:induction false} FilterSelects(hint: Option<ShisaKey>, keys: seq<ShisaKey>)
    ensures multiset(Filter(hint, keys)) == Selection(hint, multiset(keys))
    decreases |keys|
  {
    hide Selected, Selection;
    if keys == [] {
      NothingSelected(hint);
    } else {
      var n := |keys| - 1;
      FilterSelects(hint, keys[..n]);
      assert keys == keys[..n] + [keys[n]];
      SelectionOfOneMore(hint, multiset(keys[..n]), keys[n]);
    }
  }

  lemma NothingSelected(hint: Option<ShisaKey>)
    ensures Selection(hint, multiset{}) == multiset{}
  {
  }

  // ----- The backend -----

  /** Every key file has a proper name and a key as it is read. */
  ghost predicate GoodFiles(t: Tree) {
    forall x, y :: x in t && y in t[x] ==> GoodEntry(t[x][y])
  }

  ghost predicate GoodEntry(e: Entry) {
    e.Keyed? ==> forall f :: f in e.files ==> IsKeyFileName(f) && e.files[f] == e.files[f].Stored()
  }

  lemma GoodFilesChange(t: Tree, x: string, y: string, e: Entry)
    requires GoodFiles(t) && GoodEntry(e) && x in t
    ensures GoodFiles(WithEntry(t, x, y, e)) && GoodFiles(t[x := t[x] - {y}])
    ensures GoodFiles(t[x := map[]]) && GoodFiles(t - {x})
  {
    hide GoodEntry;
  }

  lemma GoodFilesRealm(t: Tree, x: string)
    requires GoodFiles(t)
    ensures GoodFiles(t[x := map[]]) && GoodFiles(t - {x})
  {
    hide GoodEntry;
  }

  lemma GoodFilesAt(t: Tree, x: string, y: string)
    requires GoodFiles(t) && x in t && y in t[x]
    ensures GoodEntry(t[x][y])
  {
  }

  lemma GoodEntryWith(files: Files, f: string, k: ShisaKey)
    requires GoodEntry(Keyed(files))
    ensures IsKeyFileName(f) && k == k.Stored() ==> GoodEntry(Keyed(files[f := k]))
    ensures GoodEntry(Keyed(files - {f})) && GoodEntry(Keyed(map[])) && GoodEntry(Bare)
  {
  }

  lemma GoodEntryEmpty()
    ensures GoodEntry(Keyed(map[])) && GoodEntry(Bare)
  {
  }

  /** A file of a good entry: its name is one component, is not changed by reading it back, and its key can be read. */
  lemma GoodFile(files: Files, f: string)
    requires GoodEntry(Keyed(files)) && f in files
    ensures IsEntryName(f) && Unescaped(f) == f && ParseKey(Encoded(files[f])) == Some(files[f])
  {
    hide ParseKey, Encoded, Unescaped;
    UnescapedPlain(f);
    KeyRoundTrip(files[f]);
  }

  /** The entry of a principal has a keys directory with these files. */
  predicate HasKeys(t: Tree, x: string, y: string, stored: Files) {
    x in t && y in t[x] && t[x][y] == Keyed(stored)
  }

  /** The key in the file at a place. */
  function KeyAt(nodes: Nodes, p: Place): Option<ShisaKey> {
    match At(nodes, p)
    case Some(File(c)) => ParseKey(c)
    case _ => None
  }

  /** Each file of a principal can be read. */
  lemma Readable(nodes: Nodes, r: Place, t: Tree, x: string, y: string, stored: Files, f: string)
    requires Mirrors(nodes, r, t) && GoodFiles(t) && HasKeys(t, x, y, stored) && f in stored
    ensures IsEntryName(f) && KeyAt(nodes, r + [x, y, "keys", f]) == Some(stored[f])
  {
    hide Mirrors, NodeAt, GoodFiles, GoodEntry, ParseKey, Encoded, Unescaped;
    GoodFilesAt(t, x, y);
    GoodFile(stored, f);
    KeyFileAt(nodes, r, t, x, y, f, stored[f]);
  }

  /** The principals of a realm are single components. */
  lemma PrincipalNames(t: Tree, db: Database, realm: string, y: string)
    requires Represents(t, db) && GoodName(realm) && realm in db && Escaped(realm) in t && y in t[Escaped(realm)]
    ensures IsEntryName(y)
  {
    hide Escaped;
    StandsLookup(t, db, SameRealm, realm);
    var n :| n in db[realm] && GoodName(n) && Escaped(n) == y;
    EscapedIsEntry(n);
  }

  /** Shisa_file: the location, and besides it the file system. */
  class Backend {
    const path: string
    const fs: System
    ghost var tree: Tree
    ghost var db: Database

    ghost predicate Mirrored()
      reads this, fs
    {
      fs.Valid() && Mirrors(fs.nodes, Resolve(path), tree) && GoodFiles(tree)
    }

    /** The files below the location are exactly those that stand for the database. */
    ghost predicate Valid()
      reads this, fs
    {
      Mirrored() && Represents(tree, db)
    }

    /** shisa_file_init, for a location with nothing in it */
    constructor (path: string, fs: System)
      requires fs.Valid() && At(fs.nodes, Resolve(path)) == Some(Dir)
      requires forall q :: q != [] ==> Resolve(path) + q !in fs.nodes
      ensures Valid() && db == map[] && this.path == path && this.fs == fs
    {
      this.path, this.fs := path, fs;
      tree, db := map[], map[];
      new;
      assert Resolve(path) + [] == Resolve(path);
      EmptyRepresents();
    }

    /** `realm_add` */
    method RealmAdd(realm: string) returns (code: Code)
      requires Valid() && GoodName(realm)
      modifies this`tree, this`db, fs
      ensures Valid() && (code, db) == Step(old(db), Operation.RealmAdd(realm))
    {
      hide Resolve, Escaped, NodeAt, Represents, Mirrors, GoodFiles, IsTree, HasParent, IsEmptyDir;
      ghost var x := Escaped(realm);
      RealmDir(fs.nodes, Resolve(path), tree, x);
      RealmLookup(tree, db, realm);
      RealmChange(tree, db, realm);
      GoodFilesRealm(tree, x);
      var tmp := Path2(path, realm);
      var isdir := fs.IsDir(tmp);
      if isdir {
        return AddRealmExists;
      }
      var ok := fs.Mkdir(tmp);
      if !ok {
        return AddRealmError;
      }
      tree, db := tree[x := map[]], db[realm := map[]];
      code := Ok;
    }

    /** `realm_remove` */
    method RealmRemove(realm: string) returns (code: Code)
      requires Valid() && GoodName(realm)
      modifies this`tree, this`db, fs
      ensures Valid() && (code, db) == Step(old(db), Operation.RealmRemove(realm))
    {
      hide Resolve, Escaped, NodeAt, Represents, Mirrors, GoodFiles, IsTree, HasParent, IsEmptyDir, IsListing;
      ghost var x := Escaped(realm);
      RealmDir(fs.nodes, Resolve(path), tree, x);
      RealmLookup(tree, db, realm);
      RealmChange(tree, db, realm);
      GoodFilesRealm(tree, x);
      var tmp := Path2(path, realm);
      var isdir := fs.IsDir(tmp);
      if !isdir {
        return NoRealm;
      }
      ghost var raw;
      var nprincipals: Option<nat>;
      nprincipals, raw := CountDirs(fs, tmp);
      assert nprincipals.Some?;
      Listed(fs.nodes, Resolve(path), tree, x, "", raw);
      forall i | 0 <= i < |raw|
        ensures At(fs.nodes, Resolve(tmp + "/" + raw[i])) == Some(Dir)
      {
        assert raw[i] in raw;
        PrincipalNames(tree, db, realm, raw[i]);
        ResolveEntry(tmp, raw[i]);
      }
      assert nprincipals.value == |raw|;
      assert nprincipals.value > 0 <==> tree[x] != map[] by {
        if |raw| > 0 {
          assert raw[0] in tree[x];
        } else {
          assert forall n :: n !in tree[x];
        }
      }
      if nprincipals.value > 0 {
        return RemoveRealmNonempty;
      }
      var ok := fs.Rmdir(tmp);
      if !ok {
        return RemoveRealmError;
      }
      tree, db := tree - {x}, db - {realm};
      code := Ok;
    }

    /** `principal_add` */
    method PrincipalAdd(realm: string, principal: string, key: Option<ShisaKey>) returns (code: Code)
      requires Valid() && GoodName(realm) && GoodName(principal)
      modifies this`tree, this`db, fs
      ensures Valid() && (code, db) == Step(old(db), Operation.PrincipalAdd(realm, principal, key))
    {
      hide Resolve, Escaped, NodeAt, Represents, Mirrors, GoodFiles, IsTree, HasParent, IsEmptyDir, GoodEntry, BagFor;
      hide WithBag;
      ghost var x, y := Escaped(realm), Escaped(principal);
      RealmDir(fs.nodes, Resolve(path), tree, x);
      PrincipalDir(fs.nodes, Resolve(path), tree, x, y);
      RealmLookup(tree, db, realm);
      PrincipalLookup(tree, db, realm, principal);
      var tmp2 := Path2(path, realm);
      var isrealm := fs.IsDir(tmp2);
      if !isrealm {
        return NoRealm;
      }
      var tmp := Path3(path, realm, principal);
      var isprincipal := fs.IsDir(tmp);
      if isprincipal {
        return AddPrincipalExists;
      }
      var ok := MakePrincipalDir(realm, principal, tmp);
      if !ok {
        return AddPrincipalError;
      }
      if key.Some? {
        WithBagTwice(old(db), realm, principal, None, Extended(None, key.value));
        WithBagGives(old(db), realm, principal, None);
        var added := KeyAdd(realm, principal, key);
      }
      code := Ok;
    }

    /** The directory of a principal, which is not there yet. */
    method MakePrincipalDir(realm: string, principal: string, tmp: string) returns (ok: bool)
      requires Valid() && GoodName(realm) && GoodName(principal) && realm in db && principal !in db[realm]
      requires Resolve(tmp) == Resolve(path) + [Escaped(realm), Escaped(principal)]
      modifies this`tree, this`db, fs
      ensures Valid() && ok && realm in old(db) && db == WithBag(old(db), realm, principal, None)
    {
      hide Resolve, Escaped, NodeAt, Represents, Mirrors, GoodFiles, IsTree, HasParent, IsEmptyDir, GoodEntry, BagFor;
      hide WithBag;
      ghost var x, y := Escaped(realm), Escaped(principal);
      PrincipalDir(fs.nodes, Resolve(path), tree, x, y);
      RealmLookup(tree, db, realm);
      PrincipalLookup(tree, db, realm, principal);
      BareStandsForNone();
      PrincipalChange(tree, db, realm, principal, Bare, None);
      GoodEntryEmpty();
      GoodFilesChange(tree, x, y, Bare);
      ok := fs.Mkdir(tmp);
      tree, db := WithEntry(tree, x, y, Bare), WithBag(db, realm, principal, None);
    }

    /** `shisa_file_key_add` */
    method KeyAdd(realm: string, principal: string, key: Option<ShisaKey>) returns (code: Code)
      requires Valid() && GoodName(realm) && GoodName(principal)
      modifies this`tree, this`db, fs
      ensures Valid() && (code, db) == Step(old(db), Operation.KeyAdd(realm, principal, key))
    {
      hide Resolve, Escaped, NodeAt, Represents, Mirrors, GoodFiles, IsTree, BagFor, KeysIn;
      if key.None? {
        return NoKey;
      }
      ghost var x, y := Escaped(realm), Escaped(principal);
      PrincipalLookup(tree, db, realm, principal);
      RealmLookup(tree, db, realm);
      var ok := MakeKeysDir(realm, principal);
      if !ok {
        return NoKey;
      }
      ghost var files := tree[x][y].files;
      assert tree == WithEntry(old(tree), x, y, Keyed(files)) by {
        WithEntrySame(old(tree), x, y);
      }
      var file;
      ok, file := WriteKeyFile(realm, principal, key.value, files);
      if !ok {
        return AddKeyError;
      }
      ghost var e, bag := Keyed(files[file := key.value.Stored()]), Extended(BagFor(old(tree)[x][y]), key.value);
      KeyedStandsForKeys(old(tree)[x][y], files, file, key.value);
      PrincipalChange(old(tree), db, realm, principal, e, bag);
      WithEntryTwice(old(tree), x, y, Keyed(files), e);
      db := WithBag(db, realm, principal, bag);
      code := Ok;
    }

    /** The key, in a file of its own. */
    method WriteKeyFile(realm: string, principal: string, key: ShisaKey, ghost files: Files)
        returns (ok: bool, file: string)
      requires Mirrored() && GoodName(realm) && GoodName(principal)
      requires HasKeys(tree, Escaped(realm), Escaped(principal), files)
      modifies this`tree, fs
      ensures Mirrored() && ok && file !in files
      ensures tree == WithEntry(old(tree), Escaped(realm), Escaped(principal), Keyed(files[file := key.Stored()]))
    {
      hide Resolve, Escaped, NodeAt, Mirrors, GoodFiles, IsTree, HasParent, GoodEntry, Encoded;
      ghost var x, y := Escaped(realm), Escaped(principal);
      file := FreshName(realm, principal, key.kvno, key.etype);
      var tmp := Path4(path, realm, principal, KeyPath(file));
      assert KeyPath(file) == KeyPath(file);
      assert Resolve(path) + [x, y] + ["keys", file] == Resolve(path) + [x, y, "keys", file];
      KeyFileAt(fs.nodes, Resolve(path), tree, x, y, file, key.Stored());
      EncodedStored(key);
      GoodFilesAt(tree, x, y);
      GoodEntryWith(files, file, key.Stored());
      GoodFilesChange(tree, x, y, Keyed(files[file := key.Stored()]));
      ok := fs.Write(tmp, Encoded(key));
      tree := WithEntry(tree, x, y, Keyed(files[file := key.Stored()]));
    }

    /** The directory keys, made if it is not there yet. That changes nothing in the database. */
    method MakeKeysDir(realm: string, principal: string) returns (ok: bool)
      requires Mirrored() && GoodName(realm) && GoodName(principal)
      modifies this`tree, fs
      ensures var x, y := Escaped(realm), Escaped(principal);
              && Mirrored()
              && (ok <==> x in old(tree) && y in old(tree)[x])
              && (!ok ==> tree == old(tree))
              && (ok ==>
                    tree == if old(tree)[x][y] == Bare then WithEntry(old(tree), x, y, Keyed(map[])) else old(tree))
    {
      hide Resolve, Escaped, NodeAt, Mirrors, GoodFiles, IsTree, HasParent, IsEmptyDir, GoodEntry;
      ghost var x, y := Escaped(realm), Escaped(principal);
      KeysDir(fs.nodes, Resolve(path), tree, x, y);
      var tmp := Path4(path, realm, principal, "keys");
      assert Resolve(path) + [x, y] + ["keys"] == Resolve(path) + [x, y, "keys"];
      ok := fs.IsDir(tmp);
      if !ok {
        ok := fs.Mkdir(tmp);
        if ok {
          GoodEntryEmpty();
          GoodFilesChange(tree, x, y, Keyed(map[]));
          tree := WithEntry(tree, x, y, Keyed(map[]));
        }
      }
    }

    /** The loop that looks for a file name that is not taken. */
    method FreshName(realm: string, principal: string, kvno: UInt32, etype: Int32) returns (file: string)
      requires Mirrored() && GoodName(realm) && GoodName(principal)
      requires var x, y := Escaped(realm), Escaped(principal); x in tree && y in tree[x] && tree[x][y].Keyed?
      ensures IsKeyFileName(file) && file !in tree[Escaped(realm)][Escaped(principal)].files
    {
      hide Resolve, Escaped, NodeAt, Mirrors, GoodFiles, IsTree, HasParent, FileName, Encoded;
      ghost var x, y := Escaped(realm), Escaped(principal);
      ghost var files := tree[x][y].files;
      var num := 0;
      while true
        invariant forall m :: 0 <= m < num ==> FileName(kvno, etype, m) in files
        decreases |files| - num
      {
        NamesTried(files, kvno, etype, num);
        file := FileName(kvno, etype, num);
        FileNameIsKeyFileName(kvno, etype, num);
        num := num + 1;
        var tmp := Path4(path, realm, principal, KeyPath(file));
        assert KeyPath(file) == KeyPath(file);
        KeyFileAt(fs.nodes, Resolve(path), tree, x, y, file, NO_KEY);
        assert Resolve(path) + [x, y] + ["keys", file] == Resolve(path) + [x, y, "keys", file];
        var taken := fs.IsFile(tmp);
        if !taken {
          break;
        }
        NamesTried(files, kvno, etype, num);
      }
    }

    /** `read_key` */
    method ReadKeyFile(realm: string, principal: string, keyfile: string) returns (code: Code, key: ShisaKey)
      requires GoodName(realm) && GoodName(principal) && IsEntryName(keyfile)
      ensures code == Ok || code == NoKey
      ensures var k := KeyAt(fs.nodes, Resolve(path) + [Escaped(realm), Escaped(principal), "keys", keyfile]);
              (code == Ok <==> k.Some?) && (code == Ok ==> key == k.value)
    {
      hide Resolve, Escaped, ParseKey;
      code, key := NoKey, NO_KEY;
      var tmp := Path4(path, realm, principal, KeyPath(keyfile));
      assert KeyPath(keyfile) == KeyPath(keyfile);
      ghost var x, y := Escaped(realm), Escaped(principal);
      assert Resolve(path) + [x, y] + ["keys", keyfile] == Resolve(path) + [x, y, "keys", keyfile];
      var content := fs.Read(tmp);
      if content.None? {
        return;
      }
      var read := ReadKey(content.value);
      if read.None? {
        return;
      }
      code, key := Ok, read.value;
    }

    /** _shisa_ls4 for the keys directory: each key file once. */
    method LsKeys(realm: string, principal: string) returns (files: Option<seq<string>>)
      requires Mirrored() && GoodName(realm) && GoodName(principal)
      ensures var x, y := Escaped(realm), Escaped(principal);
              && (files.Some? <==> x in tree && y in tree[x] && tree[x][y].Keyed?)
              && (files.Some? ==> Distinct(files.value) && forall f :: f in files.value <==> f in tree[x][y].files)
    {
      hide Resolve, Escaped, Unescaped, NodeAt, Mirrors, GoodFiles, IsTree, HasParent, GoodEntry, IsListing, Encoded;
      hide ParseKey;
      ghost var x, y := Escaped(realm), Escaped(principal);
      KeysDir(fs.nodes, Resolve(path), tree, x, y);
      var tmp := Path4(path, realm, principal, "keys");
      assert Resolve(path) + [x, y] + ["keys"] == Resolve(path) + [x, y, "keys"];
      ghost var raw;
      files, raw := Ls(fs, tmp);
      if files.Some? {
        Listed(fs.nodes, Resolve(path), tree, x, y, raw);
        GoodFilesAt(tree, x, y);
        forall i | 0 <= i < |raw|
          ensures files.value[i] == raw[i]
        {
          assert raw[i] in raw;
          GoodFile(tree[x][y].files, raw[i]);
        }
        assert files.value == raw;
      }
    }

    /** The loop of shisa_file_keys_find: the keys that the hint selects, in the order of their files. */
    method ReadSelected(realm: string, principal: string, hint: Option<ShisaKey>, files: seq<string>,
                        ghost stored: Files)
        returns (code: Code, keys: seq<ShisaKey>)
      requires Mirrored() && GoodName(realm) && GoodName(principal)
      requires HasKeys(tree, Escaped(realm), Escaped(principal), stored)
      requires forall i :: 0 <= i < |files| ==> files[i] in stored
      ensures code == if AllComparable(hint, KeysNamed(stored, files)) then Ok else Undefined
      ensures code == Ok ==> keys == Filter(hint, KeysNamed(stored, files))
    {
      hide Resolve, Escaped, NodeAt, Mirrors, GoodFiles, IsTree, Selected, ParseKey, HasKeys, KeyAt, Comparable;
      hide AllComparable;
      ghost var all := KeysNamed(stored, files);
      code, keys := Ok, [];
      assert AllComparable(hint, all[..0]) by { NoneToCompare(hint, all[..0]); }
      for i := 0 to |files|
        invariant code == Ok && keys == Filter(hint, all[..i]) && AllComparable(hint, all[..i])
      {
        assert all[..i + 1][..i] == all[..i];
        ComparableOneMore(hint, all, i);
        if code == Ok {
          Readable(fs.nodes, Resolve(path), tree, Escaped(realm), Escaped(principal), stored, files[i]);
          var tmpkey;
          code, tmpkey := ReadKeyFile(realm, principal, files[i]);
          if code == Ok {
            var wanted := Wanted(hint, tmpkey);
            if wanted.None? {
              return Undefined, [];
            }
            if wanted.value {
              keys := keys + [tmpkey];
            }
          }
        }
      }
      assert all[..|files|] == all;
    }

    /** `shisa_file_keys_find` */
    method KeysFind(realm: string, principal: string, hint: Option<ShisaKey>) returns (code: Code, keys: seq<ShisaKey>)
      requires Valid() && GoodName(realm) && GoodName(principal)
      ensures var bag := BagOf(db, realm, principal);
              if bag.Some? && bag.value.Some? then
                && code == (if Defined(hint, bag.value.value) then Ok else Undefined)
                && (code == Ok ==> multiset(keys) == Selection(hint, bag.value.value))
              else code == EnumerateKeyError && keys == []
    {
      hide Resolve, Escaped, NodeAt, Represents, Mirrors, GoodFiles, IsTree, KeysIn, Selected, Selection, Filter;
      hide Defined, AllComparable;
      ghost var x, y := Escaped(realm), Escaped(principal);
      PrincipalLookup(tree, db, realm, principal);
      var files := LsKeys(realm, principal);
      if files.None? {
        return EnumerateKeyError, [];
      }
      ghost var stored := tree[x][y].files;
      assert forall i :: 0 <= i < |files.value| ==> files.value[i] in files.value;
      code, keys := ReadSelected(realm, principal, hint, files.value, stored);
      KeysListed(stored, files.value);
      FilterSelects(hint, KeysNamed(stored, files.value));
      ComparableBag(hint, KeysNamed(stored, files.value));
    }

    /** The loop of shisa_file_key_remove: the file of the only key that the hint selects. */
    method FindOnly(realm: string, principal: string, hint: Option<ShisaKey>, files: seq<string>, ghost stored: Files)
        returns (code: Code, found: Option<string>)
      requires Mirrored() && GoodName(realm) && GoodName(principal)
      requires HasKeys(tree, Escaped(realm), Escaped(principal), stored)
      requires forall i :: 0 <= i < |files| ==> files[i] in stored
      ensures code == Ok || code == MultipleKeyMatch || code == Undefined
      ensures var selected := Filter(hint, KeysNamed(stored, files));
              var comparable := AllComparable(hint, KeysNamed(stored, files));
              && (code == Ok ==> comparable && |selected| <= 1)
              && (code == MultipleKeyMatch ==> |selected| > 1)
              && (code == Undefined ==> !comparable)
              && (code == Ok ==> (found.None? <==> selected == []))
              && (code == Ok && found.Some? ==> found.value in stored && selected == [stored[found.value]])
    {
      hide Resolve, Escaped, NodeAt, Mirrors, GoodFiles, IsTree, Selected, ParseKey, HasKeys, KeyAt, Comparable;
      hide AllComparable;
      ghost var all := KeysNamed(stored, files);
      code, found := Ok, None;
      assert AllComparable(hint, all[..0]) by { NoneToCompare(hint, all[..0]); }
      for i := 0 to |files|
        invariant code == (if |Filter(hint, all[..i])| <= 1 then Ok else MultipleKeyMatch)
        invariant code == Ok ==> AllComparable(hint, all[..i])
        invariant code == Ok ==> (found.None? <==> Filter(hint, all[..i]) == [])
        invariant code == Ok && found.Some? ==> found.value in stored && Filter(hint, all[..i]) == [stored[found.value]]
      {
        assert all[..i + 1][..i] == all[..i];
        if code == Ok {
          Readable(fs.nodes, Resolve(path), tree, Escaped(realm), Escaped(principal), stored, files[i]);
          var tmpkey;
          code, tmpkey := ReadKeyFile(realm, principal, files[i]);
          ComparableOneMore(hint, all, i);
          if code == Ok {
            var wanted := Wanted(hint, tmpkey);
            if wanted.None? {
              return Undefined, None;
            }
            if wanted.value {
              if found.Some? {
                code := MultipleKeyMatch;
              } else {
                found := Some(files[i]);
              }
            }
          }
        }
      }
      assert all[..|files|] == all;
    }

    /** `shisa_file_key_remove`: undefined at most if the hint is, and then unless two keys had been found before. */
    method KeyRemove(realm: string, principal: string, hint: Option<ShisaKey>) returns (code: Code)
      requires Valid() && GoodName(realm) && GoodName(principal)
      modifies this`tree, this`db, fs
      ensures Valid() && Performed(old(db), Operation.KeyRemove(realm, principal, hint), code, db)
    {
      hide Resolve, Escaped, NodeAt, Represents, Mirrors, GoodFiles, IsTree, KeysIn, Selected, Selection, Filter;
      hide WithBag, Step;
      hide Defined, AllComparable, Performed;
      ghost var x, y := Escaped(realm), Escaped(principal);
      PrincipalLookup(tree, db, realm, principal);
      KeyRemoveFails(db, realm, principal, hint);
      var files := LsKeys(realm, principal);
      if files.None? {
        return Failed;
      }
      ghost var stored := tree[x][y].files;
      assert forall i :: 0 <= i < |files.value| ==> files.value[i] in files.value;
      KeyRemoveCases(db, realm, principal, hint, KeysIn(stored));
      var found;
      code, found := FindOnly(realm, principal, hint, files.value, stored);
      KeysListed(stored, files.value);
      ghost var selected := Filter(hint, KeysNamed(stored, files.value));
      FilterSelects(hint, KeysNamed(stored, files.value));
      ComparableBag(hint, KeysNamed(stored, files.value));
      assert |multiset(selected)| == |selected|;
      if code != Ok {
        return;
      }
      if found.None? {
        return NoKey;
      }
      assert multiset(selected) == multiset{stored[found.value]};
      code := RemoveFound(realm, principal, found.value, stored);
    }

    /** The last step: the file of the one key that was found. */
    method RemoveFound(realm: string, principal: string, found: string, ghost stored: Files) returns (code: Code)
      requires Valid() && GoodName(realm) && GoodName(principal) && found in stored
      requires HasKeys(tree, Escaped(realm), Escaped(principal), stored)
      modifies this`tree, this`db, fs
      ensures Valid() && code == Ok && realm in old(db)
      ensures db == WithBag(old(db), realm, principal, Some(KeysIn(stored) - multiset{stored[found]}))
    {
      hide Resolve, Escaped, NodeAt, Represents, Mirrors, GoodFiles, IsTree, KeysIn;
      ghost var x, y := Escaped(realm), Escaped(principal);
      RealmLookup(tree, db, realm);
      var ok := RemoveKeyFile(realm, principal, found);
      ghost var bag := KeysIn(stored) - multiset{stored[found]};
      KeysWithout(stored, found);
      assert bag == KeysIn(stored - {found});
      PrincipalChange(old(tree), db, realm, principal, Keyed(stored - {found}), Some(bag));
      db := WithBag(db, realm, principal, Some(bag));
      code := if ok then Ok else Failed;
    }

    /** _shisa_rm5 for one file of the keys directory */
    method RemoveKeyFile(realm: string, principal: string, file: string) returns (ok: bool)
      requires Mirrored() && GoodName(realm) && GoodName(principal)
      requires var x, y := Escaped(realm), Escaped(principal);
               x in tree && y in tree[x] && tree[x][y].Keyed? && file in tree[x][y].files
      modifies this`tree, fs
      ensures Mirrored() && ok
      ensures var x, y := Escaped(realm), Escaped(principal);
              tree == WithEntry(old(tree), x, y, Keyed(old(tree)[x][y].files - {file}))
    {
      hide Resolve, Escaped, NodeAt, Mirrors, GoodFiles, GoodEntry, IsTree, HasParent, Encoded, Unescaped, ParseKey;
      ghost var x, y := Escaped(realm), Escaped(principal);
      ghost var files := tree[x][y].files;
      GoodFilesAt(tree, x, y);
      GoodFile(files, file);
      KeyFileAt(fs.nodes, Resolve(path), tree, x, y, file, files[file]);
      var dir := Path4(path, realm, principal, "keys");
      ResolveEntry(dir, file);
      assert Resolve(path) + [x, y] + ["keys"] + [file] == Resolve(path) + [x, y, "keys", file];
      ok := fs.Unlink(dir + "/" + file);
      GoodEntryWith(files, file, files[file]);
      GoodFilesChange(tree, x, y, Keyed(files - {file}));
      tree := WithEntry(tree, x, y, Keyed(files - {file}));
    }

    /** `remove_keys` */
    method RemoveKeys(realm: string, principal: string) returns (code: Code)
      requires Mirrored() && GoodName(realm) && GoodName(principal)
      modifies this`tree, fs
      ensures var x, y := Escaped(realm), Escaped(principal);
              && Mirrored()
              && (code == Ok || code == Failed)
              && (code == Ok <==> x in old(tree) && y in old(tree)[x] && old(tree)[x][y].Keyed?)
              && tree == if code == Ok then WithEntry(old(tree), x, y, Bare) else old(tree)
    {
      hide Resolve, Escaped, NodeAt, Mirrors, GoodFiles, GoodEntry, IsTree, HasParent, IsEmptyDir;
      ghost var x, y := Escaped(realm), Escaped(principal);
      var files := LsKeys(realm, principal);
      if files.None? {
        return Failed;
      }
      ghost var rest := tree[x][y].files;
      assert tree == WithEntry(tree, x, y, Keyed(rest)) by {
        WithEntrySame(tree, x, y);
      }
      for i := 0 to |files.value|
        invariant Mirrored() && x in old(tree) && y in old(tree)[x] && old(tree)[x][y].Keyed?
        invariant tree == WithEntry(old(tree), x, y, Keyed(rest))
        invariant forall f :: f in rest <==> f in files.value[i..]
      {
        assert files.value[i] in files.value[i..];
        var rm := RemoveKeyFile(realm, principal, files.value[i]);
        WithEntryTwice(old(tree), x, y, Keyed(rest), Keyed(rest - {files.value[i]}));
        rest := rest - {files.value[i]};
      }
      assert rest == map[];
      KeysDir(fs.nodes, Resolve(path), tree, x, y);
      var tmp := Path4(path, realm, principal, "keys");
      assert Resolve(path) + [x, y] + ["keys"] == Resolve(path) + [x, y, "keys"];
      WithEntryTwice(old(tree), x, y, Keyed(rest), Bare);
      GoodEntryEmpty();
      GoodFilesChange(tree, x, y, Bare);
      var ok := fs.Rmdir(tmp);
      if !ok {
        return Failed;
      }
      tree := WithEntry(tree, x, y, Bare);
      code := Ok;
    }

    /** `principal_remove` */
    method PrincipalRemove(realm: string, principal: string) returns (code: Code)
      requires Valid() && GoodName(realm) && GoodName(principal)
      modifies this`tree, this`db, fs
      ensures Valid() && (code, db) == Step(old(db), Operation.PrincipalRemove(realm, principal))
    {
      hide Resolve, Escaped, NodeAt, Represents, Mirrors, GoodFiles, GoodEntry, IsTree, HasParent, IsEmptyDir, KeysIn;
      ghost var x, y := Escaped(realm), Escaped(principal);
      RealmDir(fs.nodes, Resolve(path), tree, x);
      PrincipalDir(fs.nodes, Resolve(path), tree, x, y);
      RealmLookup(tree, db, realm);
      PrincipalLookup(tree, db, realm, principal);
      var tmp2 := Path2(path, realm);
      var isrealm := fs.IsDir(tmp2);
      if !isrealm {
        return NoRealm;
      }
      var tmp := Path3(path, realm, principal);
      var isprincipal := fs.IsDir(tmp);
      if !isprincipal {
        return NoPrincipal;
      }
      PrincipalChange(tree, db, realm, principal, Bare, BagFor(Bare));
      code := RemoveKeys(realm, principal);
      if code != Ok {
        return;
      }
      PrincipalDir(fs.nodes, Resolve(path), tree, x, y);
      WithoutEntry(old(tree), x, y);
      GoodEntryEmpty();
      GoodFilesChange(tree, x, y, Bare);
      var ok := fs.Rmdir(tmp);
      if !ok {
        return RemovePrincipalError;
      }
      tree, db := tree[x := tree[x] - {y}], db[realm := db[realm] - {principal}];
      code := Ok;
    }

    /** Any operation, by name. */
    method Perform(op: Operation) returns (code: Code)
      requires Valid() && GoodOperation(op)
      modifies this`tree, this`db, fs
      ensures Valid() && Performed(old(db), op, code, db)
    {
      hide Step, Performed, GoodName, Resolve, Mirrors, Represents, GoodFiles, IsTree;
      if !op.KeyRemove? {
        StepPerformed(db, op);
      }
      match op
      case RealmAdd(realm) => code := RealmAdd(realm);
      case RealmRemove(realm) => code := RealmRemove(realm);
      case PrincipalAdd(realm, principal, key) => code := PrincipalAdd(realm, principal, key);
      case PrincipalRemove(realm, principal) => code := PrincipalRemove(realm, principal);
      case KeyAdd(realm, principal, key) => code := KeyAdd(realm, principal, key);
      case KeyRemove(realm, principal, hint) => code := KeyRemove(realm, principal, hint);
    }

    /**
     * Every run, up to an operation that is undefined, leaves the files in the state that stands for the database after
     * that run.
     */
    method PerformAll(ops: seq<Operation>) returns (done: nat)
      requires Valid() && forall i :: 0 <= i < |ops| ==> GoodOperation(ops[i])
      modifies this`tree, this`db, fs
      ensures done <= |ops| && Valid() && db == Run(old(db), ops[..done])
      ensures done < |ops| ==> !DefinedStep(db, ops[done])
      ensures DefinedRun(old(db), ops) ==> done == |ops| && db == Run(old(db), ops)
    {
      hide Step, DefinedStep, Resolve, Mirrors, Represents, GoodFiles, IsTree;
      assert ops[0..] == ops && ops[..|ops|] == ops;
      for i := 0 to |ops|
        invariant Valid() && db == Run(old(db), ops[..i])
        invariant DefinedRun(old(db), ops) ==> DefinedRun(db, ops[i..])
      {
        RunOneMore(old(db), ops, i);
        var code := Perform(ops[i]);
        if code == Undefined {
          return i;
        }
        assert ops[i..][1..] == ops[i + 1..];
      }
      done := |ops|;
    }
  }

  /** The names that an operation mentions can be directories. */
  predicate GoodOperation(op: Operation) {
    && GoodName(op.realm)
    && (!op.RealmAdd? && !op.RealmRemove? ==> GoodName(op.principal))
  }

  /** Different principals have different directories. */
  lemma DirectoriesDistinct(r: Place, realm: string, principal: string, realm': string, principal': string)
    requires GoodName(realm) && GoodName(principal) && GoodName(realm') && GoodName(principal')
    requires r + [Escaped(realm), Escaped(principal)] == r + [Escaped(realm'), Escaped(principal')]
    ensures realm == realm' && principal == principal'
  {
    hide Escaped;
    var p, q := [Escaped(realm), Escaped(principal)], [Escaped(realm'), Escaped(principal')];
    assert (r + p)[|r|..] == p && (r + q)[|r|..] == q;
    assert p[0] == q[0] && p[1] == q[1];
    EscapedInjective(realm, realm');
    EscapedInjective(principal, principal');
  }

  lemma WithEntrySame(t: Tree, x: string, y: string)
    requires x in t && y in t[x]
    ensures WithEntry(t, x, y, t[x][y]) == t
  {
    assert t[x][y := t[x][y]] == t[x];
  }

  lemma WithoutEntry(t: Tree, x: string, y: string)
    requires x in t && y in t[x]
    ensures var u := WithEntry(t, x, y, Bare); u[x := u[x] - {y}] == t[x := t[x] - {y}]
  {
    assert t[x][y := Bare] - {y} == t[x] - {y};
  }

  lemma BareStandsForNone()
    ensures BagFor(Bare) == None
  {
  }

  lemma KeyedStandsForKeys(e: Entry, files: Files, f: string, k: ShisaKey)
    requires f !in files && files == (if e.Bare? then map[] else e.files)
    ensures BagFor(Keyed(files[f := k.Stored()])) == Extended(BagFor(e), k)
  {
    hide KeysIn;
    NoKeysIn();
    KeysWith(files, f, k.Stored());
  }

  lemma EncodedStored(k: ShisaKey)
    ensures Encoded(k.Stored()) == Encoded(k)
  {
  }

  lemma WithEntryTwice(t: Tree, x: string, y: string, e: Entry, e': Entry)
    requires x in t
    ensures WithEntry(WithEntry(t, x, y, e), x, y, e') == WithEntry(t, x, y, e')
  {
    assert t[x][y := e][y := e'] == t[x][y := e'];
  }

  lemma WithBagTwice(db: Database, realm: string, principal: string, b: Bag, b': Bag)
    requires realm in db
    ensures WithBag(WithBag(db, realm, principal, b), realm, principal, b') == WithBag(db, realm, principal, b')
  {
    assert db[realm][principal := b][principal := b'] == db[realm][principal := b'];
  }
}
