/** The part of the operating system that db/fileutil.c uses: a tree of directories and files. */
module FileSystem {
  import opened Strings
  import opened MachineInts

  /** A place in the tree: the names on the way from the root. */
  type Place = seq<string>

  datatype Node = Dir | File(content: string)

  type Nodes = map<Place, Node>

  // ----- Path names -----

  /** Walking on from a place: "." and the empty name stay, ".." goes up. */
  function Walk(p: Place, names: seq<string>): Place
    decreases |names|
  {
    if names == [] then p
    else if names[0] == "" || names[0] == "." then Walk(p, names[1..])
    else if names[0] == ".." then Walk(if p == [] then p else p[..|p| - 1], names[1..])
    else Walk(p + [names[0]], names[1..])
  }

  /** The place that a path name denotes. */
  function Resolve(path: string): Place {
    Walk([], Split(path, '/'))
  }

  /** A name that denotes an entry of a directory. */
  predicate IsEntryName(name: string) {
    name != "" && name != "." && name != ".." && Lacks(name, '/')
  }

  lemma {:induction false} WalkAppend(p: Place, a: seq<string>, b: seq<string>)
    ensures Walk(p, a + b) == Walk(Walk(p, a), b)
    decreases |a|
  {
    if a == [] {
      assert a + b == b;
    } else {
      assert (a + b)[0] == a[0] && (a + b)[1..] == a[1..] + b;
      if a[0] == "" || a[0] == "." {
        WalkAppend(p, a[1..], b);
      } else if a[0] == ".." {
        WalkAppend(if p == [] then p else p[..|p| - 1], a[1..], b);
      } else {
        WalkAppend(p + [a[0]], a[1..], b);
      }
    }
  }

  /** Appending a slash and the name of an entry goes to that entry. */
  lemma ResolveEntry(path: string, name: string)
    requires IsEntryName(name)
    ensures Resolve(path + "/" + name) == Resolve(path) + [name]
  {
    hide Walk, Split, Join;
    JoinOfSplit(path, '/');
    var a := Split(path, '/');
    JoinOfOne(name);
    JoinAppend(a, [name], '/');
    LacksOne(a, name);
    SplitOfJoin(a + [name], '/');
    WalkAppend([], a, [name]);
    WalkOne(Walk([], a), name);
  }

  lemma JoinOfOne(name: string)
    ensures Join([name], '/') == name
  {
  }

  lemma LacksOne(a: seq<string>, name: string)
    requires AllLack(a, '/') && Lacks(name, '/')
    ensures AllLack(a + [name], '/')
  {
  }

  lemma WalkOne(p: Place, name: string)
    requires IsEntryName(name)
    ensures Walk(p, [name]) == p + [name]
  {
    assert [name][1..] == [];
  }

  // ----- The tree -----

  /** What can be read there. */
  function ContentOf(node: Option<Node>): Option<string> {
    match node
    case Some(File(c)) => Some(c)
    case _ => None
  }

  function At(nodes: Nodes, p: Place): Option<Node> {
    if p in nodes then Some(nodes[p]) else None
  }

  /** The root is a directory, and so is what contains a node. */
  predicate IsTree(nodes: Nodes) {
    && At(nodes, []) == Some(Dir)
    && forall p :: p in nodes && p != [] ==> At(nodes, p[..|p| - 1]) == Some(Dir)
  }

  /** A directory where something new can be put. */
  predicate HasParent(nodes: Nodes, p: Place) {
    p != [] && At(nodes, p[..|p| - 1]) == Some(Dir)
  }

  ghost predicate IsEmptyDir(nodes: Nodes, p: Place) {
    At(nodes, p) == Some(Dir) && forall name :: p + [name] !in nodes
  }

  predicate IsEntry(q: Place, p: Place) {
    q != [] && q[..|q| - 1] == p
  }

  lemma EntriesOf(nodes: Nodes, p: Place)
    ensures (exists q :: q in nodes && IsEntry(q, p)) <==> (exists name :: p + [name] in nodes)
  {
    forall name | p + [name] in nodes
      ensures exists q :: q in nodes && IsEntry(q, p)
    {
      assert (p + [name])[..|p + [name]| - 1] == p;
      assert IsEntry(p + [name], p);
    }
    forall q | q in nodes && IsEntry(q, p)
      ensures exists name :: p + [name] in nodes
    {
      assert p + [q[|q| - 1]] == q;
    }
  }

  lemma TreeWithout(nodes: Nodes, p: Place)
    requires IsTree(nodes) && p != [] && !exists q :: q in nodes && IsEntry(q, p)
    ensures IsTree(nodes - {p})
  {
    forall q | q in nodes - {p} && q != []
      ensures At(nodes - {p}, q[..|q| - 1]) == Some(Dir)
    {
      assert !IsEntry(q, p);
    }
  }

  function EntryNames(nodes: Nodes, p: Place): set<string> {
    set q | q in nodes && IsEntry(q, p) :: q[|q| - 1]
  }

  lemma EntryNamesAre(nodes: Nodes, p: Place)
    ensures forall x :: x in EntryNames(nodes, p) <==> p + [x] in nodes
  {
    forall x
      ensures x in EntryNames(nodes, p) <==> p + [x] in nodes
    {
      if p + [x] in nodes {
        assert IsEntry(p + [x], p) && (p + [x])[|p + [x]| - 1] == x;
      }
      if x in EntryNames(nodes, p) {
        var q :| q in nodes && IsEntry(q, p) && q[|q| - 1] == x;
        assert q == p + [x];
      }
    }
  }

  method InSomeOrder(all: set<string>) returns (found: seq<string>)
    ensures forall i, j :: 0 <= i < j < |found| ==> found[i] != found[j]
    ensures forall x :: x in found <==> x in all
  {
    var left := all;
    found := [];
    while left != {}
      invariant forall x :: x in all <==> x in left || x in found
      invariant forall i, j :: 0 <= i < j < |found| ==> found[i] != found[j]
      invariant forall i :: 0 <= i < |found| ==> found[i] !in left
      decreases |left|
    {
      var x :| x in left;
      left, found := left - {x}, found + [x];
    }
  }

  /** The operating system as far as one process sees it; no call fails for other reasons than these. */
  class System {
    var nodes: Nodes

    ghost predicate Valid()
      reads this
    {
      IsTree(nodes)
    }

    /** A file system with nothing in it but a directory. */
    constructor ()
      ensures Valid() && nodes == map[[] := Dir]
    {
      nodes := map[[] := Dir];
    }

    /** stat and S_ISDIR */
    method IsDir(path: string) returns (yes: bool)
      ensures yes <==> At(nodes, Resolve(path)) == Some(Dir)
    {
      var p := Resolve(path);
      yes := p in nodes && nodes[p] == Dir;
    }

    /** stat and S_ISREG */
    method IsFile(path: string) returns (yes: bool)
      ensures yes <==> exists c :: At(nodes, Resolve(path)) == Some(File(c))
    {
      var p := Resolve(path);
      yes := p in nodes && nodes[p].File?;
      assert yes ==> At(nodes, p) == Some(File(nodes[p].content));
    }

    /** mkdir */
    method Mkdir(path: string) returns (ok: bool)
      requires Valid()
      modifies this
      ensures Valid()
      ensures var p := Resolve(path);
              && (ok <==> At(old(nodes), p) == None && HasParent(old(nodes), p))
              && nodes == if ok then old(nodes)[p := Dir] else old(nodes)
    {
      var p := Resolve(path);
      if p in nodes || p == [] || p[..|p| - 1] !in nodes || nodes[p[..|p| - 1]] != Dir {
        return false;
      }
      nodes := nodes[p := Dir];
      ok := true;
    }

    /** rmdir */
    method Rmdir(path: string) returns (ok: bool)
      requires Valid()
      modifies this
      ensures Valid()
      ensures var p := Resolve(path);
              && (ok <==> p != [] && IsEmptyDir(old(nodes), p))
              && nodes == if ok then old(nodes) - {p} else old(nodes)
    {
      var p := Resolve(path);
      if p == [] || p !in nodes || nodes[p] != Dir {
        return false;
      }
      EntriesOf(nodes, p);
      if exists q :: q in nodes && IsEntry(q, p) {
        return false;
      }
      TreeWithout(nodes, p);
      nodes := nodes - {p};
      ok := true;
    }

    /** unlink */
    method Unlink(path: string) returns (ok: bool)
      requires Valid()
      modifies this
      ensures Valid()
      ensures var p := Resolve(path);
              && (ok <==> exists c :: At(old(nodes), p) == Some(File(c)))
              && nodes == if ok then old(nodes) - {p} else old(nodes)
    {
      var p := Resolve(path);
      if p !in nodes || nodes[p] == Dir {
        return false;
      }
      assert At(nodes, p) == Some(File(nodes[p].content));
      nodes := nodes - {p};
      ok := true;
    }

    /** fopen for reading, and all that can be read */
    method Read(path: string) returns (content: Option<string>)
      ensures content == ContentOf(At(nodes, Resolve(path)))
    {
      var p := Resolve(path);
      if p in nodes && nodes[p].File? {
        content := Some(nodes[p].content);
      } else {
        content := None;
      }
    }

    /** fopen for writing, what is written, and fclose */
    method Write(path: string, content: string) returns (ok: bool)
      requires Valid()
      modifies this
      ensures Valid()
      ensures var p := Resolve(path);
              && (ok <==> At(old(nodes), p) != Some(Dir) && HasParent(old(nodes), p))
              && nodes == if ok then old(nodes)[p := File(content)] else old(nodes)
    {
      var p := Resolve(path);
      if (p in nodes && nodes[p] == Dir) || p == [] || p[..|p| - 1] !in nodes || nodes[p[..|p| - 1]] != Dir {
        return false;
      }
      nodes := nodes[p := File(content)];
      ok := true;
    }

    /** opendir, readdir and closedir: the names of the entries, in any order. */
    method List(path: string) returns (names: Option<seq<string>>)
      ensures names.None? <==> At(nodes, Resolve(path)) != Some(Dir)
      ensures names.Some? ==> IsListing(nodes, Resolve(path), names.value)
    {
      var p := Resolve(path);
      if p !in nodes || nodes[p] != Dir {
        return None;
      }
      EntryNamesAre(nodes, p);
      var found := InSomeOrder(EntryNames(nodes, p));
      names := Some(found);
    }
  }

  /** Each entry of the directory once. */
  ghost predicate IsListing(nodes: Nodes, p: Place, names: seq<string>) {
    && (forall i, j :: 0 <= i < j < |names| ==> names[i] != names[j])
    && forall x :: x in names <==> p + [x] in nodes
  }
}
