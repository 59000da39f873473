/** The `FileSystem` of src/vfs.rs, changed in place, against the specifications in `Tree`. */

/** Where a mutable reference into the tree points: the child indices on the way down. */
module Place {
  import opened Machine
  import opened Tree

  predicate OnTree(node: VfsNode, place: seq<nat>)
    decreases |place|
  {
    place == [] || (node.Directory? && place[0] < |node.children| && OnTree(node.children[place[0]], place[1..]))
  }

  function NodeAt(node: VfsNode, place: seq<nat>): VfsNode
    requires OnTree(node, place)
    decreases |place|
  {
    if place == [] then node else NodeAt(node.children[place[0]], place[1..])
  }

  /** The tree after assigning through the reference. */
  function Assign(node: VfsNode, place: seq<nat>, n: VfsNode): VfsNode
    requires OnTree(node, place)
    decreases |place|
  {
    if place == [] then n
    else Directory(node.name, node.children[place[0] := Assign(node.children[place[0]], place[1..], n)])
  }

  /** The place the walk along `path` reaches. */
  function Find(node: VfsNode, path: seq<string>): Option<seq<nat>>
    decreases |path|
  {
    if path == [] then Some([])
    else if node.File? then None
    else match IndexOf(node.children, path[0]) {
      case None => None
      case Some(i) => Prepend([i], Find(node.children[i], path[1..]))
    }
  }

  function Prepend(place: seq<nat>, rest: Option<seq<nat>>): Option<seq<nat>> {
    match rest
    case None => None
    case Some(r) => Some(place + r)
  }

  lemma PrependNothing(r: Option<seq<nat>>)
    ensures Prepend([], r) == r
  {
    if r.Some? {
      assert [] + r.value == r.value;
    }
  }

  lemma PrependStep(place: seq<nat>, i: nat, r: Option<seq<nat>>)
    ensures Prepend(place, Prepend([i], r)) == Prepend(place + [i], r)
  {
    if r.Some? {
      assert place + ([i] + r.value) == (place + [i]) + r.value;
    }
  }

  lemma {:induction false} OneStepDown(node: VfsNode, place: seq<nat>, i: nat)
    requires OnTree(node, place) && NodeAt(node, place).Directory? && i < |NodeAt(node, place).children|
    ensures OnTree(node, place + [i]) && NodeAt(node, place + [i]) == NodeAt(node, place).children[i]
    decreases |place|
  {
    if place != [] {
      OneStepDown(node.children[place[0]], place[1..], i);
      assert (place + [i])[1..] == place[1..] + [i];
    }
  }

  /** The walk reaches a node exactly when the flat map has an entry, and it is that entry. */
  lemma {:induction false} FindIsLookup(node: VfsNode, path: seq<string>)
    ensures Find(node, path).Some? <==> Lookup(node, path).Some?
    ensures Find(node, path).Some? ==>
              OnTree(node, Find(node, path).value)
              && Lookup(node, path) == Some(EntryOf(NodeAt(node, Find(node, path).value)))
    decreases |path|
  {
    if path != [] && node.Directory? && IndexOf(node.children, path[0]).Some? {
      var i := IndexOf(node.children, path[0]).value;
      FindIsLookup(node.children[i], path[1..]);
      if Find(node, path).Some? {
        assert Find(node, path).value[1..] == Find(node.children[i], path[1..]).value;
      }
    }
  }

  /** Changing the children through a reference to the parent is the edit of that directory. */
  lemma {:induction false} AssignIsEdit(node: VfsNode, dir: seq<string>, e: Edit)
    requires Find(node, dir).Some?
    ensures OnTree(node, Find(node, dir).value)
    ensures var parent := NodeAt(node, Find(node, dir).value);
            && ChildrenAt(node, dir) == (if parent.Directory? then Some(parent.children) else None)
            && (parent.Directory? && e(parent.children).Some? ==>
                  EditAt(node, dir, e)
                    == Some(Assign(node, Find(node, dir).value, Directory(parent.name, e(parent.children).value))))
    decreases |dir|
  {
    if dir != [] {
      var i := IndexOf(node.children, dir[0]).value;
      AssignIsEdit(node.children[i], dir[1..], e);
      assert Find(node, dir).value[1..] == Find(node.children[i], dir[1..]).value;
    }
  }
}

module FileSystems {
  import opened Machine
  import opened Paths
  import opened Tree
  import opened Place

  /** A byte string literal, which can hold ASCII only. */
  function Ascii(s: string): (b: seq<byte>)
    ensures |b| == |s| && forall i | 0 <= i < |b| :: b[i] < 128
  {
    seq(|s|, i requires 0 <= i < |s| => if s[i] as int < 128 then s[i] as int as byte else 63)
  }

  const SYSTEM_CONF: seq<byte> := Ascii("[system]\nos_name = open_kernel\nversion = 0.1.0\narch = x86_64\n")
  const README: seq<byte> := Ascii("Welcome to open_kernel OS in-memory VFS!\n")
  const INIT: seq<byte> := Ascii("#!/bin/sh\necho booting open_kernel...\n")

  ghost function DefaultStructure(config: string, bin: string, home: string, conf: string, readme: string, init: string)
    : FlatMap
  {
    imap[[] := Dir, [config] := Dir, [bin] := Dir, [home] := Dir]
      [[config, conf] := Bytes(SYSTEM_CONF)][[readme] := Bytes(README)][[bin, init] := Bytes(INIT)]
  }

  ghost function DefaultView(): FlatMap {
    DefaultStructure("config", "bin", "home", "system.conf", "readme.txt", "init")
  }

  /** A listing names each child once and says of each name what the flat map says. */
  lemma ListingMatchesView(root: VfsNode, p: seq<string>)
    requires WellFormed(root) && ChildrenAt(root, p).Some?
    ensures var l := Listing(ChildrenAt(root, p).value);
            && (forall n, d :: (n, d) in l <==>
                  Lookup(root, p + [n]).Some? && (d <==> Lookup(root, p + [n]) == Some(Dir)))
            && (forall i, j | 0 <= i < j < |l| :: l[i].0 != l[j].0)
  {
    var cs := ChildrenAt(root, p).value;
    var l := Listing(cs);
    ChildrenWellFormed(root, p);
    forall n, d
      ensures (n, d) in l <==> Lookup(root, p + [n]).Some? && (d <==> Lookup(root, p + [n]) == Some(Dir))
    {
      LookupThrough(root, p, [n]);
      match IndexOf(cs, n)
      case None =>
        forall i | 0 <= i < |l| ensures l[i].0 != n {
          assert cs[i] in cs;
        }
      case Some(i) =>
        assert l[i] == (n, cs[i].Directory?);
        assert [n][1..] == [];
    }
  }

  class FileSystem {
    var root: VfsNode

    ghost predicate Valid()
      reads this
    {
      root.Directory? && WellFormed(root)
    }

    ghost function Entries(): FlatMap
      reads this
    {
      View(root)
    }

    /** `iter().position(|c| c.name() == name)`, and the search loops of the other methods. */
    static method Position(children: seq<VfsNode>, name: string) returns (r: Option<nat>)
      ensures r == IndexOf(children, name)
    {
      for i := 0 to |children|
        invariant forall k | 0 <= k < i :: children[k].name != name
      {
        if children[i].name == name {
          IndexIs(children, name, i);
          return Some(i);
        }
      }
      IndexMissing(children, name);
      return None;
    }

    method FindNodeMut(path: string) returns (r: Option<seq<nat>>)
      ensures r == Find(root, Components(path))
      ensures r.Some? ==> OnTree(root, r.value)
    {
      var cleanPath := Trim(path);
      RootPath(path);
      TrimComponents(path);
      if cleanPath == "" {
        return Some([]);
      }
      var parts := NonEmpty(Split(cleanPath));
      ComponentsAreNames(cleanPath);
      var curr, place := root, [];
      assert parts[0..] == parts;
      PrependNothing(Find(root, parts));
      for k := 0 to |parts|
        invariant OnTree(root, place) && NodeAt(root, place) == curr
        invariant Find(root, parts) == Prepend(place, Find(curr, parts[k..]))
      {
        assert parts[k..][1..] == parts[k + 1..];
        if curr.File? {
          return None;
        }
        assert Name(parts[k]);
        var found := Position(curr.children, parts[k]);
        if found.None? {
          return None;
        }
        OneStepDown(root, place, found.value);
        PrependStep(place, found.value, Find(curr.children[found.value], parts[k + 1..]));
        place := place + [found.value];
        curr := curr.children[found.value];
      }
      r := Some(place);
      assert parts[|parts|..] == [] && place + [] == place;
    }

    static method ListChildren(children: seq<VfsNode>) returns (res: seq<(string, bool)>)
      ensures res == Listing(children)
    {
      res := [];
      for i := 0 to |children|
        invariant res == Listing(children[..i])
      {
        res := res + [(children[i].name, children[i].Directory?)];
      }
      assert children[..|children|] == children;
    }

    method ListDirectory(path: string) returns (r: Option<seq<(string, bool)>>)
      ensures r.Some? <==> Lookup(root, Components(path)) == Some(Dir)
      ensures r == ListingAt(root, Components(path))
    {
      var found := FindNodeMut(path);
      FindIsLookup(root, Components(path));
      EditSucceeds(root, Components(path), Drop(""));
      if found.None? {
        return None;
      }
      AssignIsEdit(root, Components(path), Drop(""));
      var node := NodeAt(root, found.value);
      if node.File? {
        return None;
      }
      var res := ListChildren(node.children);
      return Some(res);
    }

    method ReadFile(path: string) returns (r: Option<seq<byte>>)
      ensures r == match Lookup(root, Components(path))
                   case Some(Bytes(b)) => Some(b)
                   case _ => None
    {
      var found := FindNodeMut(path);
      FindIsLookup(root, Components(path));
      if found.None? {
        return None;
      }
      match NodeAt(root, found.value)
      case File(_, content) => return Some(content);
      case Directory(_, _) => return None;
    }

    method WriteFile(path: string, data: seq<byte>) returns (ok: bool)
      requires Valid()
      modifies this
      ensures Valid()
      ensures var p := Components(path);
              ok <==> p != [] && Lookup(old(root), Parent(p)) == Some(Dir) && Lookup(old(root), p) != Some(Dir)
      ensures ok ==> var p := Components(path);
              Some(root) == WriteTree(old(root), p, data) && Entries() == old(Entries())[p := Bytes(data)]
      ensures !ok ==> root == old(root)
    {
      var cleanPath := Trim(path);
      RootPath(path);
      if cleanPath == "" {
        return false;
      }
      var (parentPath, fileName) := ParentAndName(cleanPath);
      ParsersAgree(path);
      ghost var p := Components(path);
      assert Parent(p) == Components(parentPath) && Base(p) == fileName;
      WriteRefines(root, p, data);
      OperationsKeepWellFormed(root, p, data);
      FindIsLookup(root, Parent(p));
      EditSucceeds(root, Parent(p), PutFile(fileName, data));
      var found := FindNodeMut(parentPath);
      if found.Some? {
        AssignIsEdit(root, Parent(p), PutFile(fileName, data));
        var parent := NodeAt(root, found.value);
        if parent.Directory? {
          var pos := Position(parent.children, fileName);
          if pos.Some? {
            if parent.children[pos.value].File? {
              var file := File(parent.children[pos.value].name, data);
              root := Assign(root, found.value, Directory(parent.name, parent.children[pos.value := file]));
              return true;
            }
            return false;
          }
          root := Assign(root, found.value, Directory(parent.name, parent.children + [File(fileName, data)]));
          return true;
        }
      }
      return false;
    }

    method Mkdir(path: string) returns (ok: bool)
      requires Valid()
      modifies this
      ensures Valid()
      ensures var p := Components(path);
              ok <==> p != [] && Lookup(old(root), Parent(p)) == Some(Dir) && Lookup(old(root), p).None?
      ensures ok ==> var p := Components(path);
              Some(root) == MkdirTree(old(root), p) && Entries() == old(Entries())[p := Dir]
      ensures !ok ==> root == old(root)
    {
      var cleanPath := Trim(path);
      RootPath(path);
      if cleanPath == "" {
        return false;
      }
      var (parentPath, dirName) := ParentAndName(cleanPath);
      ParsersAgree(path);
      ghost var p := Components(path);
      assert Parent(p) == Components(parentPath) && Base(p) == dirName;
      MkdirRefines(root, p);
      OperationsKeepWellFormed(root, p, []);
      FindIsLookup(root, Parent(p));
      EditSucceeds(root, Parent(p), AddDirectory(dirName));
      var found := FindNodeMut(parentPath);
      if found.Some? {
        AssignIsEdit(root, Parent(p), AddDirectory(dirName));
        var parent := NodeAt(root, found.value);
        if parent.Directory? {
          var pos := Position(parent.children, dirName);
          if pos.Some? {
            return false;
          }
          root := Assign(root, found.value, Directory(parent.name, parent.children + [Directory(dirName, [])]));
          return true;
        }
      }
      return false;
    }

    method Remove(path: string) returns (ok: bool)
      requires Valid()
      modifies this
      ensures Valid()
      ensures ok <==> Components(path) != [] && Lookup(old(root), Components(path)).Some?
      ensures ok ==> var p := Components(path);
              Some(root) == RemoveTree(old(root), p) && Entries() == Without(old(Entries()), p)
      ensures !ok ==> root == old(root)
    {
      var cleanPath := Trim(path);
      RootPath(path);
      if cleanPath == "" {
        return false;
      }
      var (parentPath, targetName) := ParentAndName(cleanPath);
      ParsersAgree(path);
      ghost var p := Components(path);
      assert Parent(p) == Components(parentPath) && Base(p) == targetName;
      RemoveRefines(root, p);
      OperationsKeepWellFormed(root, p, []);
      FindIsLookup(root, Parent(p));
      EditSucceeds(root, Parent(p), Drop(targetName));
      var found := FindNodeMut(parentPath);
      if found.Some? {
        AssignIsEdit(root, Parent(p), Drop(targetName));
        var parent := NodeAt(root, found.value);
        if parent.Directory? {
          var pos := Position(parent.children, targetName);
          if pos.Some? {
            var children := parent.children[..pos.value] + parent.children[pos.value + 1..];
            root := Assign(root, found.value, Directory(parent.name, children));
            return true;
          }
        }
      }
      return false;
    }

    /** The tree every boot starts from; the two paths with a slash are spelled d + "/" + n. */
    method InitDefaultStructure()
      requires Valid() && Entries() == imap[[] := Dir]
      modifies this
      ensures Valid() && Entries() == DefaultView()
    {
      Populate("config", "bin", "home", "system.conf", "readme.txt", "init");
    }

    method MkdirTop(n: string)
      requires Valid() && Name(n) && [] in Entries() && Entries()[[]] == Dir && [n] !in Entries()
      modifies this
      ensures Valid() && Entries() == old(Entries())[[n] := Dir]
    {
      NameIsPath(n);
      assert Lookup(root, []) == Some(Dir);
      var ok := Mkdir(n);
    }

    method Populate(config: string, bin: string, home: string, conf: string, readme: string, init: string)
      requires Valid() && Entries() == imap[[] := Dir]
      requires Name(config) && Name(bin) && Name(home) && Name(conf) && Name(readme) && Name(init)
      requires config != bin && config != home && bin != home
      requires readme != config && readme != bin && readme != home
      modifies this
      ensures Valid() && Entries() == DefaultStructure(config, bin, home, conf, readme, init)
    {
      MkdirTop(config);
      KeyApart(bin, config);
      MkdirTop(bin);
      KeyApart(home, config);
      KeyApart(home, bin);
      MkdirTop(home);
      PopulateFiles(config, bin, home, conf, readme, init);
    }

    method PopulateFiles(config: string, bin: string, home: string, conf: string, readme: string, init: string)
      requires Valid() && Entries() == imap[[] := Dir, [config] := Dir, [bin] := Dir, [home] := Dir]
      requires Name(config) && Name(bin) && Name(home) && Name(conf) && Name(readme) && Name(init)
      requires config != bin && readme != config && readme != bin && readme != home
      modifies this
      ensures Valid() && Entries() == DefaultStructure(config, bin, home, conf, readme, init)
    {
      ghost var m := Entries();
      assert [] in m && [config] in m && [bin] in m;
      assert Lookup(root, []) == Some(Dir) && Lookup(root, [config]) == Some(Dir) && Lookup(root, [bin]) == Some(Dir);
      PairIsPath(config, conf);
      assert [config, conf] !in m && [bin, init] !in m;
      var ok := WriteFile(config + "/" + conf, SYSTEM_CONF);
      ghost var m1 := Entries();
      assert m1 == m[[config, conf] := Bytes(SYSTEM_CONF)];
      NameIsPath(readme);
      KeyApart(readme, config);
      KeyApart(readme, bin);
      KeyApart(readme, home);
      assert [readme] !in m1 && [] in m1 && m1[[]] == Dir;
      ok := WriteFile(readme, README);
      ghost var m2 := Entries();
      assert m2 == m1[[readme] := Bytes(README)];
      PairIsPath(bin, init);
      assert [bin, init] != [config, conf] by { assert [bin, init][0] != [config, conf][0]; }
      assert [bin, init] !in m2 && [bin] in m2 && m2[[bin]] == Dir;
      ok := WriteFile(bin + "/" + init, INIT);
      assert Entries() == m2[[bin, init] := Bytes(INIT)];
    }

    constructor ()
      ensures Valid() && Entries() == DefaultView()
    {
      root := Directory("/", []);
      new;
      EmptyTree("/");
      InitDefaultStructure();
    }
  }

  lemma EmptyTree(name: string)
    ensures View(Directory(name, [])) == imap[[] := Dir]
  {
    forall q: seq<string> | q != [] ensures Lookup(Directory(name, []), q).None? {
    }
  }

  lemma KeyApart(a: string, b: string)
    requires a != b
    ensures [a] != [b]
  {
    assert [a][0] != [b][0];
  }

  lemma NameIsPath(n: string)
    requires Name(n)
    ensures Components(n) == [n] && Parent([n]) == [] && Base([n]) == n
  {
    ComponentsOfName(n);
  }

  lemma PairIsPath(d: string, n: string)
    requires Name(d) && Name(n)
    ensures Components(d + "/" + n) == [d, n] && Parent([d, n]) == [d] && Base([d, n]) == n
  {
    ComponentsAtSlash(d, n);
    ComponentsOfName(d);
    ComponentsOfName(n);
  }

  /** A new directory is listed last by its parent; every other listing stays as it was. */
  method MkdirThenList(fs: FileSystem, path: string, dir: string)
    returns (made: bool, before: Option<seq<(string, bool)>>, after: Option<seq<(string, bool)>>)
    requires fs.Valid()
    modifies fs
    ensures made ==>
              var (p, d) := (Components(path), Components(dir));
              && p != [] && (d == Parent(p) ==> before.Some?)
              && after == if d == Parent(p) then Some(before.value + [(Base(p), true)])
                          else if d == p then Some([])
                          else before
    ensures !made ==> after == before
  {
    before := fs.ListDirectory(dir);
    made := fs.Mkdir(path);
    after := fs.ListDirectory(dir);
    if made {
      MkdirListing(old(fs.root), Components(path), Components(dir));
    }
  }

  /** A new directory, removed by the same path, leaves the very same tree. */
  method MkdirThenRemove(fs: FileSystem, path: string) returns (made: bool)
    requires fs.Valid()
    modifies fs
    ensures fs.Valid() && (made ==> fs.root == old(fs.root))
  {
    made := fs.Mkdir(path);
    if made {
      CreationUndone(old(fs.root), Components(path), []);
      assert Components(path) in fs.Entries();
      var removed := fs.Remove(path);
      assert removed;
    }
  }

  /** So does a new file. */
  method CreateThenRemove(fs: FileSystem, path: string, data: seq<byte>) returns (written: bool)
    requires fs.Valid() && Lookup(fs.root, Components(path)).None?
    modifies fs
    ensures fs.Valid() && (written ==> fs.root == old(fs.root))
  {
    written := fs.WriteFile(path, data);
    if written {
      CreationUndone(old(fs.root), Components(path), data);
      assert Components(path) in fs.Entries();
      var removed := fs.Remove(path);
      assert removed;
    }
  }
}
