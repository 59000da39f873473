/**
 The state behind the shell's file commands (src/vfs.rs:195-310): the file system and the current
 directory.  A Rust string is a byte sequence that is valid UTF-8.
 */
module Utf8 {
  import opened Machine

  predicate Tail(b: byte) { 0x80 <= b < 0xC0 }

  /** Well-formed UTF-8, section 4 of RFC 3629. */
  predicate ValidUtf8(b: seq<byte>)
    decreases |b|
  {
    || b == []
    || (b[0] < 0x80 && ValidUtf8(b[1..]))
    || (|b| >= 2 && 0xC2 <= b[0] <= 0xDF && Tail(b[1]) && ValidUtf8(b[2..]))
    || (|b| >= 3 && 0xE0 <= b[0] <= 0xEF && Tail(b[1]) && Tail(b[2])
        && (b[0] == 0xE0 ==> b[1] >= 0xA0) && (b[0] == 0xED ==> b[1] < 0xA0) && ValidUtf8(b[3..]))
    || (|b| >= 4 && 0xF0 <= b[0] <= 0xF4 && Tail(b[1]) && Tail(b[2]) && Tail(b[3])
        && (b[0] == 0xF0 ==> b[1] >= 0x90) && (b[0] == 0xF4 ==> b[1] < 0x90) && ValidUtf8(b[4..]))
  }

  lemma {:induction false} AsciiIsUtf8(b: seq<byte>)
    requires forall i | 0 <= i < |b| :: b[i] < 128
    ensures ValidUtf8(b)
    decreases |b|
  {
    if b != [] {
      AsciiIsUtf8(b[1..]);
    }
  }
}

module Vfs {
  import opened Machine
  import opened Paths
  import opened Tree
  import opened FileSystems
  import opened Utf8

  /** Every file holds text. */
  ghost predicate AllText(m: FlatMap) {
    forall p | p in m && m[p].Bytes? :: ValidUtf8(m[p].content)
  }

  lemma DefaultIsText(config: string, bin: string, home: string, conf: string, readme: string, init: string)
    ensures AllText(DefaultStructure(config, bin, home, conf, readme, init))
  {
    AsciiIsUtf8(SYSTEM_CONF);
    AsciiIsUtf8(README);
    AsciiIsUtf8(INIT);
  }

  /** What a path reads as. */
  ghost function ReadOf(m: FlatMap, cwd: string, path: string): Option<seq<byte>> {
    var p := Meaning(cwd, path);
    if p in m && m[p].Bytes? then Some(m[p].content) else None
  }

  /** After a write through one spelling, every spelling of the same path reads the new text and
      every other path reads what it read before. */
  lemma ReadYourWrites(m: FlatMap, cwd: string, path: string, content: seq<byte>, q: string)
    ensures ReadOf(m[Meaning(cwd, path) := Bytes(content)], cwd, q)
         == if Resolve(cwd, q) == Resolve(cwd, path) then Some(content) else ReadOf(m, cwd, q)
  {
    SameSpelling(cwd, path, q);
  }

  /** A proper name, from the root, means itself. */
  lemma NameFromRoot(n: string)
    requires CanonicalParts([n])
    ensures Meaning("/", n) == [n]
  {
    assert n in [n];
    SpellSegments([]);
    SplitName(n);
    WalkInPieces([], ["", ""], [n]);
    EmptySegments([], ["", ""]);
    WalkForward([], [n]);
  }

  /** "." means the current directory. */
  lemma DotMeansHere(cwd: string)
    requires Canonical(cwd)
    ensures Meaning(cwd, ".") == Components(cwd)
  {
    var parts :| CanonicalParts(parts) && cwd == Spell(parts);
    SpellRoundTrip(parts, cwd);
    SpellWalk(parts);
    SplitName(".");
    WalkInPieces([], Split(cwd), ["."]);
    assert ["."][..0] == [] && WalkAll(parts, ["."][..0]) == parts;
  }

  lemma DirectoryInView(root: VfsNode, p: seq<string>)
    ensures Lookup(root, p) == Some(Dir) <==> p in View(root) && View(root)[p] == Dir
  {
  }

  lemma DefaultHome(config: string, bin: string, home: string, conf: string, readme: string, init: string)
    requires home != readme
    ensures var m := DefaultStructure(config, bin, home, conf, readme, init); [home] in m && m[[home]] == Dir
  {
    KeyApart(home, readme);
    assert |[home]| == 1 && |[config, conf]| == 2 && |[bin, init]| == 2;
  }

  class State {
    const fs: FileSystem
    var currentDir: string

    ghost predicate Valid()
      reads this, fs
    {
      fs.Valid() && Canonical(currentDir) && AllText(fs.Entries())
    }

    /** The current directory names a directory. */
    ghost predicate Here()
      reads this, fs
    {
      Lookup(fs.root, Components(currentDir)) == Some(Dir)
    }

    constructor ()
      ensures Valid() && fresh(fs) && Here()
      ensures currentDir == "/" && fs.Entries() == DefaultView()
    {
      fs := new FileSystem();
      currentDir := "/";
      new;
      assert CanonicalParts([]) && currentDir == Spell([]);
      SpellRoundTrip([], "/");
      assert [] in fs.Entries();
      DefaultIsText("config", "bin", "home", "system.conf", "readme.txt", "init");
    }

    /** The loop of `resolve_path`. */
    static method WalkSegments(segments: seq<string>) returns (parts: seq<string>)
      ensures parts == WalkAll([], segments)
    {
      parts := [];
      for i := 0 to |segments|
        invariant parts == WalkAll([], segments[..i])
      {
        var segment := segments[i];
        if segment == "" || segment == "." {
        } else if segment == ".." {
          if |parts| > 0 {
            parts := parts[..|parts| - 1];
          }
        } else {
          parts := parts + [segment];
        }
        assert segments[..i + 1][..i] == segments[..i];
      }
      assert segments[..|segments|] == segments;
    }

    method ResolvePath(path: string) returns (r: string)
      requires Valid()
      ensures r == Resolve(currentDir, path) && Canonical(r)
      ensures Components(r) == Meaning(currentDir, path)
    {
      var base := if path != "" && path[0] == '/' then "/" else currentDir;
      var parts := WalkSegments(Split(base) + Split(path));
      MeaningIsCanonical(currentDir, path);
      SpellRoundTrip(parts, currentDir);
      if parts == [] {
        r := "/";
      } else {
        r := "/" + Join(parts);
      }
    }

    method ChangeDirectory(path: string) returns (ok: bool)
      requires Valid()
      modifies this
      ensures Valid() && fs.root == old(fs.root)
      ensures ok <==> Lookup(fs.root, Meaning(old(currentDir), path)) == Some(Dir)
      ensures currentDir == if ok then Resolve(old(currentDir), path) else old(currentDir)
      ensures Here() <==> ok || old(Here())
    {
      var resolved := ResolvePath(path);
      if resolved == "/" {
        currentDir := "/";
        SpellRoundTrip([], "/");
        assert Spell([]) == "/";
        return true;
      }
      var node := fs.FindNodeMut(resolved);
      Place.FindIsLookup(fs.root, Components(resolved));
      if node.Some? && Place.NodeAt(fs.root, node.value).Directory? {
        currentDir := resolved;
        return true;
      }
      return false;
    }

    /** The listing printed by `ls`, for a path or, when there is none, the current directory. */
    method ListDirectory(path: string) returns (r: Option<seq<(string, bool)>>)
      requires Valid()
      ensures var p := Meaning(currentDir, path);
              && (r.Some? <==> Lookup(fs.root, p) == Some(Dir))
              && r == ListingAt(fs.root, p)
    {
      var target;
      if path == "" {
        target := currentDir;
        ghost var parts :| CanonicalParts(parts) && currentDir == Spell(parts);
        SpellRoundTrip(parts, currentDir);
        SpellWalk(parts);
        assert Split("") == [""];
        WalkInPieces([], Split(currentDir), [""]);
        EmptySegments(parts, [""]);
      } else {
        target := ResolvePath(path);
      }
      r := fs.ListDirectory(target);
    }

    method ReadFileString(path: string) returns (r: Option<seq<byte>>)
      requires Valid()
      ensures r == ReadOf(fs.Entries(), currentDir, path)
    {
      var resolved := ResolvePath(path);
      var bytes := fs.ReadFile(resolved);
      if bytes.Some? && ValidUtf8(bytes.value) {
        return bytes;
      }
      return None;
    }

    method WriteFileString(path: string, content: seq<byte>) returns (ok: bool)
      requires Valid() && ValidUtf8(content)
      modifies fs
      ensures Valid()
      ensures var p := Meaning(currentDir, path);
              && (ok <==> && p != [] && Lookup(old(fs.root), Parent(p)) == Some(Dir)
                          && Lookup(old(fs.root), p) != Some(Dir))
              && fs.Entries() == if ok then old(fs.Entries())[p := Bytes(content)] else old(fs.Entries())
      ensures Here() <==> old(Here())
    {
      var resolved := ResolvePath(path);
      ok := fs.WriteFile(resolved, content);
      DirectoryInView(fs.root, Components(currentDir));
    }

    method CreateDir(path: string) returns (ok: bool)
      requires Valid()
      modifies fs
      ensures Valid()
      ensures var p := Meaning(currentDir, path);
              && (ok <==> p != [] && Lookup(old(fs.root), Parent(p)) == Some(Dir) && Lookup(old(fs.root), p).None?)
              && fs.Entries() == if ok then old(fs.Entries())[p := Dir] else old(fs.Entries())
      ensures Here() <==> old(Here()) || (ok && Meaning(currentDir, path) == Components(currentDir))
    {
      var resolved := ResolvePath(path);
      ok := fs.Mkdir(resolved);
      DirectoryInView(fs.root, Components(currentDir));
    }

    /** `remove_node` may remove the current directory, or one above it; the current directory then
        names nothing, and it names a directory as before exactly when it was not at or below the
        path. */
    method RemoveNode(path: string) returns (ok: bool)
      requires Valid()
      modifies fs
      ensures Valid()
      ensures var p := Meaning(currentDir, path);
              && (ok <==> p != [] && Lookup(old(fs.root), p).Some?)
              && fs.Entries() == if ok then Without(old(fs.Entries()), p) else old(fs.Entries())
      ensures Here() <==> old(Here()) && !(ok && Meaning(currentDir, path) <= Components(currentDir))
    {
      var resolved := ResolvePath(path);
      ok := fs.Remove(resolved);
      DirectoryInView(fs.root, Components(currentDir));
    }
  }

  lemma HomeAtBoot(root: VfsNode)
    requires View(root) == DefaultView()
    ensures Lookup(root, ["home"]) == Some(Dir)
    ensures CanonicalParts(["home"]) && Spell(["home"]) == "/home"
  {
    DefaultHome("config", "bin", "home", "system.conf", "readme.txt", "init");
    DirectoryInView(root, ["home"]);
  }

  /** Anywhere but at the root, `rm .` loses the current directory. */
  method RemoveDot(state: State)
    requires state.Valid() && state.Here() && Components(state.currentDir) != []
    modifies state.fs
    ensures state.Valid() && !state.Here()
  {
    DotMeansHere(state.currentDir);
    var ok := state.RemoveNode(".");
  }

  method GoInto(state: State, n: string)
    requires state.Valid() && state.currentDir == "/" && CanonicalParts([n])
    requires Lookup(state.fs.root, [n]) == Some(Dir)
    modifies state
    ensures state.Valid() && state.Here() && state.currentDir == Spell([n]) && Components(state.currentDir) == [n]
  {
    NameFromRoot(n);
    SpellRoundTrip([n], "/");
    var ok := state.ChangeDirectory(n);
  }

  function Up(p: seq<string>): seq<string> {
    if p == [] then [] else p[..|p| - 1]
  }

  lemma DotDotFrom(cwd: string)
    requires Canonical(cwd)
    ensures Meaning(cwd, "..") == Up(Components(cwd)) == Components(Resolve(cwd, ".."))
  {
    var parts :| CanonicalParts(parts) && cwd == Spell(parts);
    SpellRoundTrip(parts, "/");
    DotDotGoesUp(parts);
    MeaningIsCanonical(cwd, "..");
    SpellRoundTrip(Meaning(cwd, ".."), "/");
  }

  lemma DirectoryAbove(root: VfsNode, p: seq<string>)
    requires Lookup(root, p) == Some(Dir)
    ensures Lookup(root, Up(p)) == Some(Dir)
  {
    if p != [] {
      PrefixClosed(root, p, |p| - 1);
    }
  }

  /** From a current directory that is one, `cd ..` always succeeds, and leads to the directory above;
      at the root it stays. */
  method GoUp(state: State) returns (ok: bool)
    requires state.Valid() && state.Here()
    modifies state
    ensures state.Valid() && state.Here() && ok && state.fs.root == old(state.fs.root)
    ensures Components(state.currentDir) == Up(Components(old(state.currentDir)))
  {
    DotDotFrom(state.currentDir);
    DirectoryAbove(state.fs.root, Components(state.currentDir));
    ok := state.ChangeDirectory("..");
  }

  /** It happens: after a boot, `cd home` and `rm .` leave the shell in "/home", which names
      nothing. */
  method RemoveHomeFromInside() returns (state: State)
    ensures state.Valid() && state.currentDir == "/home" && !state.Here()
  {
    state := new State();
    HomeAtBoot(state.fs.root);
    GoInto(state, "home");
    RemoveDot(state);
  }

  /** Writing through one path and reading through another. */
  method WriteThenRead(state: State, path: string, content: seq<byte>, q: string)
    returns (ok: bool, r: Option<seq<byte>>)
    requires state.Valid() && ValidUtf8(content)
    modifies state.fs
    ensures state.Valid()
    ensures r == if ok && Resolve(state.currentDir, q) == Resolve(state.currentDir, path) then Some(content)
                 else ReadOf(old(state.fs.Entries()), state.currentDir, q)
  {
    ok := state.WriteFileString(path, content);
    r := state.ReadFileString(q);
    ReadYourWrites(old(state.fs.Entries()), state.currentDir, path, content, q);
  }
}
