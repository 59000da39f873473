/**
 The string side of src/vfs.rs: how a path is trimmed, split and normalised.

 The string functions here are the library calls the source makes (`trim_matches`, `split`,
 `filter`, `rfind`, `join`); the lemmas are what the file system relies on.
 */
module Paths {
  import opened Machine

  const SLASH: char := '/'

  // ---- Library string functions ----

  /** The pieces of [c] + s, from those of s. */
  function Extend(c: char, pieces: seq<string>): (r: seq<string>)
    requires |pieces| > 0
    ensures |r| > 0
  {
    if c == SLASH then [""] + pieces else [[c] + pieces[0]] + pieces[1..]
  }

  /** `s.split('/')` */
  function Split(s: string): (r: seq<string>)
    ensures |r| > 0
  {
    if s == "" then [""] else Extend(s[0], Split(s[1..]))
  }

  /** `.filter(|s| !s.is_empty())` */
  function NonEmpty(ss: seq<string>): seq<string> {
    if ss == [] then [] else (if ss[0] == "" then [] else [ss[0]]) + NonEmpty(ss[1..])
  }

  function TrimLeft(s: string): string {
    if s != "" && s[0] == SLASH then TrimLeft(s[1..]) else s
  }

  function TrimRight(s: string): string {
    if s != "" && s[|s| - 1] == SLASH then TrimRight(s[..|s| - 1]) else s
  }

  /** `s.trim_matches('/')` */
  function Trim(s: string): string { TrimRight(TrimLeft(s)) }

  /** `s.rfind('/')` */
  function RFind(s: string): (r: Option<nat>)
    ensures r.None? <==> SLASH !in s
    ensures r.Some? ==> r.value < |s| && s[r.value] == SLASH && SLASH !in s[r.value + 1..]
  {
    if s == "" then None
    else if s[|s| - 1] == SLASH then Some(|s| - 1)
    else RFind(s[..|s| - 1])
  }

  /** `ss.join("/")` */
  function Join(ss: seq<string>): string
    requires ss != []
  {
    if |ss| == 1 then ss[0] else ss[0] + "/" + Join(ss[1..])
  }

  // ---- Components ----

  predicate Name(s: string) { s != "" && SLASH !in s }

  /** The names a path walks through, ignoring empty segments. */
  function Components(s: string): seq<string> { NonEmpty(Split(s)) }

  lemma ExtendAppend(c: char, r: seq<string>, t: seq<string>)
    requires |r| > 0
    ensures Extend(c, r + t) == Extend(c, r) + t
  {
    assert (r + t)[0] == r[0] && (r + t)[1..] == r[1..] + t;
  }

  lemma {:induction false} SplitAtSlash(a: string, b: string)
    ensures Split(a + "/" + b) == Split(a) + Split(b)
  {
    var s := a + "/" + b;
    if a == "" {
      assert s[0] == SLASH && s[1..] == b;
    } else {
      assert s[0] == a[0] && s[1..] == a[1..] + "/" + b;
      SplitAtSlash(a[1..], b);
      ExtendAppend(a[0], Split(a[1..]), Split(b));
    }
  }

  lemma {:induction false} SplitName(s: string)
    requires SLASH !in s
    ensures Split(s) == [s]
  {
    if s != "" {
      assert s == [s[0]] + s[1..];
      SplitName(s[1..]);
    }
  }

  /** A walk only ever looks for proper names. */
  lemma ComponentsAreNames(s: string)
    ensures forall c | c in Components(s) :: Name(c)
  {
    SplitGivesSegments(s);
    NonEmptyKeeps(Split(s));
  }

  lemma {:induction false} SplitGivesSegments(s: string)
    ensures forall c | c in Split(s) :: SLASH !in c
  {
    if s != "" {
      SplitGivesSegments(s[1..]);
      var r := Split(s[1..]);
      assert r[0] in r;
      forall c | c in Split(s) ensures SLASH !in c {
        assert c == "" || c == [s[0]] + r[0] || c in r;
      }
    }
  }

  lemma {:induction false} NonEmptyKeeps(ss: seq<string>)
    ensures forall c :: c in NonEmpty(ss) <==> c in ss && c != ""
  {
    if ss != [] {
      NonEmptyKeeps(ss[1..]);
      assert forall c :: c in ss <==> c == ss[0] || c in ss[1..];
    }
  }

  lemma {:induction false} NonEmptyAppend(a: seq<string>, b: seq<string>)
    ensures NonEmpty(a + b) == NonEmpty(a) + NonEmpty(b)
  {
    if a == [] {
      assert a + b == b;
    } else {
      assert (a + b)[1..] == a[1..] + b;
      NonEmptyAppend(a[1..], b);
    }
  }

  lemma ComponentsAtSlash(a: string, b: string)
    ensures Components(a + "/" + b) == Components(a) + Components(b)
  {
    SplitAtSlash(a, b);
    NonEmptyAppend(Split(a), Split(b));
  }

  lemma ComponentsOfName(s: string)
    requires Name(s)
    ensures Components(s) == [s]
  {
    SplitName(s);
    NonEmptyNames([s]);
  }

  lemma {:induction false} TrimLeftComponents(s: string)
    ensures Components(TrimLeft(s)) == Components(s)
  {
    if s != "" && s[0] == SLASH {
      TrimLeftComponents(s[1..]);
      assert s == "" + "/" + s[1..];
      ComponentsAtSlash("", s[1..]);
    }
  }

  lemma {:induction false} TrimRightComponents(s: string)
    ensures Components(TrimRight(s)) == Components(s)
  {
    if s != "" && s[|s| - 1] == SLASH {
      var n := |s| - 1;
      TrimRightComponents(s[..n]);
      assert s == s[..n] + "/" + "";
      ComponentsAtSlash(s[..n], "");
    }
  }

  lemma {:induction false} TrimRightEnds(s: string)
    ensures TrimRight(s) != "" ==> TrimRight(s)[|TrimRight(s)| - 1] != SLASH
  {
    if s != "" && s[|s| - 1] == SLASH {
      TrimRightEnds(s[..|s| - 1]);
    }
  }

  lemma TrimComponents(s: string)
    ensures Components(Trim(s)) == Components(s)
  {
    TrimLeftComponents(s);
    TrimRightComponents(TrimLeft(s));
  }

  /** The parent/name split of `write_file`, `mkdir` and `remove`. */
  function ParentAndName(clean: string): (string, string) {
    match RFind(clean)
    case Some(i) => (clean[..i], clean[i + 1..])
    case None => ("", clean)
  }

  /** The two parsers agree: whatever the slashes, the walk of the whole path is the walk of the
      `rfind` parent followed by the `rfind` name, which is a proper name. */
  lemma ParsersAgree(path: string)
    requires Trim(path) != ""
    ensures var (parent, name) := ParentAndName(Trim(path));
            Components(path) == Components(parent) + [name] && Name(name)
  {
    var clean := Trim(path);
    var (parent, name) := ParentAndName(clean);
    TrimComponents(path);
    TrimRightEnds(TrimLeft(path));
    assert clean[|clean| - 1] != SLASH;
    match RFind(clean)
    case Some(i) =>
      assert clean == parent + "/" + name;
      ComponentsAtSlash(parent, name);
      ComponentsOfName(name);
    case None =>
      ComponentsOfName(name);
      assert Components("") == [];
  }

  /** Only slashes trim to the empty string, and only they name the root. */
  lemma RootPath(path: string)
    ensures Trim(path) == "" <==> Components(path) == []
  {
    TrimComponents(path);
    if Trim(path) != "" {
      ParsersAgree(path);
    }
  }

  // ---- Normalisation ----

  function Walk(parts: seq<string>, segment: string): seq<string> {
    if segment == "" || segment == "." then parts
    else if segment == ".." then (if parts == [] then [] else parts[..|parts| - 1])
    else parts + [segment]
  }

  function WalkAll(parts: seq<string>, segments: seq<string>): seq<string>
    decreases |segments|
  {
    if segments == [] then parts
    else
      var n := |segments| - 1;
      Walk(WalkAll(parts, segments[..n]), segments[n])
  }

  predicate Absolute(path: string) { path != "" && path[0] == SLASH }

  /** The directory names a path stands for when the current directory is `cwd`. */
  function Meaning(cwd: string, path: string): seq<string> {
    WalkAll([], Split(if Absolute(path) then "/" else cwd) + Split(path))
  }

  function Spell(parts: seq<string>): string {
    if parts == [] then "/" else "/" + Join(parts)
  }

  /** `resolve_path` */
  function Resolve(cwd: string, path: string): string { Spell(Meaning(cwd, path)) }

  predicate CanonicalParts(parts: seq<string>) {
    forall c | c in parts :: Name(c) && c != "." && c != ".."
  }

  /** "/", or proper names each behind one slash. */
  ghost predicate Canonical(path: string) {
    exists parts :: CanonicalParts(parts) && path == Spell(parts)
  }

  lemma {:induction false} WalkInPieces(parts: seq<string>, a: seq<string>, b: seq<string>)
    ensures WalkAll(parts, a + b) == WalkAll(WalkAll(parts, a), b)
    decreases |b|
  {
    if b == [] {
      assert a + b == a;
    } else {
      var n := |b| - 1;
      assert (a + b)[..|a| + n] == a + b[..n];
      WalkInPieces(parts, a, b[..n]);
    }
  }

  lemma WalkKeepsCanonical(parts: seq<string>, segment: string)
    requires CanonicalParts(parts) && SLASH !in segment
    ensures CanonicalParts(Walk(parts, segment))
  {
    forall c | c in Walk(parts, segment) ensures Name(c) && c != "." && c != ".." {
      assert c in parts || c == segment;
    }
  }

  lemma {:induction false} WalkStaysCanonical(parts: seq<string>, segments: seq<string>)
    requires CanonicalParts(parts) && forall c | c in segments :: SLASH !in c
    ensures CanonicalParts(WalkAll(parts, segments))
    decreases |segments|
  {
    if segments != [] {
      var n := |segments| - 1;
      assert segments[n] in segments && forall c | c in segments[..n] :: c in segments;
      WalkStaysCanonical(parts, segments[..n]);
      WalkKeepsCanonical(WalkAll(parts, segments[..n]), segments[n]);
    }
  }

  lemma {:induction false} WalkForward(parts: seq<string>, more: seq<string>)
    requires CanonicalParts(more)
    ensures WalkAll(parts, more) == parts + more
    decreases |more|
  {
    if more != [] {
      var n := |more| - 1;
      WalkForward(parts, more[..n]);
      assert more[n] in more;
      assert more == more[..n] + [more[n]];
    }
  }

  lemma {:induction false} SplitJoin(parts: seq<string>)
    requires parts != [] && forall c | c in parts :: SLASH !in c
    ensures Split(Join(parts)) == parts
  {
    assert parts[0] in parts;
    SplitName(parts[0]);
    if |parts| > 1 {
      SplitJoin(parts[1..]);
      SplitAtSlash(parts[0], Join(parts[1..]));
    }
  }

  lemma {:induction false} NonEmptyNames(ss: seq<string>)
    requires "" !in ss
    ensures NonEmpty(ss) == ss
  {
    if ss != [] {
      NonEmptyNames(ss[1..]);
    }
  }

  lemma {:induction false} EmptySegments(parts: seq<string>, ss: seq<string>)
    requires forall c | c in ss :: c == ""
    ensures WalkAll(parts, ss) == parts
    decreases |ss|
  {
    if ss != [] {
      var n := |ss| - 1;
      assert ss[n] in ss && forall c | c in ss[..n] :: c in ss;
      EmptySegments(parts, ss[..n]);
    }
  }

  lemma SpellSegments(parts: seq<string>)
    requires CanonicalParts(parts)
    ensures Split("/") == ["", ""]
    ensures Split(Spell(parts)) == [""] + (if parts == [] then [""] else parts)
  {
    SplitAtSlash("", "");
    assert "" + "/" + "" == "/";
    if parts != [] {
      SplitJoin(parts);
      SplitAtSlash("", Join(parts));
      assert "" + "/" + Join(parts) == Spell(parts);
    }
  }

  lemma SpellWalk(parts: seq<string>)
    requires CanonicalParts(parts)
    ensures WalkAll([], Split(Spell(parts))) == parts
  {
    SpellSegments(parts);
    if parts == [] {
      EmptySegments([], ["", ""]);
    } else {
      WalkInPieces([], [""], parts);
      EmptySegments([], [""]);
      WalkForward([], parts);
    }
  }

  /** A canonical spelling reads back as its parts, both by the walk and by the normaliser. */
  lemma SpellRoundTrip(parts: seq<string>, cwd: string)
    requires CanonicalParts(parts)
    ensures Absolute(Spell(parts))
    ensures Components(Spell(parts)) == parts && Meaning(cwd, Spell(parts)) == parts
  {
    SpellSegments(parts);
    SpellWalk(parts);
    EmptySegments([], ["", ""]);
    WalkInPieces([], ["", ""], Split(Spell(parts)));
    NonEmptyAppend([""], if parts == [] then [""] else parts);
    NonEmptyNames(parts);
  }

  lemma MeaningIsCanonical(cwd: string, path: string)
    ensures CanonicalParts(Meaning(cwd, path)) && Canonical(Resolve(cwd, path))
  {
    var base := if Absolute(path) then "/" else cwd;
    SplitGivesSegments(base);
    SplitGivesSegments(path);
    WalkStaysCanonical([], Split(base) + Split(path));
  }

  /** Resolving again changes nothing, from whatever directory. */
  lemma ResolveIdempotent(cwd: string, cwd': string, path: string)
    ensures Resolve(cwd', Resolve(cwd, path)) == Resolve(cwd, path)
  {
    MeaningIsCanonical(cwd, path);
    SpellRoundTrip(Meaning(cwd, path), cwd');
  }

  lemma ResolveAbsolute(cwd: string, cwd': string, path: string)
    requires Absolute(path)
    ensures Resolve(cwd, path) == Resolve(cwd', path)
  {
  }

  /** The canonical strings are exactly the results of the normaliser, and exactly its fixed
      points. */
  lemma CanonicalIsFixedPoint(cwd: string, path: string)
    ensures Canonical(path) <==> Resolve(cwd, path) == path
  {
    if Canonical(path) {
      var parts :| CanonicalParts(parts) && path == Spell(parts);
      SpellRoundTrip(parts, cwd);
    }
    MeaningIsCanonical(cwd, path);
  }

  lemma WalkOnward(base: seq<string>, x: seq<string>, y: seq<string>)
    ensures WalkAll([], base + (x + y)) == WalkAll(WalkAll([], base + x), y)
  {
    assert base + (x + y) == (base + x) + y;
    WalkInPieces([], base + x, y);
  }

  lemma AbsoluteJoin(a: string, b: string)
    requires a != ""
    ensures Absolute(a + "/" + b) == Absolute(a)
  {
    assert (a + "/" + b)[0] == a[0];
  }

  lemma MeaningInSteps(cwd: string, a: string, b: string)
    requires a != ""
    ensures Meaning(cwd, a + "/" + b) == WalkAll(Meaning(cwd, a), Split(b))
  {
    AbsoluteJoin(a, b);
    SplitAtSlash(a, b);
    WalkOnward(Split(if Absolute(a) then "/" else cwd), Split(a), Split(b));
  }

  lemma MeaningFrom(parts: seq<string>, b: string)
    requires CanonicalParts(parts) && !Absolute(b)
    ensures Meaning(Spell(parts), b) == WalkAll(parts, Split(b))
  {
    WalkInPieces([], Split(Spell(parts)), Split(b));
    SpellWalk(parts);
  }

  /** Going to a and then to b is going to a/b. */
  lemma ResolveInSteps(cwd: string, a: string, b: string)
    requires a != "" && !Absolute(b)
    ensures Resolve(cwd, a + "/" + b) == Resolve(Resolve(cwd, a), b)
  {
    MeaningInSteps(cwd, a, b);
    MeaningIsCanonical(cwd, a);
    MeaningFrom(Meaning(cwd, a), b);
  }

  /** ".." leads to the directory above, and from the root nowhere else. */
  lemma DotDotGoesUp(parts: seq<string>)
    requires CanonicalParts(parts)
    ensures Meaning(Spell(parts), "..") == if parts == [] then [] else parts[..|parts| - 1]
  {
    MeaningFrom(parts, "..");
    SplitName("..");
    assert [".."][..0] == [] && WalkAll(parts, [".."][..0]) == parts;
  }

  /** Names lead down, one after another. */
  lemma NamesGoDown(parts: seq<string>, names: seq<string>)
    requires CanonicalParts(parts) && CanonicalParts(names) && names != []
    ensures Meaning(Spell(parts), Join(names)) == parts + names
  {
    assert names[0] in names && forall c | c in names :: SLASH !in c;
    SplitJoin(names);
    assert !Absolute(Join(names)) by { assert Join(names)[0] == names[0][0]; }
    MeaningFrom(parts, Join(names));
    WalkForward(parts, names);
  }

  /** A name followed by ".." changes nothing, whatever comes before it. */
  lemma DownAndUp(cwd: string, a: string, n: string)
    requires a != "" && CanonicalParts([n])
    ensures Resolve(cwd, a + "/" + (n + "/" + "..")) == Resolve(cwd, a)
  {
    var parts := Meaning(cwd, a);
    assert n in [n];
    MeaningInSteps(cwd, a, n + "/" + "..");
    SplitAtSlash(n, "..");
    SplitName(n);
    SplitName("..");
    WalkInPieces(parts, [n], [".."]);
    WalkForward(parts, [n]);
    assert [".."][..0] == [] && WalkAll(parts + [n], [".."][..0]) == parts + [n];
    assert (parts + [n])[..|parts|] == parts;
  }

  /** Two paths resolve to one string just when they mean the same directory names. */
  lemma SameSpelling(cwd: string, p: string, q: string)
    ensures Resolve(cwd, p) == Resolve(cwd, q) <==> Meaning(cwd, p) == Meaning(cwd, q)
  {
    MeaningIsCanonical(cwd, p);
    MeaningIsCanonical(cwd, q);
    SpellRoundTrip(Meaning(cwd, p), cwd);
    SpellRoundTrip(Meaning(cwd, q), cwd);
  }
}
